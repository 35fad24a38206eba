/** The graph of module_1/D: vertex names are strings, compared the way
    Python compares strings (code point by code point, a proper prefix
    first). Each vertex keeps its neighbours in a `SortedSet`, a sorted list
    without repeats. */
module Graphs {

  /** Python's `<` on strings. */
  predicate LexLess(a: string, b: string)
    decreases |a|
  {
    if a == [] then b != []
    else b != [] && (a[0] < b[0] || (a[0] == b[0] && LexLess(a[1..], b[1..])))
  }

  lemma {:induction false} LexIrreflexive(a: string)
    ensures !LexLess(a, a)
    decreases |a|
  {
    if a != [] {
      LexIrreflexive(a[1..]);
    }
  }

  lemma {:induction false} LexTransitive(a: string, b: string, c: string)
    requires LexLess(a, b) && LexLess(b, c)
    ensures LexLess(a, c)
    decreases |a|
  {
    if a != [] && a[0] == b[0] && b[0] == c[0] {
      LexTransitive(a[1..], b[1..], c[1..]);
    }
  }

  /** Two different strings are ordered one way or the other. */
  lemma {:induction false} LexTotal(a: string, b: string)
    requires a != b
    ensures LexLess(a, b) || LexLess(b, a)
    decreases |a|
  {
    if a != [] && b != [] && a[0] == b[0] {
      LexTotal(a[1..], b[1..]);
    }
  }

  /** Strictly increasing, hence without repeats. */
  predicate Sorted(s: seq<string>) {
    forall i, j :: 0 <= i < j < |s| ==> LexLess(s[i], s[j])
  }

  /** `v` put into its place in a sorted list. */
  function Insert(s: seq<string>, v: string): (r: seq<string>)
  {
    if s == [] then [v]
    else if LexLess(v, s[0]) then [v] + s
    else [s[0]] + Insert(s[1..], v)
  }

  /** Inserting a value adds just that value, sorted or not. */
  lemma {:induction false} InsertHas(s: seq<string>, v: string)
    ensures |Insert(s, v)| == |s| + 1
    ensures forall x :: x in Insert(s, v) <==> x in s || x == v
  {
    if s != [] && !LexLess(v, s[0]) {
      InsertHas(s[1..], v);
      assert s == [s[0]] + s[1..];
    }
  }

  /** Inserting a new value into a sorted list keeps it sorted and adds just
      that value. */
  lemma {:induction false} InsertSorted(s: seq<string>, v: string)
    requires Sorted(s) && v !in s
    ensures Sorted(Insert(s, v))
    ensures forall x :: x in Insert(s, v) <==> x in s || x == v
    ensures |Insert(s, v)| == |s| + 1
  {
    if s != [] && !LexLess(v, s[0]) {
      LexTotal(v, s[0]);
      InsertSorted(s[1..], v);
      var r := Insert(s, v);
      var t := Insert(s[1..], v);
      assert r == [s[0]] + t;
      forall i, j | 0 <= i < j < |r| ensures LexLess(r[i], r[j]) {
        if i == 0 {
          assert r[j] in t;
          if r[j] != v {
            var k :| 0 <= k < |s[1..]| && s[1..][k] == r[j];
            assert s[k + 1] == r[j];
          }
        } else {
          assert r[i] == t[i - 1] && r[j] == t[j - 1];
        }
      }
    } else if s != [] {
      var r := Insert(s, v);
      forall i, j | 0 <= i < j < |r| ensures LexLess(r[i], r[j]) {
        if i == 0 && j > 1 {
          LexTransitive(v, s[0], s[j - 1]);
        }
      }
    }
  }

  /** `SortedSet`: a sorted list of distinct values. */
  class SortedSet {
    var data: seq<string>

    constructor ()
      ensures data == []
    {
      data := [];
    }

    /** A value not yet present is appended and the list re-sorted; a
        present value changes nothing. */
    method Add(value: string)
      requires Sorted(data)
      modifies this
      ensures Sorted(data)
      ensures forall x :: x in data <==> x in old(data) || x == value
      ensures value in old(data) ==> data == old(data)
      ensures value !in old(data) ==> |data| == |old(data)| + 1
      ensures data == SortedAdd(old(data), value)
    {
      if value !in data {
        InsertSorted(data, value);
        data := Insert(data, value);
      }
    }
  }

  /** The neighbour lists of every vertex that has an entry. */
  type Adjacency = map<string, seq<string>>

  function Neighbours(adj: Adjacency, v: string): seq<string> {
    if v in adj then adj[v] else []
  }

  /** `SortedSet.add` on the value of a list. */
  function SortedAdd(s: seq<string>, v: string): (r: seq<string>)
    ensures forall x :: x in r <==> x in s || x == v
    ensures |r| == if v in s then |s| else |s| + 1
  {
    if v in s then s else InsertHas(s, v); Insert(s, v)
  }

  /** The adjacency after `Graph.add(start, end)`. */
  function Link(adj: Adjacency, start: string, end: string, directed: bool): (r: Adjacency)
    ensures start in r && end in r[start]
    ensures !directed ==> end in r && start in r[end]
  {
    var a := adj[start := SortedAdd(Neighbours(adj, start), end)];
    if directed then a else a[end := SortedAdd(Neighbours(a, end), start)]
  }

  predicate AllSorted(adj: Adjacency) {
    forall v :: v in adj ==> Sorted(adj[v])
  }

  /** `Graph.add` records the edge from `start` to `end`, and the edge back
      when the graph is undirected; nothing else changes, and every list
      stays sorted. */
  lemma LinkEdges(adj: Adjacency, start: string, end: string, directed: bool)
    requires AllSorted(adj)
    ensures var a := Link(adj, start, end, directed);
      AllSorted(a) &&
      (forall v :: v in a <==> v in adj || v == start || (!directed && v == end)) &&
      (forall v, w :: w in Neighbours(a, v) <==>
        w in Neighbours(adj, v) || (v == start && w == end) || (!directed && v == end && w == start))
  {
    AddEdge(adj, start, end);
    if !directed {
      AddEdge(adj[start := SortedAdd(Neighbours(adj, start), end)], end, start);
    }
  }

  /** Recording one edge from `u` to `w`. */
  lemma AddEdge(adj: Adjacency, u: string, w: string)
    requires AllSorted(adj)
    ensures var a := adj[u := SortedAdd(Neighbours(adj, u), w)];
      AllSorted(a) &&
      (forall v :: v in a <==> v in adj || v == u) &&
      (forall v, x :: x in Neighbours(a, v) <==> x in Neighbours(adj, v) || (v == u && x == w))
  {
    var n := Neighbours(adj, u);
    if w !in n {
      InsertSorted(n, w);
    }
  }

  /** Consecutive vertices are joined by edges. */
  ghost predicate IsPath(adj: Adjacency, p: seq<string>) {
    |p| >= 1 && forall i :: 0 <= i < |p| - 1 ==> p[i + 1] in Neighbours(adj, p[i])
  }

  /** Some path leads from `s` to `v`. */
  ghost predicate Reachable(adj: Adjacency, s: string, v: string) {
    exists p :: IsPath(adj, p) && p[0] == s && p[|p| - 1] == v
  }

  /** A vertex is reachable from itself, and a neighbour of a reachable
      vertex is reachable. */
  lemma ReachStep(adj: Adjacency, s: string, u: string, w: string)
    requires Reachable(adj, s, u) && w in Neighbours(adj, u)
    ensures Reachable(adj, s, w)
  {
    var p :| IsPath(adj, p) && p[0] == s && p[|p| - 1] == u;
    var q := p + [w];
    assert IsPath(adj, q) && q[0] == s && q[|q| - 1] == w;
  }

  lemma ReachSelf(adj: Adjacency, s: string)
    ensures Reachable(adj, s, s)
  {
    assert IsPath(adj, [s]);
  }

  /** A set that holds `s` and every neighbour of its members holds every
      vertex reachable from `s`. */
  lemma ClosedHoldsReachable(adj: Adjacency, vs: set<string>, s: string, v: string)
    requires s in vs && Reachable(adj, s, v)
    requires forall u, w :: u in vs && w in Neighbours(adj, u) ==> w in vs
    ensures v in vs
  {
    var p :| IsPath(adj, p) && p[0] == s && p[|p| - 1] == v;
    PathInside(adj, vs, p);
  }

  lemma {:induction false} PathInside(adj: Adjacency, vs: set<string>, p: seq<string>)
    requires IsPath(adj, p) && p[0] in vs
    requires forall u, w :: u in vs && w in Neighbours(adj, u) ==> w in vs
    ensures p[|p| - 1] in vs
    decreases |p|
  {
    if |p| > 1 {
      var q := p[..|p| - 1];
      assert IsPath(adj, q);
      PathInside(adj, vs, q);
      assert p[|p| - 1] in Neighbours(adj, q[|q| - 1]);
    }
  }

  /** A vertex without an entry reaches only itself. */
  lemma Isolated(adj: Adjacency, s: string)
    requires s !in adj
    ensures forall v :: v in [s] <==> Reachable(adj, s, v)
  {
    ReachSelf(adj, s);
    forall v | Reachable(adj, s, v) ensures v == s {
      ClosedHoldsReachable(adj, {s}, s, v);
    }
  }

  /** Every vertex named in the adjacency. */
  function Vertices(adj: Adjacency): set<string> {
    adj.Keys + (set u, w | u in adj && w in adj[u] :: w)
  }

  predicate Distinct(s: seq<string>) {
    forall i, j :: 0 <= i < j < |s| ==> s[i] != s[j]
  }

  function Elems(s: seq<string>): set<string> {
    set x | x in s
  }

  /** Python's `list.remove`: drops the first occurrence. */
  function Remove(s: seq<string>, x: string): (r: seq<string>)
    requires x in s && Distinct(s)
    ensures Distinct(r) && forall y :: y in r <==> y in s && y != x
  {
    if s[0] == x then s[1..]
    else
      var r := [s[0]] + Remove(s[1..], x);
      assert s[0] !in s[1..];
      r
  }

  /** The index of the first entry of `ns` outside `seen`, or `|ns|`. */
  function FirstNew(ns: seq<string>, seen: set<string>): (r: nat)
    ensures r <= |ns| && (forall j :: 0 <= j < r ==> ns[j] in seen) && (r < |ns| ==> ns[r] !in seen)
  {
    if ns == [] || ns[0] !in seen then 0 else 1 + FirstNew(ns[1..], seen)
  }

  lemma UpdateTwice(m: Adjacency, k: string, x: seq<string>, y: seq<string>)
    ensures m[k := x][k := y] == m[k := y]
  {
  }

  class Graph {
    const directed: bool
    var data: map<string, SortedSet>

    /** Every list is sorted, and each vertex has a set of its own. */
    ghost predicate Valid()
      reads this, data.Values
    {
      (forall v :: v in data ==> Sorted(data[v].data)) &&
      (forall v, w :: v in data && w in data && v != w ==> data[v] != data[w])
    }

    /** The neighbour lists as values. */
    function Adj(): (adj: Adjacency)
      reads this, data.Values
      ensures adj.Keys == data.Keys
    {
      map v | v in data :: data[v].data
    }

    constructor (directed: bool)
      ensures Valid() && this.directed == directed && Adj() == map[]
    {
      this.directed := directed;
      data := map[];
    }

    /** `self.data[v]` on a `defaultdict`: an absent vertex gets a new empty
        set first. */
    method Entry(v: string) returns (s: SortedSet)
      requires Valid()
      modifies this
      ensures Valid() && v in data && s == data[v]
      ensures Adj() == old(Adj())[v := Neighbours(old(Adj()), v)]
      ensures v in old(data) ==> data == old(data)
      ensures v !in old(data) ==> fresh(s) && data == old(data)[v := s]
    {
      if v in data {
        s := data[v];
        assert Adj() == old(Adj())[v := Neighbours(old(Adj()), v)];
      } else {
        s := new SortedSet();
        data := data[v := s];
        assert Adj() == old(Adj())[v := Neighbours(old(Adj()), v)];
      }
    }

    /** `Graph.add`. */
    method Add(start: string, end: string)
      requires Valid()
      modifies this, data.Values
      ensures Valid() && Adj() == Link(old(Adj()), start, end, directed)
    {
      ghost var adj := Adj();
      var s := Entry(start);
      AddTo(s, start, end);
      UpdateTwice(adj, start, Neighbours(adj, start), SortedAdd(Neighbours(adj, start), end));
      if !directed {
        ghost var a := Adj();
        var e := Entry(end);
        AddTo(e, end, start);
        UpdateTwice(a, end, Neighbours(a, end), SortedAdd(Neighbours(a, end), start));
      }
    }
  
    /** Adds `w` to the set `s` of vertex `v`; the other sets stay. */
    method AddTo(s: SortedSet, v: string, w: string)
      requires Valid() && v in data && data[v] == s
      modifies s
      ensures Valid() && Adj() == old(Adj())[v := SortedAdd(old(Adj())[v], w)]
    {
      s.Add(w);
      forall u | u in data && u != v ensures data[u].data == old(data[u].data) {
        assert data[u] != s;
      }
      assert Adj().Keys == old(Adj()).Keys;
    }
  
    /** `depth_graph_traversal`: starts at `start`, yields each vertex
        reachable from it exactly once, and after each vertex goes on to its
        smallest neighbour not yet yielded when there is one. */
    method DepthTraversal(start: string) returns (out: seq<string>)
      requires Valid()
      ensures out != [] && out[0] == start && Distinct(out)
      ensures start !in data ==> out == [start]
      ensures forall v :: v in out <==> Reachable(Adj(), start, v)
      ensures DepthOrder(Adj(), out)
    {
      if start !in data {
        out := [start];
        Isolated(Adj(), start);
        return;
      }
      out := DepthFirst(Adj(), start);
    }

    /** `width_graph_traversal`: yields the breadth-first order from
        `start`, in which each vertex taken from the queue appends its
        neighbours not yet seen, smallest first. */
    method WidthTraversal(start: string) returns (out: seq<string>)
      requires Valid()
      ensures out == Width(Adj(), start)
      ensures out != [] && out[0] == start && Distinct(out)
      ensures start !in data ==> out == [start]
      ensures forall v :: v in out <==> Reachable(Adj(), start, v)
    {
      var adj := Adj();
      assert AllSorted(adj);
      WidthInit(adj, start);
      WidthFacts(adj, start, [start], 0);
      if start !in data {
        out := [start];
        assert Fresh([], {start}) == [];
        return;
      }
      out := BreadthFirst(adj, start);
    }
  }

  /** The stack loop of the depth traversal over the neighbour lists
      `adj`. */
  method DepthFirst(adj: Adjacency, start: string) returns (out: seq<string>)
    requires AllSorted(adj)
    ensures out != [] && out[0] == start && Distinct(out)
    ensures forall v :: v in out <==> Reachable(adj, start, v)
    ensures DepthOrder(adj, out)
  {
    ReachSelf(adj, start);
    ghost var universe := Vertices(adj) + {start};
    assert Vertices(adj) <= universe;
    var visited: set<string> := {};
    var stack := [start];
    out := [];
    while stack != []
      invariant DepthState(adj, start, universe, visited, stack, out)
      decreases |universe - visited|
    {
      var current := stack[|stack| - 1];
      var ns := Neighbours(adj, current);
      visited, stack, out := DepthVisit(adj, start, universe, visited, stack, out, ns);
    }
    DepthDone(adj, start, universe, visited, out);
  }

  /** The queue loop of the breadth-first traversal over the neighbour
      lists `adj`. */
  method BreadthFirst(adj: Adjacency, start: string) returns (out: seq<string>)
    requires AllSorted(adj)
    ensures out == Width(adj, start)
  {
    var visited := {start};
    var queue := [start];
    out := [start];
    ghost var qi := 0;
    while queue != []
      invariant WidthLoop(adj, start, visited, queue, out, qi)
      decreases |Vertices(adj) - visited|, |queue|
    {
      var current := queue[0];
      var ns := Neighbours(adj, current);
      SortedDistinct(ns);
      var visited', queue', out' := WidthVisit(visited, queue, out, ns);
      WidthStep(adj, start, visited, queue, out, qi, ns);
      assert WidthLoop(adj, start, visited', queue', out', qi + 1);
      visited, queue, out, qi := visited', queue', out', qi + 1;
    }
  }

  /** An empty stack means every reachable vertex was yielded. */
  lemma DepthDone(adj: Adjacency, start: string, universe: set<string>, visited: set<string>, out: seq<string>)
    requires DepthState(adj, start, universe, visited, [], out)
    ensures out != [] && out[0] == start && Distinct(out)
    ensures forall v :: v in out <==> Reachable(adj, start, v)
  {
    forall v | Reachable(adj, start, v) ensures v in out {
      ClosedHoldsReachable(adj, visited, start, v);
    }
  }

  /** Some neighbour of `v` lies outside `seen`. */
  predicate Open(adj: Adjacency, v: string, seen: set<string>) {
    FirstNew(Neighbours(adj, v), seen) < |Neighbours(adj, v)|
  }

  /** The first neighbour of `v` outside `seen`: in the sorted list, the
      smallest one. */
  function FirstNewOf(adj: Adjacency, v: string, seen: set<string>): (w: string)
    requires Open(adj, v, seen)
    ensures w in Neighbours(adj, v) && w !in seen
  {
    Neighbours(adj, v)[FirstNew(Neighbours(adj, v), seen)]
  }

  /** The last position of `p` whose vertex still has a neighbour outside
      `seen`, or -1 when there is none. */
  function LatestOpen(adj: Adjacency, p: seq<string>, seen: set<string>): (j: int)
    ensures -1 <= j < |p|
    ensures j >= 0 ==> Open(adj, p[j], seen)
  {
    if p == [] then -1
    else if Open(adj, p[|p| - 1], seen) then |p| - 1
    else LatestOpen(adj, p[..|p| - 1], seen)
  }

  /** The depth-first order: each prefix of `out` that is not all of it has
      a vertex with a neighbour outside the prefix, and `out` goes on with
      the smallest such neighbour of the latest such vertex. */
  predicate DepthOrder(adj: Adjacency, out: seq<string>) {
    forall k :: 0 <= k < |out| - 1 ==> NextIsFirstNew(adj, out, k)
  }

  predicate NextIsFirstNew(adj: Adjacency, out: seq<string>, k: nat)
    requires k < |out| - 1
  {
    var seen := Elems(out[..k + 1]);
    var j := LatestOpen(adj, out[..k + 1], seen);
    j >= 0 && out[k + 1] == FirstNewOf(adj, out[j], seen)
  }

  /** What the depth traversal promises about its output. */
  ghost predicate DepthOutput(adj: Adjacency, start: string, out: seq<string>) {
    out != [] && out[0] == start && Distinct(out) &&
    (forall v :: v in out <==> Reachable(adj, start, v)) &&
    DepthOrder(adj, out)
  }

  /** That promise fixes the output: two outputs that keep it are equal. */
  lemma DepthUnique(adj: Adjacency, start: string, a: seq<string>, b: seq<string>)
    requires DepthOutput(adj, start, a) && DepthOutput(adj, start, b)
    ensures a == b
  {
    var m := if |a| <= |b| then |a| else |b|;
    DepthPrefix(adj, start, a, b, m);
    assert a[..|a|] == a && b[..|b|] == b;
    if |a| < |b| {
      DepthNoLonger(adj, start, a, b);
      assert false;
    } else if |b| < |a| {
      DepthNoLonger(adj, start, b, a);
      assert false;
    }
  }

  /** Two outputs in depth-first order from `start` agree as far as both go. */
  lemma {:induction false} DepthPrefix(adj: Adjacency, start: string, a: seq<string>, b: seq<string>, k: nat)
    requires a != [] && b != [] && a[0] == start && b[0] == start
    requires DepthOrder(adj, a) && DepthOrder(adj, b)
    requires k <= |a| && k <= |b|
    ensures a[..k] == b[..k]
    decreases k
  {
    if k > 1 {
      DepthPrefix(adj, start, a, b, k - 1);
      assert NextIsFirstNew(adj, a, k - 2) && NextIsFirstNew(adj, b, k - 2);
      NextAgrees(adj, a, b, k - 2);
      PrefixStep(a, b, k);
    } else if k == 1 {
      assert a[..1] == [start] == b[..1];
    }
  }

  /** Equal prefixes followed by equal entries are longer equal prefixes. */
  lemma PrefixStep(a: seq<string>, b: seq<string>, k: nat)
    requires 0 < k <= |a| && k <= |b| && a[..k - 1] == b[..k - 1] && a[k - 1] == b[k - 1]
    ensures a[..k] == b[..k]
  {
    assert a[..k] == a[..k - 1] + [a[k - 1]] && b[..k] == b[..k - 1] + [b[k - 1]];
  }

  /** Equal prefixes are followed by the same vertex. */
  lemma NextAgrees(adj: Adjacency, a: seq<string>, b: seq<string>, k: nat)
    requires k < |a| - 1 && k < |b| - 1 && a[..k + 1] == b[..k + 1]
    requires NextIsFirstNew(adj, a, k) && NextIsFirstNew(adj, b, k)
    ensures a[k + 1] == b[k + 1]
  {
    var j := LatestOpen(adj, a[..k + 1], Elems(a[..k + 1]));
    assert a[j] == a[..k + 1][j] == b[..k + 1][j] == b[j];
  }

  /** No vertex of a complete output has a neighbour outside it. */
  lemma DepthClosed(adj: Adjacency, start: string, a: seq<string>)
    requires DepthOutput(adj, start, a)
    ensures LatestOpen(adj, a, Elems(a)) == -1
  {
    var j := LatestOpen(adj, a, Elems(a));
    if j >= 0 {
      ReachStep(adj, start, a[j], FirstNewOf(adj, a[j], Elems(a)));
    }
  }

  /** So a complete output is not a proper prefix of one in depth-first
      order. */
  lemma DepthNoLonger(adj: Adjacency, start: string, a: seq<string>, b: seq<string>)
    requires DepthOutput(adj, start, a) && DepthOrder(adj, b) && |a| < |b|
    ensures b[..|a|] != a
  {
    DepthClosed(adj, start, a);
    assert NextIsFirstNew(adj, b, |a| - 1);
  }

  /** A star: A with neighbours B, C, D, each linked back to A only. */
  function Star(): Adjacency {
    map["A" := ["B", "C", "D"], "B" := ["A"], "C" := ["A"], "D" := ["A"]]
  }

  /** After backtracking, the order resumes at the latest vertex that still
      has an unvisited neighbour: in the star, B after A is followed by C,
      not D. */
  lemma DepthBacktracks()
    ensures !DepthOrder(Star(), ["A", "B", "D", "C"])
  {
    var bad := ["A", "B", "D", "C"];
    var seen := {"A", "B"};
    assert bad[..2] == ["A", "B"] && Elems(["A", "B"]) == seen;
    assert Neighbours(Star(), "B") == ["A"] && Neighbours(Star(), "A") == ["B", "C", "D"];
    assert FirstNew(["A"], seen) == 1 by {
      assert FirstNew(["A"][1..], seen) == 0;
    }
    assert FirstNew(["B", "C", "D"], seen) == 1 by {
      assert ["B", "C", "D"][1..] == ["C", "D"];
    }
    assert LatestOpen(Star(), ["A", "B"], seen) == 0 by {
      assert ["A", "B"][..1] == ["A"];
    }
    assert !NextIsFirstNew(Star(), bad, 1);
  }

  /** The state of the depth traversal before each pop. */
  ghost predicate DepthState(adj: Adjacency, start: string, universe: set<string>,
                             visited: set<string>, stack: seq<string>, out: seq<string>) {
    Shape(universe, visited, stack, out) && Vertices(adj) <= universe &&
    (out == [] ==> stack == [start] && start in universe) &&
    (out != [] ==> out[0] == start) &&
    (forall v :: v in visited || v in stack ==> Reachable(adj, start, v)) &&
    Frontier(adj, visited, stack) &&
    Ordered(adj, out, stack) && Waiting(adj, out, stack) &&
    DepthOrder(adj, out)
  }

  /** `visited` is what was yielded, nothing repeats, and the stack holds
      vertices not yet visited. */
  ghost predicate Shape(universe: set<string>, visited: set<string>, stack: seq<string>, out: seq<string>) {
    visited == Elems(out) && Distinct(out) && Distinct(stack) && visited <= universe &&
    forall x :: x in stack ==> x !in visited && x in universe
  }

  /** Every neighbour of a visited vertex is visited or waiting. */
  ghost predicate Frontier(adj: Adjacency, visited: set<string>, stack: seq<string>) {
    forall u, w :: u in visited && w in Neighbours(adj, u) ==> w in visited || w in stack
  }

  /** The position in `out` of the last vertex that has `x` as a neighbour:
      the vertex that pushed `x` last. It is -1 when there is none. */
  ghost function Owner(adj: Adjacency, out: seq<string>, x: string): (r: int)
    ensures -1 <= r < |out|
    ensures r >= 0 ==> x in Neighbours(adj, out[r])
  {
    if out == [] then -1
    else if x in Neighbours(adj, out[|out| - 1]) then |out| - 1
    else Owner(adj, out[..|out| - 1], x)
  }

  /** `x` lies below `y` on the stack: a vertex yielded earlier pushed it,
      or the same vertex pushed both and `x` is the larger. */
  ghost predicate Below(adj: Adjacency, out: seq<string>, x: string, y: string) {
    Owner(adj, out, x) < Owner(adj, out, y) ||
    (Owner(adj, out, x) == Owner(adj, out, y) && LexLess(y, x))
  }

  /** The stack, bottom to top, in the order `Below`. */
  ghost predicate Ordered(adj: Adjacency, out: seq<string>, stack: seq<string>) {
    forall p, q :: 0 <= p < q < |stack| ==> Below(adj, out, stack[p], stack[q])
  }

  /** Once something was yielded, the stack holds exactly the vertices not
      yet yielded that neighbour a yielded one. */
  ghost predicate Waiting(adj: Adjacency, out: seq<string>, stack: seq<string>) {
    out != [] ==> forall x :: x in stack <==> x !in Elems(out) && Owner(adj, out, x) >= 0
  }

  /** One pass of the loop of the depth traversal: pops the top, yields it
      and pushes its neighbours `ns` that are not yet visited. */
  method DepthVisit(ghost adj: Adjacency, ghost start: string, ghost universe: set<string>,
                    visited: set<string>, stack: seq<string>, out: seq<string>, ns: seq<string>)
    returns (visited': set<string>, stack': seq<string>, out': seq<string>)
    requires AllSorted(adj) && DepthState(adj, start, universe, visited, stack, out) && stack != []
    requires ns == Neighbours(adj, stack[|stack| - 1])
    ensures DepthState(adj, start, universe, visited', stack', out')
    ensures |universe - visited'| < |universe - visited|
  {
    var current := stack[|stack| - 1];
    visited' := visited + {current};
    SortedDistinct(ns);
    stack' := PushNeighbours(ns, visited', stack[..|stack| - 1]);
    out' := out + [current];
    StateStep(adj, universe, visited, stack, out, stack');
    FrontierStep(adj, visited, stack, stack');
    forall v | v in ns ensures Reachable(adj, start, v) {
      ReachStep(adj, start, current, v);
    }
    StackStep(adj, out, stack, Fresh(ns, visited'), stack');
    TopNext(adj, out, stack);
    DepthOrderStep(adj, out, current);
  }

  /** The step keeps the shape of the state and shrinks what is left. */
  lemma StateStep(adj: Adjacency, universe: set<string>, visited: set<string>, stack: seq<string>,
                  out: seq<string>, rest: seq<string>)
    requires Shape(universe, visited, stack, out) && stack != [] && Vertices(adj) <= universe
    requires var current := stack[|stack| - 1];
      Distinct(rest) &&
      forall x :: x in rest <==> x in stack[..|stack| - 1] || (x in Neighbours(adj, current) && x !in visited + {current})
    ensures var current := stack[|stack| - 1];
      Shape(universe, visited + {current}, rest, out + [current]) &&
      |universe - (visited + {current})| < |universe - visited|
  {
    var current := stack[|stack| - 1];
    var visited' := visited + {current};
    var out' := out + [current];
    assert current in universe && current !in visited;
    assert universe - visited' == (universe - visited) - {current};
    assert Elems(out') == Elems(out) + {current};
    forall x | x in rest ensures x !in visited' && x in universe {
      if x in stack[..|stack| - 1] {
        var i :| 0 <= i < |stack| - 1 && stack[i] == x;
        assert x in stack && x != current;
      } else {
        assert current in adj && x in adj[current];
        assert x in Vertices(adj);
      }
    }
  }

  /** Neighbours of the popped vertex are now visited or on the stack. */
  lemma FrontierStep(adj: Adjacency, visited: set<string>, stack: seq<string>, rest: seq<string>)
    requires Frontier(adj, visited, stack) && stack != []
    requires var current := stack[|stack| - 1];
      forall x :: x in rest <==> x in stack[..|stack| - 1] || (x in Neighbours(adj, current) && x !in visited + {current})
    ensures Frontier(adj, visited + {stack[|stack| - 1]}, rest)
  {
    var current := stack[|stack| - 1];
    forall u, w | u in visited + {current} && w in Neighbours(adj, u)
      ensures w in visited + {current} || w in rest
    {
      if w in stack && w != current {
        var i :| 0 <= i < |stack| && stack[i] == w;
        assert w in stack[..|stack| - 1];
      }
    }
  }

  /** A neighbour of `v` outside `seen` makes `v` open, and the first new
      neighbour is that one or smaller. */
  lemma FirstNewLeast(adj: Adjacency, v: string, seen: set<string>, x: string)
    requires AllSorted(adj) && x in Neighbours(adj, v) && x !in seen
    ensures Open(adj, v, seen)
    ensures x == FirstNewOf(adj, v, seen) || LexLess(FirstNewOf(adj, v, seen), x)
  {
    var ns := Neighbours(adj, v);
    var i :| 0 <= i < |ns| && ns[i] == x;
    assert Sorted(ns);
  }

  /** The top of an ordered, waiting stack is waiting, and lies above every
      other waiting vertex in the order `Below`. */
  lemma TopIsHighest(adj: Adjacency, out: seq<string>, stack: seq<string>)
    requires out != [] && stack != []
    requires Ordered(adj, out, stack) && Waiting(adj, out, stack)
    ensures var top := stack[|stack| - 1];
      top !in Elems(out) && Owner(adj, out, top) >= 0 &&
      forall y :: y !in Elems(out) && Owner(adj, out, y) >= 0 ==> y == top || Below(adj, out, y, top)
  {
    var top := stack[|stack| - 1];
    assert top in stack;
    forall y | y !in Elems(out) && Owner(adj, out, y) >= 0 && y != top
      ensures Below(adj, out, y, top)
    {
      var p :| 0 <= p < |stack| && stack[p] == y;
      assert p < |stack| - 1;
      assert Below(adj, out, stack[p], stack[|stack| - 1]);
    }
  }

  /** The waiting vertex highest in the order `Below` is the first new
      neighbour of the latest yielded vertex that still has one. */
  lemma TopIsLatest(adj: Adjacency, out: seq<string>, top: string)
    requires AllSorted(adj) && out != []
    requires top !in Elems(out) && Owner(adj, out, top) >= 0
    requires forall y :: y !in Elems(out) && Owner(adj, out, y) >= 0 ==> y == top || Below(adj, out, y, top)
    ensures var seen := Elems(out);
      var j := LatestOpen(adj, out, seen);
      j >= 0 && top == FirstNewOf(adj, out[j], seen)
  {
    var seen := Elems(out);
    var o := Owner(adj, out, top);
    FirstNewLeast(adj, out[o], seen, top);
    var j := LatestOpen(adj, out, seen);
    LatestAtLeast(adj, out, seen, o);
    var y := FirstNewOf(adj, out[j], seen);
    OwnerAtLeast(adj, out, y, j);
    if y != top {
      TopIsFirst(adj, out, j, o, y, top);
    }
  }

  /** The core of TopIsLatest: a vertex below the top cannot be the first
      new neighbour of the latest open vertex, unless it is the top. */
  lemma TopIsFirst(adj: Adjacency, out: seq<string>, j: int, o: int, y: string, top: string)
    requires o <= j && Owner(adj, out, top) == o && Owner(adj, out, y) >= j
    requires Below(adj, out, y, top)
    requires j == o ==> y == top || LexLess(y, top)
    ensures y == top
  {
    if y != top {
      LexTransitive(y, top, y);
      LexIrreflexive(y);
    }
  }

  /** A yielded vertex that has `x` as a neighbour bounds who pushed `x`
      last from below. */
  lemma {:induction false} OwnerAtLeast(adj: Adjacency, out: seq<string>, x: string, i: nat)
    requires i < |out| && x in Neighbours(adj, out[i])
    ensures Owner(adj, out, x) >= i
    decreases |out|
  {
    if i < |out| - 1 && x !in Neighbours(adj, out[|out| - 1]) {
      OwnerAtLeast(adj, out[..|out| - 1], x, i);
    }
  }

  /** An open vertex bounds the latest open one from below. */
  lemma {:induction false} LatestAtLeast(adj: Adjacency, p: seq<string>, seen: set<string>, i: nat)
    requires i < |p| && Open(adj, p[i], seen)
    ensures LatestOpen(adj, p, seen) >= i
    decreases |p|
  {
    if i < |p| - 1 && !Open(adj, p[|p| - 1], seen) {
      LatestAtLeast(adj, p[..|p| - 1], seen, i);
    }
  }

  /** Yielding the top of the stack keeps the depth order. */
  lemma TopNext(adj: Adjacency, out: seq<string>, stack: seq<string>)
    requires AllSorted(adj) && stack != []
    requires Ordered(adj, out, stack) && Waiting(adj, out, stack)
    ensures out != [] ==>
      var seen := Elems(out);
      var j := LatestOpen(adj, out, seen);
      j >= 0 && stack[|stack| - 1] == FirstNewOf(adj, out[j], seen)
  {
    if out != [] {
      TopIsHighest(adj, out, stack);
      TopIsLatest(adj, out, stack[|stack| - 1]);
    }
  }

  /** Appending the first new neighbour of the latest open vertex keeps the
      depth order. */
  lemma DepthOrderStep(adj: Adjacency, out: seq<string>, current: string)
    requires DepthOrder(adj, out)
    requires out != [] ==>
      var seen := Elems(out);
      var j := LatestOpen(adj, out, seen);
      j >= 0 && current == FirstNewOf(adj, out[j], seen)
    ensures DepthOrder(adj, out + [current])
  {
    var out' := out + [current];
    forall k | 0 <= k < |out'| - 1 ensures NextIsFirstNew(adj, out', k) {
      assert out'[..k + 1] == out[..k + 1];
      if k == |out| - 1 {
        assert out[..k + 1] == out;
      } else {
        assert NextIsFirstNew(adj, out, k);
      }
    }
  }

  /** Who pushed `x` last, once `c` is yielded too. */
  lemma OwnerNext(adj: Adjacency, out: seq<string>, c: string, x: string)
    ensures Owner(adj, out + [c], x) == if x in Neighbours(adj, c) then |out| else Owner(adj, out, x)
  {
    assert (out + [c])[..|out|] == out;
  }

  /** Popping `c` and pushing its new neighbours `f` on top, smallest last,
      keeps the stack ordered and waiting. */
  lemma StackStep(adj: Adjacency, out: seq<string>, stack: seq<string>, f: seq<string>, stack': seq<string>)
    requires AllSorted(adj) && stack != [] && Distinct(stack)
    requires Ordered(adj, out, stack) && Waiting(adj, out, stack)
    requires out == [] ==> |stack| == 1
    requires forall x :: x in stack ==> x !in Elems(out)
    requires var c := stack[|stack| - 1];
      f == Fresh(Neighbours(adj, c), Elems(out) + {c}) &&
      stack' == Fresh(stack[..|stack| - 1], Elems(f)) + Reverse(f)
    ensures var c := stack[|stack| - 1];
      Ordered(adj, out + [c], stack') && Waiting(adj, out + [c], stack')
  {
    var c := stack[|stack| - 1];
    var rest := stack[..|stack| - 1];
    var a := Fresh(rest, Elems(f));
    assert Ordered(adj, out, rest);
    FreshOrdered(adj, out, rest, Elems(f));
    forall x | x in a ensures x !in Neighbours(adj, c) && x !in Elems(out) + {c} && Owner(adj, out, x) >= 0 {
      var i :| 0 <= i < |rest| && rest[i] == x;
      assert stack[i] == x && i < |stack| - 1;
    }
    var ns := Neighbours(adj, c);
    assert Sorted(ns);
    FreshSorted(ns, Elems(out) + {c});
    StackStepOrdered(adj, out, c, a, f);
    StackStepWaiting(adj, out, stack, a, f);
  }

  /** The order part of StackStep. */
  lemma StackStepOrdered(adj: Adjacency, out: seq<string>, c: string, a: seq<string>, f: seq<string>)
    requires Ordered(adj, out, a) && Sorted(f)
    requires forall x :: x in a ==> x !in Neighbours(adj, c)
    requires forall x :: x in f ==> x in Neighbours(adj, c)
    ensures Ordered(adj, out + [c], a + Reverse(f))
  {
    var out' := out + [c];
    var r := Reverse(f);
    var s := a + r;
    forall p, q | 0 <= p < q < |s| ensures Below(adj, out', s[p], s[q]) {
      OwnerNext(adj, out, c, s[p]);
      OwnerNext(adj, out, c, s[q]);
      if q < |a| {
        assert s[p] == a[p] && s[q] == a[q];
        assert Below(adj, out, a[p], a[q]);
      } else if p < |a| {
        assert s[p] == a[p] && s[q] == r[q - |a|];
        assert s[q] in f;
      } else {
        assert s[p] == f[|f| - 1 - (p - |a|)] && s[q] == f[|f| - 1 - (q - |a|)];
        assert s[p] in f && s[q] in f;
      }
    }
  }

  /** The membership part of StackStep. */
  lemma StackStepWaiting(adj: Adjacency, out: seq<string>, stack: seq<string>, a: seq<string>, f: seq<string>)
    requires stack != [] && Waiting(adj, out, stack) && Distinct(stack)
    requires out == [] ==> |stack| == 1
    requires var c := stack[|stack| - 1];
      a == Fresh(stack[..|stack| - 1], Elems(f)) &&
      f == Fresh(Neighbours(adj, c), Elems(out) + {c})
    requires forall x :: x in stack ==> x !in Elems(out)
    ensures Waiting(adj, out + [stack[|stack| - 1]], a + Reverse(f))
  {
    var c := stack[|stack| - 1];
    var rest := stack[..|stack| - 1];
    var out' := out + [c];
    assert stack == rest + [c];
    DistinctLast(stack);
    forall x ensures x in a + Reverse(f) <==> x !in Elems(out') && Owner(adj, out', x) >= 0 {
      WaitingAt(adj, out, stack, c, rest, a, f, x);
    }
  }

  /** StackStepWaiting for one vertex `x`. */
  lemma WaitingAt(adj: Adjacency, out: seq<string>, stack: seq<string>, c: string, rest: seq<string>,
                  a: seq<string>, f: seq<string>, x: string)
    requires Waiting(adj, out, stack) && stack == rest + [c] && c !in rest
    requires out == [] ==> rest == []
    requires a == Fresh(rest, Elems(f)) && f == Fresh(Neighbours(adj, c), Elems(out) + {c})
    requires x in stack ==> x !in Elems(out)
    ensures x in a + Reverse(f) <==> x !in Elems(out + [c]) && Owner(adj, out + [c], x) >= 0
  {
    OwnerNext(adj, out, c, x);
    assert Elems(out + [c]) == Elems(out) + {c};
    if out != [] {
      assert x in stack <==> x !in Elems(out) && Owner(adj, out, x) >= 0;
    }
  }

  /** The last entry of a list without repeats is not among the others. */
  lemma DistinctLast(s: seq<string>)
    requires s != [] && Distinct(s)
    ensures s[|s| - 1] !in s[..|s| - 1]
  {
  }

  /** Dropping entries keeps an ordered stack ordered. */
  lemma {:induction false} FreshOrdered(adj: Adjacency, out: seq<string>, s: seq<string>, seen: set<string>)
    requires Ordered(adj, out, s)
    ensures Ordered(adj, out, Fresh(s, seen))
    decreases |s|
  {
    if s != [] {
      var init := s[..|s| - 1];
      assert Ordered(adj, out, init);
      FreshOrdered(adj, out, init, seen);
      var r := Fresh(init, seen);
      if s[|s| - 1] !in seen {
        var r' := r + [s[|s| - 1]];
        forall p, q | 0 <= p < q < |r'| ensures Below(adj, out, r'[p], r'[q]) {
          if q == |r| {
            assert r'[p] in init;
            var i :| 0 <= i < |init| && init[i] == r'[p];
            assert s[i] == init[i];
          } else {
            assert r'[p] == r[p] && r'[q] == r[q];
          }
        }
      }
    }
  }

  /** Dropping entries keeps a sorted list sorted. */
  lemma {:induction false} FreshSorted(s: seq<string>, seen: set<string>)
    requires Sorted(s)
    ensures Sorted(Fresh(s, seen))
    decreases |s|
  {
    if s != [] {
      var init := s[..|s| - 1];
      FreshSorted(init, seen);
      var r := Fresh(init, seen);
      if s[|s| - 1] !in seen {
        var r' := r + [s[|s| - 1]];
        forall p, q | 0 <= p < q < |r'| ensures LexLess(r'[p], r'[q]) {
          if q == |r| {
            assert r'[p] in init;
            var i :| 0 <= i < |init| && init[i] == r'[p];
            assert s[i] == init[i];
          } else {
            assert r'[p] == r[p] && r'[q] == r[q];
          }
        }
      }
    }
  }

  /** A list back to front. */
  function Reverse(s: seq<string>): (r: seq<string>)
    ensures |r| == |s| && forall i :: 0 <= i < |s| ==> r[i] == s[|s| - 1 - i]
    ensures forall x :: x in r <==> x in s
  {
    if s == [] then [] else Reverse(s[1..]) + [s[0]]
  }

  /** The inner loop of the depth traversal: the neighbours not yet visited
      are pushed from the largest to the smallest, each moved to the top if
      it was already on the stack. The new stack is the old one without
      them, with them on top, smallest last. */
  method PushNeighbours(ns: seq<string>, visited: set<string>, stack: seq<string>) returns (stack': seq<string>)
    requires Distinct(stack) && Distinct(ns)
    ensures Distinct(stack')
    ensures forall x :: x in stack' <==> x in stack || (x in ns && x !in visited)
    ensures stack' == Fresh(stack, Elems(Fresh(ns, visited))) + Reverse(Fresh(ns, visited))
  {
    stack' := stack;
    var k := |ns|;
    FreshNone(stack, {});
    assert Fresh(ns[k..], visited) == [] && Elems([]) == {};
    while k > 0
      invariant 0 <= k <= |ns| && Distinct(stack')
      invariant forall x :: x in stack' <==> x in stack || (x in ns[k..] && x !in visited)
      invariant stack' == Fresh(stack, Elems(Fresh(ns[k..], visited))) + Reverse(Fresh(ns[k..], visited))
    {
      k := k - 1;
      var neighbor := ns[k];
      ghost var g := Fresh(ns[k + 1..], visited);
      assert stack' == Fresh(stack, Elems(g)) + Reverse(g);
      FreshCons(ns, k, visited);
      if neighbor !in visited {
        assert Fresh(ns[k..], visited) == [neighbor] + g;
        PushGuard(ns, k, visited);
        if neighbor in stack' {
          PushMoved(stack, g, neighbor);
          stack' := Remove(stack', neighbor);
        } else {
          PushNew(stack, g, neighbor);
        }
        stack' := stack' + [neighbor];
        assert stack' == Fresh(stack, Elems([neighbor] + g)) + Reverse([neighbor] + g);
      } else {
        assert Fresh(ns[k..], visited) == g;
      }
    }
    assert ns[0..] == ns;
  }

  /** `Fresh` of `ns[k..]` in terms of `Fresh` of `ns[k + 1..]`. */
  lemma FreshCons(ns: seq<string>, k: nat, seen: set<string>)
    requires k < |ns|
    ensures Fresh(ns[k..], seen) == (if ns[k] in seen then [] else [ns[k]]) + Fresh(ns[k + 1..], seen)
  {
    assert ns[k..] == [ns[k]] + ns[k + 1..];
    FreshFront(ns[k], ns[k + 1..], seen);
  }

  /** An entry of a list without repeats is not in the rest after it. */
  lemma PushGuard(ns: seq<string>, k: nat, seen: set<string>)
    requires k < |ns| && Distinct(ns)
    ensures ns[k] !in Fresh(ns[k + 1..], seen)
  {
  }

  /** Putting `y` first into the new neighbours `g` reverses to `y` last. */
  lemma ReverseCons(y: string, g: seq<string>)
    ensures Reverse([y] + g) == Reverse(g) + [y]
    ensures Elems([y] + g) == Elems(g) + {y}
  {
    assert ([y] + g)[1..] == g;
  }

  /** Moving `y`, already on the stack, to the top. */
  lemma PushMoved(stack: seq<string>, g: seq<string>, y: string)
    requires Distinct(stack) && y in stack && y !in g
    requires Distinct(Fresh(stack, Elems(g)) + Reverse(g))
    ensures y in Fresh(stack, Elems(g)) + Reverse(g)
    ensures Remove(Fresh(stack, Elems(g)) + Reverse(g), y) + [y] ==
            Fresh(stack, Elems([y] + g)) + Reverse([y] + g)
  {
    ReverseCons(y, g);
    RemoveFresh(stack, Elems(g), y);
    RemoveAppend(Fresh(stack, Elems(g)), Reverse(g), y);
  }

  /** Pushing `y`, not yet on the stack. */
  lemma PushNew(stack: seq<string>, g: seq<string>, y: string)
    requires y !in stack
    ensures Fresh(stack, Elems(g)) + Reverse(g) + [y] ==
            Fresh(stack, Elems([y] + g)) + Reverse([y] + g)
  {
    ReverseCons(y, g);
    FreshIgnores(stack, Elems(g), y);
  }

  /** Fresh from the front: the first entry, if new, then the rest. */
  lemma {:induction false} FreshFront(y: string, t: seq<string>, seen: set<string>)
    ensures Fresh([y] + t, seen) == (if y in seen then [] else [y]) + Fresh(t, seen)
    decreases |t|
  {
    if t != [] {
      var s := [y] + t;
      var init := t[..|t| - 1];
      assert s[|s| - 1] == t[|t| - 1];
      assert s[..|s| - 1] == [y] + init;
      FreshFront(y, init, seen);
      var h := if y in seen then [] else [y];
      if t[|t| - 1] !in seen {
        assert Fresh(s, seen) == h + Fresh(init, seen) + [t[|t| - 1]];
      }
    } else {
      assert ([y] + t)[..0] == [];
    }
  }

  /** Nothing dropped when nothing is seen. */
  lemma {:induction false} FreshNone(s: seq<string>, seen: set<string>)
    requires forall x :: x in s ==> x !in seen
    ensures Fresh(s, seen) == s
    decreases |s|
  {
    if s != [] {
      FreshNone(s[..|s| - 1], seen);
    }
  }

  /** Seeing a value the list does not hold drops nothing more. */
  lemma {:induction false} FreshIgnores(s: seq<string>, seen: set<string>, y: string)
    requires y !in s
    ensures Fresh(s, seen + {y}) == Fresh(s, seen)
    decreases |s|
  {
    if s != [] {
      FreshIgnores(s[..|s| - 1], seen, y);
    }
  }

  /** Removing a value from the kept entries is seeing it too. */
  lemma {:induction false} RemoveFresh(s: seq<string>, seen: set<string>, y: string)
    requires Distinct(s) && y in s && y !in seen
    ensures Distinct(Fresh(s, seen)) && y in Fresh(s, seen)
    ensures Remove(Fresh(s, seen), y) == Fresh(s, seen + {y})
    decreases |s|
  {
    FreshDistinct(s, seen);
    var init := s[..|s| - 1];
    var z := s[|s| - 1];
    assert s == init + [z];
    var r := Fresh(init, seen);
    FreshDistinct(init, seen);
    if z == y {
      assert y !in init;
      RemoveEnd(r, y);
      FreshIgnores(init, seen, y);
    } else {
      assert y in init;
      RemoveFresh(init, seen, y);
      if z !in seen {
        RemoveAppend(r, [z], y);
      }
    }
  }

  /** Removing from the front part of a list. */
  lemma {:induction false} RemoveAppend(a: seq<string>, b: seq<string>, y: string)
    requires Distinct(a + b) && y in a
    ensures Distinct(a) && Remove(a + b, y) == Remove(a, y) + b
    decreases |a|
  {
    assert forall i, j :: 0 <= i < j < |a| ==> a[i] == (a + b)[i] && a[j] == (a + b)[j];
    if a[0] != y {
      assert (a + b)[1..] == a[1..] + b;
      RemoveAppend(a[1..], b, y);
    } else {
      assert (a + b)[1..] == a[1..] + b;
    }
  }

  /** Removing the last entry. */
  lemma {:induction false} RemoveEnd(a: seq<string>, y: string)
    requires Distinct(a + [y]) && y !in a
    ensures Remove(a + [y], y) == a
    decreases |a|
  {
    if a != [] {
      assert (a + [y])[1..] == a[1..] + [y];
      assert forall i, j :: 0 <= i < j < |a[1..] + [y]| ==> (a[1..] + [y])[i] == (a + [y])[i + 1] && (a[1..] + [y])[j] == (a + [y])[j + 1];
      RemoveEnd(a[1..], y);
    }
  }

  /** Entries of `ns` outside `seen`, in their order. */
  function Fresh(ns: seq<string>, seen: set<string>): (r: seq<string>)
    ensures forall x :: x in r <==> x in ns && x !in seen
    decreases |ns|
  {
    if ns == [] then []
    else
      var init := ns[..|ns| - 1];
      assert ns == init + [ns[|ns| - 1]];
      if ns[|ns| - 1] in seen then Fresh(init, seen) else Fresh(init, seen) + [ns[|ns| - 1]]
  }

  /** The breadth-first order from `start`: the queue is the part of the
      output after position `qi`, and taking `out[qi]` from it appends its
      neighbours that are not yet in the output. */
  ghost function WidthFrom(adj: Adjacency, out: seq<string>, qi: nat): seq<string>
    requires qi <= |out|
    decreases |Vertices(adj) - Elems(out)|, |out| - qi
  {
    if qi == |out| then out
    else
      FreshGrows(adj, out, qi);
      WidthFrom(adj, out + Fresh(Neighbours(adj, out[qi]), Elems(out)), qi + 1)
  }

  lemma WidthUnfold(adj: Adjacency, out: seq<string>, qi: nat)
    requires qi < |out|
    ensures WidthFrom(adj, out, qi) == WidthFrom(adj, out + Fresh(Neighbours(adj, out[qi]), Elems(out)), qi + 1)
  {
  }

  ghost function Width(adj: Adjacency, start: string): seq<string> {
    WidthFrom(adj, [start], 0)
  }

  /** Appending the new neighbours of a dequeued vertex either changes
      nothing or adds vertices of the graph not yet seen. */
  lemma FreshGrows(adj: Adjacency, out: seq<string>, qi: nat)
    requires qi < |out|
    ensures var f := Fresh(Neighbours(adj, out[qi]), Elems(out));
      (f == [] ==> out + f == out) &&
      (f != [] ==> |Vertices(adj) - Elems(out + f)| < |Vertices(adj) - Elems(out)|)
  {
    var f := Fresh(Neighbours(adj, out[qi]), Elems(out));
    if f != [] {
      var x := f[0];
      assert x in f;
      assert x in Vertices(adj);
      assert x in out + f;
      Shrinks(Vertices(adj), Elems(out), Elems(out + f), x);
    }
  }

  lemma Shrinks(a: set<string>, b: set<string>, c: set<string>, x: string)
    requires b <= c && x in a && x in c && x !in b
    ensures |a - c| < |a - b|
  {
    SubsetCard(a - c, (a - b) - {x});
  }

  lemma {:induction false} SubsetCard(s: set<string>, t: set<string>)
    requires s <= t
    ensures |s| <= |t|
    decreases s
  {
    if s != {} {
      var y :| y in s;
      SubsetCard(s - {y}, t - {y});
    }
  }

  lemma SortedDistinct(s: seq<string>)
    requires Sorted(s)
    ensures Distinct(s)
  {
    forall i, j | 0 <= i < j < |s| ensures s[i] != s[j] {
      if s[i] == s[j] {
        LexIrreflexive(s[i]);
      }
    }
  }

  /** New neighbours of distinct lists are distinct and are not in `seen`. */
  lemma {:induction false} FreshDistinct(ns: seq<string>, seen: set<string>)
    requires Distinct(ns)
    ensures Distinct(Fresh(ns, seen))
    decreases |ns|
  {
    if ns != [] {
      var init := ns[..|ns| - 1];
      FreshDistinct(init, seen);
      assert ns[|ns| - 1] !in init;
    }
  }

  /** What holds of the breadth-first state before each dequeue: the output
      starts at `start`, repeats nothing, holds only reachable vertices, and
      holds every neighbour of each vertex already dequeued. */
  ghost predicate WidthState(adj: Adjacency, start: string, out: seq<string>, qi: nat) {
    qi <= |out| && out != [] && out[0] == start && Distinct(out) &&
    (forall v :: v in out ==> Reachable(adj, start, v)) &&
    forall k, w :: 0 <= k < qi && w in Neighbours(adj, out[k]) ==> w in out
  }

  /** The breadth-first order lists every vertex reachable from `start`
      exactly once, and nothing else. */
  lemma {:induction false} WidthFacts(adj: Adjacency, start: string, out: seq<string>, qi: nat)
    requires AllSorted(adj) && WidthState(adj, start, out, qi)
    ensures var r := WidthFrom(adj, out, qi);
      r != [] && r[0] == start && Distinct(r) && forall v :: v in r <==> Reachable(adj, start, v)
    decreases |Vertices(adj) - Elems(out)|, |out| - qi
  {
    if qi == |out| {
      WidthClosed(adj, start, out);
    } else {
      WidthStateStep(adj, start, out, qi);
      FreshGrows(adj, out, qi);
      WidthUnfold(adj, out, qi);
      WidthFacts(adj, start, out + Fresh(Neighbours(adj, out[qi]), Elems(out)), qi + 1);
    }
  }

  lemma WidthInit(adj: Adjacency, start: string)
    ensures WidthState(adj, start, [start], 0)
  {
    ReachSelf(adj, start);
  }

  /** Once every vertex of the output is dequeued, the output is closed
      under edges, so it holds everything reachable. */
  lemma WidthClosed(adj: Adjacency, start: string, out: seq<string>)
    requires WidthState(adj, start, out, |out|)
    ensures forall v :: v in out <==> Reachable(adj, start, v)
  {
    forall v | Reachable(adj, start, v) ensures v in out {
      forall u, w | u in Elems(out) && w in Neighbours(adj, u) ensures w in Elems(out) {
        var k :| 0 <= k < |out| && out[k] == u;
      }
      ClosedHoldsReachable(adj, Elems(out), start, v);
    }
  }

  /** Dequeuing `out[qi]` keeps the state of the breadth-first order. */
  lemma WidthStateStep(adj: Adjacency, start: string, out: seq<string>, qi: nat)
    requires AllSorted(adj) && WidthState(adj, start, out, qi) && qi < |out|
    ensures WidthState(adj, start, out + Fresh(Neighbours(adj, out[qi]), Elems(out)), qi + 1)
  {
    var u := out[qi];
    var ns := Neighbours(adj, u);
    var f := Fresh(ns, Elems(out));
    SortedDistinct(ns);
    FreshDistinct(ns, Elems(out));
    var out' := out + f;
    forall v | v in f ensures Reachable(adj, start, v) {
      ReachStep(adj, start, u, v);
    }
    assert Distinct(out') by {
      forall i, j | 0 <= i < j < |out'| ensures out'[i] != out'[j] {
        if j >= |out| {
          assert out'[j] in f;
          if i < |out| {
            assert out'[i] in out;
          } else {
            assert out'[i] == f[i - |out|] && out'[j] == f[j - |out|];
          }
        }
      }
    }
    forall k, w | 0 <= k < qi + 1 && w in Neighbours(adj, out'[k]) ensures w in out' {
      assert out'[k] == out[k];
      if k == qi && w !in out {
        assert w in f;
      }
    }
  }

  /** The state of the queue loop: the queue is the output after position
      `qi`, and finishing from here gives the breadth-first order. */
  ghost predicate WidthLoop(adj: Adjacency, start: string, visited: set<string>, queue: seq<string>,
                            out: seq<string>, qi: nat) {
    qi <= |out| && queue == out[qi..] && visited == Elems(out) &&
    WidthFrom(adj, out, qi) == Width(adj, start)
  }

  /** A dequeue keeps the loop state and makes progress. */
  lemma WidthStep(adj: Adjacency, start: string, visited: set<string>, queue: seq<string>,
                  out: seq<string>, qi: nat, ns: seq<string>)
    requires WidthLoop(adj, start, visited, queue, out, qi) && queue != []
    requires ns == Neighbours(adj, queue[0])
    ensures var f := Fresh(ns, visited);
      WidthLoop(adj, start, Elems(out + f), queue[1..] + f, out + f, qi + 1) &&
      (|Vertices(adj) - Elems(out + f)| < |Vertices(adj) - visited| ||
       (Elems(out + f) == visited && |queue[1..] + f| < |queue|))
  {
    assert queue[0] == out[qi];
    var f := Fresh(ns, visited);
    assert (out + f)[qi + 1..] == queue[1..] + f;
    FreshGrows(adj, out, qi);
    WidthUnfold(adj, out, qi);
  }

  /** One dequeue of the breadth-first traversal: takes the head of the
      queue and appends, in order, each of its neighbours `ns` not yet
      seen to the queue and to the output. */
  method WidthVisit(visited: set<string>, queue: seq<string>, out: seq<string>, ns: seq<string>)
    returns (visited': set<string>, queue': seq<string>, out': seq<string>)
    requires queue != [] && visited == Elems(out) && Distinct(ns)
    ensures out' == out + Fresh(ns, visited) && queue' == queue[1..] + Fresh(ns, visited)
    ensures visited' == Elems(out')
  {
    queue' := queue[1..];
    visited' := visited;
    out' := out;
    for i := 0 to |ns|
      invariant out' == out + Fresh(ns[..i], visited) && queue' == queue[1..] + Fresh(ns[..i], visited)
      invariant visited' == Elems(out')
    {
      FreshStep(ns, i, visited);
      if ns[i] !in visited' {
        queue' := queue' + [ns[i]];
        visited' := visited' + {ns[i]};
        out' := out' + [ns[i]];
      }
    }
    assert ns[..|ns|] == ns;
  }

  /** Taking `ns[i]` extends the new entries by it exactly when it is
      neither seen nor among the entries before it. */
  lemma FreshStep(ns: seq<string>, i: nat, seen: set<string>)
    requires i < |ns| && Distinct(ns)
    ensures Fresh(ns[..i + 1], seen) == Fresh(ns[..i], seen) + (if ns[i] in seen then [] else [ns[i]])
    ensures ns[i] !in Fresh(ns[..i], seen)
  {
    assert ns[..i + 1][..i] == ns[..i];
  }
}
