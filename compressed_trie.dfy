/** The compressed (radix) trie of module_2/D/m2_taskD.cpp.

    Nodes live in an arena `nodes`; an edge names its target by index, and
    node 0 is the root. The ghost fields give the abstract view: `paths[i]`
    is the string spelled from the root to node i, and `parent[i]`,
    `inKey[i]` name the edge that enters node i. The set of stored words is
    the set of paths of word-end nodes. */
module RadixTrie {
  import opened Wrappers
  import opened TrieDistance
  import opened TrieArena

  /** The number of leading characters `what` and `where` share. */
  method MatchEndPosition(what: string, where: string) returns (res: nat)
    ensures res <= |what| && res <= |where|
    ensures what[..res] == where[..res]
    ensures res < |what| && res < |where| ==> what[res] != where[res]
  {
    res := 0;
    while res < |what| && res < |where| && what[res] == where[res]
      invariant res <= |what| && res <= |where|
      invariant what[..res] == where[..res]
    {
      res := res + 1;
    }
  }

  /** The row of the Damerau-Levenshtein table of `str1` against `str2` at
      which the computation ends: the last one, or the row before the first
      row with no entry within `maxMistakeCount` that follows a row with one. */
  method DamerauLevenshtein(str1: string, str2: string, maxMistakeCount: nat) returns (row: seq<nat>)
    ensures IsRow(row, str1, str2, RowsComputed(str1, str2, maxMistakeCount))
    ensures row[0] == RowsComputed(str1, str2, maxMistakeCount) <= |str1|
  {
    var n := |str1| + 1;
    var m := |str2| + 1;
    var prePrevious: seq<nat> := seq(m, _ => 0);
    var previous: seq<nat> := seq(m, j => j);
    var prevHasValid := false;
    var i := 1;
    while i < n
      invariant 1 <= i <= n
      invariant IsRow(previous, str1, str2, i - 1)
      invariant |prePrevious| == m
      invariant i >= 2 ==> IsRow(prePrevious, str1, str2, i - 2)
      invariant prevHasValid == (i >= 2 && HasValid(str1, str2, maxMistakeCount, i - 1))
      invariant RowsComputed(str1, str2, maxMistakeCount) == StopFrom(str1, str2, maxMistakeCount, i)
    {
      var computed, currHasValid := NextRow(str1, str2, maxMistakeCount, i, previous, prePrevious);
      ScanStep(str1, str2, maxMistakeCount, i, previous, prevHasValid, currHasValid);
      if !currHasValid && prevHasValid {
        // Early stop: row i has no entry within budget, row i - 1 had one.
        return previous;
      }
      prePrevious := previous;
      previous := computed;
      prevHasValid := currHasValid;
      i := i + 1;
    }
    RowStart(previous, str1, str2, |str1|);
    row := previous;
  }

  /** One pass of DamerauLevenshtein's outer loop: the early stop fires
      exactly at a stop row, and then the previous row is row
      RowsComputed; otherwise the scan goes on from row i + 1. */
  lemma ScanStep(s1: string, s2: string, max: nat, i: nat, previous: seq<nat>,
                 prevHasValid: bool, currHasValid: bool)
    requires 1 <= i <= |s1| && IsRow(previous, s1, s2, i - 1)
    requires prevHasValid == (i >= 2 && HasValid(s1, s2, max, i - 1))
    requires currHasValid == HasValid(s1, s2, max, i)
    requires RowsComputed(s1, s2, max) == StopFrom(s1, s2, max, i)
    ensures !currHasValid && prevHasValid ==>
              RowsComputed(s1, s2, max) == i - 1 && previous[0] == i - 1
    ensures !(!currHasValid && prevHasValid) ==>
              RowsComputed(s1, s2, max) == StopFrom(s1, s2, max, i + 1)
  {
    StopStep(s1, s2, max, i);
    if !currHasValid && prevHasValid {
      assert StopsAt(s1, s2, max, i);
      RowStart(previous, s1, s2, i - 1);
    } else {
      assert !StopsAt(s1, s2, max, i);
    }
  }

  /** Entry 0 of row i is i. */
  lemma RowStart(r: seq<nat>, s1: string, s2: string, i: nat)
    requires i <= |s1| && IsRow(r, s1, s2, i)
    ensures r[0] == i
  {
    assert r[0] == Table(s1, s2, i, 0);
  }

  /** The body of DamerauLevenshtein's outer loop: given the true rows
      i - 1 and i - 2 of the table, row i, and whether it has an entry
      within budget in a column j >= 1. */
  method NextRow(str1: string, str2: string, maxMistakeCount: nat, i: nat,
                 previous: seq<nat>, prePrevious: seq<nat>)
    returns (current: seq<nat>, currHasValid: bool)
    requires 1 <= i <= |str1|
    requires IsRow(previous, str1, str2, i - 1) && |prePrevious| == |str2| + 1
    requires i >= 2 ==> IsRow(prePrevious, str1, str2, i - 2)
    ensures IsRow(current, str1, str2, i)
    ensures currHasValid == HasValid(str1, str2, maxMistakeCount, i)
  {
    var cells;
    cells, currHasValid := FillRow(str1, str2, maxMistakeCount, i, previous, prePrevious);
    current := cells[..];
    NextRowIsRow(str1, str2, maxMistakeCount, i, previous, prePrevious, current);
  }

  /** The inner loop of DamerauLevenshtein: row i computed left to right
      from rows i - 1 and i - 2, noting whether some entry past column 0 is
      within budget. */
  method FillRow(str1: string, str2: string, maxMistakeCount: nat, i: nat,
                 previous: seq<nat>, prePrevious: seq<nat>)
    returns (current: array<nat>, currHasValid: bool)
    requires 1 <= i <= |str1|
    requires |previous| == |str2| + 1
    requires |prePrevious| == |str2| + 1
    ensures fresh(current) && current.Length == |str2| + 1
    ensures forall k :: 0 <= k < current.Length ==>
              current[k] == RowCell(str1, str2, i, previous, prePrevious, k)
    ensures currHasValid == exists k :: 1 <= k < current.Length && current[k] <= maxMistakeCount
  {
    var m := |str2| + 1;
    current := new nat[m];
    current[0] := i;
    currHasValid := false;
    ghost var within: nat := 0;
    var j := 1;
    while j < m
      invariant 1 <= j <= m
      invariant forall k {:trigger current[k]} :: 0 <= k < j ==> current[k] == RowCell(str1, str2, i, previous, prePrevious, k)
      invariant currHasValid ==> 1 <= within < j && current[within] <= maxMistakeCount
      invariant !currHasValid ==> forall k :: 1 <= k < j ==> current[k] > maxMistakeCount
    {
      var cell := NextCell(str1, str2, i, previous, prePrevious, j, current[j - 1]);
      current[j] := cell;
      if !currHasValid && cell <= maxMistakeCount {
        currHasValid := true;
        within := j;
      }
      j := j + 1;
    }
  }

  /** One entry of the inner loop of DamerauLevenshtein: the cheapest of a
      deletion, an insertion, a substitution and, where the last two
      characters are swapped, a transposition (which also adds `cost`). */
  method NextCell(str1: string, str2: string, i: nat, previous: seq<nat>, prePrevious: seq<nat>,
                  j: nat, left: nat) returns (cell: nat)
    requires 1 <= i <= |str1| && 1 <= j <= |str2|
    requires |previous| == |str2| + 1 && |prePrevious| == |str2| + 1
    requires left == RowCell(str1, str2, i, previous, prePrevious, j - 1)
    ensures cell == RowCell(str1, str2, i, previous, prePrevious, j)
    ensures cell <= previous[j] + 1 && cell <= left + 1 && cell <= previous[j - 1] + Cost(str1[i - 1], str2[j - 1])
  {
    var cost: nat := if str1[i - 1] == str2[j - 1] then 0 else 1;
    var insert := previous[j] + 1;
    var del := left + 1;
    var replace := previous[j - 1] + cost;
    RowCellStep(str1, str2, i, previous, prePrevious, j, left);
    cell := Min(Min(insert, del), replace);
    if i > 1 && j > 1 && str1[i - 1] == str2[j - 2] && str1[i - 2] == str2[j - 1] {
      // Transposition of the last two characters.
      cell := Min(cell, prePrevious[j - 2] + cost);
    }
  }

  /** Entry j of a row from the entry to its left. */
  lemma RowCellStep(s1: string, s2: string, i: nat, previous: seq<nat>, prePrevious: seq<nat>, j: nat, left: nat)
    requires 1 <= i <= |s1| && 1 <= j <= |s2| && |previous| == |s2| + 1 && |prePrevious| == |s2| + 1
    requires left == RowCell(s1, s2, i, previous, prePrevious, j - 1)
    ensures var swapped := Swapped(s1, s2, i, j);
            RowCell(s1, s2, i, previous, prePrevious, j) ==
            CellValue(previous[j], left, previous[j - 1], if swapped then prePrevious[j - 2] else 0, Cost(s1[i - 1], s2[j - 1]), swapped)
  {
  }

  /** priority of the source, as written: 0 when the row's entry in the
      column of the length of `key` (the path) is 0, otherwise the row's last entry.
      When `key` is longer than the row is wide the source reads past
      the end of the row; that read is None here. */
  function Priority(row: seq<nat>, key: string): (r: Option<nat>)
    requires |row| > 0
    ensures r.None? <==> |key| >= |row|
  {
    if |key| >= |row| then None
    else if row[|key|] == 0 then Some(0)
    else Some(row[|row| - 1])
  }

  /** On the complete row of `cp` against `word`, Priority is 0 for a
      prefix of `word`, the distance for any other path no longer than
      `word`, and out of range for a path longer than `word`. */
  lemma PriorityOfRow(row: seq<nat>, cp: string, word: string)
    requires IsRow(row, cp, word, |cp|)
    ensures Priority(row, cp) ==
              if |cp| > |word| then None
              else if cp <= word then Some(0)
              else Some(Dist(cp, word))
  {
    if |cp| <= |word| {
      TableZero(cp, word, |cp|, |cp|);
      assert cp[..|cp|] == cp;
    }
  }

  /** The priority with the read kept inside the row. */
  function PriorityGuarded(row: seq<nat>, key: string): (r: nat)
    requires |row| > 0
    ensures r == 0 || r == row[|row| - 1]
  {
    if |key| < |row| && row[|key|] == 0 then 0 else row[|row| - 1]
  }

  /** On a complete row PriorityGuarded is 0 for a prefix of `word` and the
      distance otherwise, whatever the length of the path. */
  lemma PriorityGuardedOfRow(row: seq<nat>, cp: string, word: string)
    requires IsRow(row, cp, word, |cp|)
    ensures PriorityGuarded(row, cp) == if cp <= word then 0 else Dist(cp, word)
  {
    if |cp| <= |word| {
      TableZero(cp, word, |cp|, |cp|);
      assert cp[..|cp|] == cp;
    }
  }

  /** "ab" is at distance 1 from "a", and its table against "a" with a
      budget of 1 is computed in full. */
  lemma DistAbA()
    ensures Dist("ab", "a") == 1 && Complete("ab", "a", 1)
  {
    TableAbA();
    WithinBudgetComplete("ab", "a", 1);
  }

  /** The last cell of the table of "ab" against "a". */
  lemma TableAbA()
    ensures Table("ab", "a", 2, 1) == 1
  {
    assert Table("ab", "a", 1, 1) == 0;
  }

  /** The top of the min-priority queue of Similar: an entry whose priority
      is no larger than any other's. */
  method MinPriority(queue: seq<(nat, nat, string)>) returns (k: nat)
    requires queue != []
    ensures k < |queue| && forall m :: 0 <= m < |queue| ==> queue[k].0 <= queue[m].0
  {
    k := 0;
    var i := 1;
    while i < |queue|
      invariant k < i <= |queue|
      invariant forall m :: 0 <= m < i ==> queue[k].0 <= queue[m].0
    {
      if queue[i].0 < queue[k].0 {
        k := i;
      }
      i := i + 1;
    }
  }

  /** The nodes and paths of the queue entries, in queue order. */
  ghost function Pairs(queue: seq<(nat, nat, string)>): (r: seq<(nat, string)>)
    ensures |r| == |queue| && forall k :: 0 <= k < |queue| ==> r[k] == (queue[k].1, queue[k].2)
  {
    seq(|queue|, k requires 0 <= k < |queue| => (queue[k].1, queue[k].2))
  }

  lemma PairsRemove(queue: seq<(nat, nat, string)>, k: nat)
    requires k < |queue|
    ensures Pairs(queue[..k] + queue[k + 1..]) == Pairs(queue)[..k] + Pairs(queue)[k + 1..]
  {
    var rest := queue[..k] + queue[k + 1..];
    assert forall m :: 0 <= m < |rest| ==> rest[m] == queue[if m < k then m else m + 1];
  }

  lemma PairsAppend(queue: seq<(nat, nat, string)>, e: (nat, nat, string))
    ensures Pairs(queue + [e]) == Pairs(queue) + [(e.1, e.2)]
  {
    assert (queue + [e])[|queue|] == e;
  }

  class CompressedTrie {
    var nodes: seq<Node>
    ghost var paths: seq<string>
    ghost var parent: seq<nat>
    ghost var inKey: seq<char>

    ghost function State(): Arena
      reads this
    {
      Arena(nodes, paths, parent, inKey)
    }

    ghost predicate Valid()
      reads this
    {
      |paths| == |parent| == |inKey| == |nodes| && ValidArena(State())
    }

    /** The stored words: the paths of the word-end nodes. */
    ghost function Words(): set<string>
      reads this
      requires Valid()
    {
      WordsOf(State())
    }

    constructor ()
      ensures Valid() && Words() == {}
    {
      nodes := [Node(false, map[])];
      paths := [[]];
      parent := [0];
      inKey := ['\0'];
    }

    lemma EnteringEdge(j: nat)
      requires Valid() && 0 < j < |nodes|
      ensures EdgeOk(State(), parent[j], inKey[j])
      ensures parent[j] < |nodes| && inKey[j] in nodes[parent[j]].edges
      ensures nodes[parent[j]].edges[inKey[j]].target == j
      ensures var text := nodes[parent[j]].edges[inKey[j]].text;
              |text| > 0 && text[0] == inKey[j] && paths[j] == paths[parent[j]] + text
      ensures |paths[parent[j]]| < |paths[j]|
    {
      assert ParentOk(State(), j);
      assert EdgeOk(State(), parent[j], inKey[j]);
    }

    /** Node a lies on the path from the root to node j. */
    ghost predicate Ancestor(a: nat, j: nat)
      reads this
      requires Valid() && j < |nodes|
      decreases |paths[j]|
    {
      a == j || (j != 0 && (EnteringEdge(j); Ancestor(a, parent[j])))
    }

    lemma {:induction false} AncestorPrefix(a: nat, j: nat)
      requires Valid() && j < |nodes| && Ancestor(a, j)
      ensures a < |nodes| && paths[a] <= paths[j]
      ensures a != j ==> |paths[a]| < |paths[j]|
      decreases |paths[j]|
    {
      if a != j {
        EnteringEdge(j);
        AncestorPrefix(a, parent[j]);
      }
    }

    lemma {:induction false} RootAncestor(j: nat)
      requires Valid() && j < |nodes|
      ensures Ancestor(0, j)
      decreases |paths[j]|
    {
      if j != 0 {
        EnteringEdge(j);
        RootAncestor(parent[j]);
      }
    }

    /** From a proper ancestor a of j, the edge keyed by the next character
        of j's path leads to another ancestor of j. */
    lemma {:induction false} Toward(a: nat, j: nat)
      requires Valid() && a < |nodes| && j < |nodes| && Ancestor(a, j) && a != j
      ensures |paths[a]| < |paths[j]|
      ensures paths[j][|paths[a]|] in nodes[a].edges
      ensures Ancestor(nodes[a].edges[paths[j][|paths[a]|]].target, j)
      decreases |paths[j]|
    {
      AncestorPrefix(a, j);
      EnteringEdge(j);
      var p := parent[j];
      if p == a {
        assert paths[j][|paths[a]|] == inKey[j];
      } else {
        Toward(a, p);
        AncestorPrefix(a, p);
        var t := nodes[a].edges[paths[p][|paths[a]|]].target;
        assert paths[j][|paths[a]|] == paths[p][|paths[a]|];
        assert Ancestor(t, j);
      }
    }

    /** A common prefix cancels out of the prefix order. */
    static lemma PrefixCancel(p: string, x: string, y: string)
      requires p + x <= p + y
      ensures x <= y
    {
      assert x == (p + x)[|p|..] && y[..|x|] == (p + y)[|p|..|p| + |x|];
    }

    /** What Insert learns at node tn with `rest` left to place: whether
        some node already spells `word`, and where it lies. */
    lemma NextEdgeTowardWord(tn: nat, rest: string, word: string)
      requires Valid() && tn < |nodes| && |rest| > 0 && paths[tn] + rest == word
      requires forall k :: 0 <= k < |nodes| && paths[k] == word ==> Ancestor(tn, k)
      ensures rest[0] !in nodes[tn].edges ==> Unspelled(State(), word)
      ensures rest[0] in nodes[tn].edges ==>
                var e := nodes[tn].edges[rest[0]];
                EdgeOk(State(), tn, rest[0]) &&
                (forall k :: 0 <= k < |nodes| && paths[k] == word ==> Ancestor(e.target, k)) &&
                (!(e.text <= rest) ==> Unspelled(State(), word)) &&
                (rest == e.text ==> forall k :: 0 <= k < |paths| && paths[k] == word ==> k == e.target)
    {
      // Every node spelling `word` lies below the edge keyed rest[0].
      forall k | 0 <= k < |nodes| && paths[k] == word
        ensures rest[0] in nodes[tn].edges
        ensures Ancestor(nodes[tn].edges[rest[0]].target, k)
      {
        Toward(tn, k);
        assert paths[k][|paths[tn]|] == rest[0];
      }
      if rest[0] in nodes[tn].edges {
        var e := nodes[tn].edges[rest[0]];
        assert EdgeOk(State(), tn, rest[0]);
        forall k | 0 <= k < |nodes| && paths[k] == word
          ensures e.text <= rest
          ensures rest == e.text ==> k == e.target
        {
          AncestorPrefix(e.target, k);
          PrefixCancel(paths[tn], e.text, rest);
        }
      }
    }

    /** Inserts `word`; the stored words become the old ones plus `word`,
        old nodes keep their paths, and only the node spelling `word` may
        change its word-end mark. Inserting a stored word changes nothing. */
    method Insert(word: string)
      requires Valid() && |word| > 0
      modifies this
      ensures Valid() && InsertedInto(old(State()), State(), word)
      ensures Words() == old(Words()) + {word}
    {
      var traverseNode: nat := 0;
      var rest := word;
      forall k | 0 <= k < |nodes| && paths[k] == word
        ensures Ancestor(0, k)
      {
        RootAncestor(k);
      }
      while true
        invariant Valid() && unchanged(this)
        invariant traverseNode < |nodes| && |rest| > 0 && paths[traverseNode] + rest == word
        invariant forall k :: 0 <= k < |nodes| && paths[k] == word ==> Ancestor(traverseNode, k)
        decreases |rest|
      {
        NextEdgeTowardWord(traverseNode, rest, word);
        if rest[0] !in nodes[traverseNode].edges {
          // No edge starts with the next character: a new leaf edge.
          AddLeafEdge(traverseNode, rest, word);
          return;
        }
        var edge := nodes[traverseNode].edges[rest[0]];
        var text := edge.text;
        if rest == text {
          // The word ends exactly at the edge's target.
          MarkWordEnd(edge.target, word);
          return;
        }
        var iEnd := MatchEndPosition(rest, text);
        if iEnd == |text| && iEnd < |rest| {
          // The edge's text is a proper prefix of the rest: descend.
          assert rest == text + rest[iEnd..];
          rest := rest[iEnd..];
          traverseNode := edge.target;
        } else if iEnd == |rest| && iEnd < |text| {
          // The word ends inside the edge's text: a new word-end node splits the edge.
          assert rest == text[..iEnd];
          SplitEdgeAtWordEnd(traverseNode, rest, word);
          return;
        } else if iEnd < |rest| && iEnd < |text| {
          // The word and the edge's text diverge: a new inner node with two children.
          assert text[0] == rest[0];
          SplitEdgeApart(traverseNode, rest, word, iEnd);
          return;
        } else {
          assert false;
        }
      }
    }

    /** The leaf case of Insert: a new word-end leaf on an edge labelled with the whole rest. */
    method AddLeafEdge(at: nat, rest: string, ghost word: string)
      requires Valid() && CanAddLeaf(State(), at, rest, word) && Unspelled(State(), word)
      modifies this
      ensures State() == WithLeaf(old(State()), at, rest, word)
      ensures Valid() && InsertedInto(old(State()), State(), word)
    {
      ghost var before := State();
      nodes := nodes[at := nodes[at].(edges := nodes[at].edges[rest[0] := Edge(rest, |nodes|)])]
               + [Node(true, map[])];
      paths := paths + [word];
      parent := parent + [at];
      inKey := inKey + [rest[0]];
      LeafInserts(before, at, rest, word);
    }

    /** The case of Insert where the word ends exactly at node t. */
    method MarkWordEnd(t: nat, ghost word: string)
      requires Valid() && 0 < t < |nodes| && paths[t] == word
      requires forall k :: 0 <= k < |paths| && paths[k] == word ==> k == t
      modifies this
      ensures State() == Marked(old(State()), t)
      ensures Valid() && InsertedInto(old(State()), State(), word)
    {
      ghost var before := State();
      nodes := nodes[t := nodes[t].(isWordEnd := true)];
      MarkInserts(before, t, word);
    }

    /** The case of Insert where the word ends inside the text of the edge of
        `at` keyed rest[0]: a new word-end node splits the edge. */
    method SplitEdgeAtWordEnd(at: nat, rest: string, ghost word: string)
      requires Valid() && CanSplitAtEnd(State(), at, rest, word) && Unspelled(State(), word)
      modifies this
      ensures State() == SplitAtEnd(old(State()), at, rest, word)
      ensures Valid() && InsertedInto(old(State()), State(), word)
    {
      ghost var before := State();
      var edge := nodes[at].edges[rest[0]];
      var text := edge.text;
      var iEnd := |rest|;
      assert EdgeOk(before, at, rest[0]);
      var newNode := |nodes|;
      var newLabel := text[iEnd..];
      nodes := nodes[at := nodes[at].(edges := nodes[at].edges[text[0] := Edge(rest, newNode)])]
               + [Node(true, map[newLabel[0] := edge.(text := newLabel)])];
      paths := paths + [word];
      parent := parent[edge.target := newNode] + [at];
      inKey := inKey[edge.target := newLabel[0]] + [text[0]];
      SplitAtEndInserts(before, at, rest, word);
    }

    /** The case of Insert where the word and the text of the edge of `at`
        keyed rest[0] diverge after iEnd characters: a new inner node holds
        the old target and a new word-end leaf. */
    method SplitEdgeApart(at: nat, rest: string, ghost word: string, iEnd: nat)
      requires Valid() && CanSplitApart(State(), at, rest, word, iEnd) && Unspelled(State(), word)
      modifies this
      ensures State() == SplitApart(old(State()), at, rest, word, iEnd)
      ensures Valid() && InsertedInto(old(State()), State(), word)
    {
      ghost var before := State();
      var edge := nodes[at].edges[rest[0]];
      var text := edge.text;
      assert EdgeOk(before, at, rest[0]);
      var prefix := rest[..iEnd];
      var innerNode := |nodes|;
      var newLabel := text[iEnd..];
      nodes := nodes[at := nodes[at].(edges := nodes[at].edges[text[0] := Edge(prefix, innerNode)])]
               + [Node(false, map[text[iEnd] := edge.(text := newLabel),
                                  rest[iEnd] := Edge(rest[iEnd..], innerNode + 1)]),
                  Node(true, map[])];
      paths := paths + [paths[at] + prefix, word];
      parent := parent[edge.target := innerNode] + [at, innerNode];
      inKey := inKey[edge.target := text[iEnd]] + [text[0], rest[iEnd]];
      SplitApartInserts(before, at, rest, word, iEnd);
    }

    // -------------------------------------------------------------------
    // Walks from the root
    // -------------------------------------------------------------------

    /** The strings spelled to the nodes of S. */
    ghost function PathsOf(S: set<nat>): (r: set<string>)
      reads this
      requires Valid() && forall j :: j in S ==> j < |nodes|
      ensures forall j :: j in S ==> paths[j] in r
    {
      set j | j in S :: paths[j]
    }

    lemma PathsOfAdd(S: set<nat>, j: nat)
      requires Valid() && j < |nodes| && forall q :: q in S ==> q < |nodes|
      ensures PathsOf(S + {j}) == PathsOf(S) + {paths[j]}
    {
    }

    /** Node j waits in the frontier (stack or queue) of a walk. */
    ghost predicate InFrontier(front: seq<(nat, string)>, j: nat)
    {
      exists k :: 0 <= k < |front| && front[k].0 == j
    }

    /** The frontier of a walk, as nodes paired with their paths: distinct
        nodes, none popped yet, each the root or a seen child of a popped
        node. */
    ghost predicate FrontierOk(front: seq<(nat, string)>, popped: set<nat>, seen: set<nat>)
      reads this
      requires Valid()
    {
      (forall k :: 0 <= k < |front| ==>
         front[k].0 < |nodes| && front[k].1 == paths[front[k].0] && front[k].0 !in popped &&
         (front[k].0 == 0 || (parent[front[k].0] in popped && front[k].0 in seen))) &&
      (forall k, m :: 0 <= k < m < |front| ==> front[k].0 != front[m].0)
    }

    /** Every popped node other than the root was popped after its parent. */
    ghost predicate Closed(popped: set<nat>)
      reads this
      requires Valid()
    {
      forall q :: q in popped ==> q < |nodes| && (q == 0 || parent[q] in popped)
    }

    /** The nodes a walk has still to pop. */
    ghost function Unpopped(popped: set<nat>): set<nat>
      reads this
    {
      set q | 0 <= q < |nodes| && q !in popped
    }

    /** The nodes whose table against `word` is computed in full. */
    ghost function CompleteNodes(word: string, max: nat): set<nat>
      reads this
      requires Valid()
    {
      set j | 0 < j < |nodes| && Complete(paths[j], word, max)
    }

    /** A parent of a node whose table is complete is the root or complete. */
    lemma ParentComplete(j: nat, word: string, max: nat)
      requires Valid() && 0 < j < |nodes| && Complete(paths[j], word, max)
      ensures parent[j] < |nodes| && (parent[j] == 0 || parent[j] in CompleteNodes(word, max))
      ensures |paths[parent[j]]| < |paths[j]|
    {
      EnteringEdge(j);
      var p := parent[j];
      if p != 0 {
        CompletePrefix(paths[j], word, max, |paths[p]|);
        assert paths[j][..|paths[p]|] == paths[p];
      }
    }

    /** The state of a walk: its frontier, the popped nodes and the seen
        ones (children of popped nodes); every seen node with a complete
        table is popped or waiting; `results` holds the paths of the seen
        nodes in `hits`; no seen node is in `exact`. */
    ghost predicate Walking(front: seq<(nat, string)>, popped: set<nat>, seen: set<nat>,
                            results: set<string>, hits: set<nat>, exact: set<nat>,
                            word: string, max: nat)
      reads this
      requires Valid()
    {
      FrontierOk(front, popped, seen) &&
      (0 in popped || InFrontier(front, 0)) &&
      (forall j :: j in seen ==> 0 < j < |nodes|) &&
      (forall j :: j in seen * CompleteNodes(word, max) ==> j in popped || InFrontier(front, j)) &&
      results == PathsOf(seen * hits) &&
      seen * exact == {}
    }

    /** Taking entry k out of a well-formed frontier. */
    lemma FrontierPop(front: seq<(nat, string)>, popped: set<nat>, seen: set<nat>, k: nat)
      requires Valid() && FrontierOk(front, popped, seen) && k < |front|
      ensures var t := front[k].0;
              var rest := front[..k] + front[k + 1..];
              FrontierOk(rest, popped + {t}, seen) &&
              forall j :: InFrontier(front, j) && j != t ==> InFrontier(rest, j)
    {
      var t := front[k].0;
      var rest := front[..k] + front[k + 1..];
      assert forall m :: 0 <= m < |rest| ==> rest[m] == front[if m < k then m else m + 1];
      forall j | InFrontier(front, j) && j != t
        ensures InFrontier(rest, j)
      {
        var m :| 0 <= m < |front| && front[m].0 == j;
        if m < k {
          assert rest[m] == front[m];
        } else {
          assert rest[m - 1] == front[m];
        }
      }
    }

    /** Popping a node whose parent is popped keeps the popped nodes closed. */
    lemma ClosedPop(popped: set<nat>, t: nat)
      requires Valid() && Closed(popped) && t < |nodes| && (t == 0 || parent[t] in popped)
      ensures Closed(popped + {t})
    {
    }

    /** Taking entry k out of the frontier and popping its node. */
    lemma WalkPop(front: seq<(nat, string)>, popped: set<nat>, seen: set<nat>,
                  results: set<string>, hits: set<nat>, exact: set<nat>,
                  word: string, max: nat, k: nat)
      requires Valid() && Walking(front, popped, seen, results, hits, exact, word, max)
      requires Closed(popped) && k < |front|
      ensures var t := front[k].0;
              t < |nodes| && t !in popped && front[k].1 == paths[t] &&
              Closed(popped + {t}) &&
              Unpopped(popped + {t}) < Unpopped(popped) &&
              Walking(front[..k] + front[k + 1..], popped + {t}, seen, results, hits, exact, word, max)
    {
      var t := front[k].0;
      FrontierPop(front, popped, seen, k);
      ClosedPop(popped, t);
      assert t in Unpopped(popped) && t !in Unpopped(popped + {t});
    }

    /** A seen child of a popped node that is not popped and not yet seen
        may be pushed onto the frontier. */
    lemma FrontierSee(front: seq<(nat, string)>, popped: set<nat>, seen: set<nat>, child: nat, pushed: bool)
      requires Valid() && FrontierOk(front, popped, seen)
      requires 0 < child < |nodes| && parent[child] in popped && child !in popped && child !in seen
      ensures var front' := if pushed then front + [(child, paths[child])] else front;
              FrontierOk(front', popped, seen + {child}) &&
              (forall j :: InFrontier(front, j) ==> InFrontier(front', j)) &&
              (pushed ==> InFrontier(front', child))
    {
      var front' := if pushed then front + [(child, paths[child])] else front;
      forall j | InFrontier(front, j)
        ensures InFrontier(front', j)
      {
        var m :| 0 <= m < |front| && front[m].0 == j;
        assert front'[m] == front[m];
      }
      if pushed {
        assert front'[|front|].0 == child;
      }
    }

    /** The recorded paths after seeing one more node. */
    lemma HitsSee(seen: set<nat>, hits: set<nat>, child: nat)
      requires Valid() && child < |nodes| && forall j :: j in seen ==> j < |nodes|
      ensures PathsOf((seen + {child}) * hits) ==
              if child in hits then PathsOf(seen * hits) + {paths[child]} else PathsOf(seen * hits)
    {
      if child in hits {
        assert (seen + {child}) * hits == seen * hits + {child};
        PathsOfAdd(seen * hits, child);
      } else {
        assert (seen + {child}) * hits == seen * hits;
      }
    }

    /** Seeing a child of a popped node: it joins the seen nodes, the
        results when it is a hit, and the frontier when it is pushed, which
        it must be when its table is complete. */
    lemma WalkSee(front: seq<(nat, string)>, popped: set<nat>, seen: set<nat>,
                  results: set<string>, hits: set<nat>, exact: set<nat>,
                  word: string, max: nat, child: nat, pushed: bool)
      requires Valid() && Walking(front, popped, seen, results, hits, exact, word, max)
      requires 0 < child < |nodes| && parent[child] in popped && child !in popped && child !in seen
      requires child !in exact
      requires child in CompleteNodes(word, max) ==> pushed
      ensures Walking(if pushed then front + [(child, paths[child])] else front, popped, seen + {child},
                      if child in hits then results + {paths[child]} else results,
                      hits, exact, word, max)
    {
      var front' := if pushed then front + [(child, paths[child])] else front;
      FrontierSee(front, popped, seen, child, pushed);
      HitsSee(seen, hits, child);
      CompleteSee(front, front', popped, seen, child, word, max);
      var seen' := seen + {child};
      assert 0 in popped || InFrontier(front', 0);
      assert forall j :: j in seen' ==> 0 < j < |nodes|;
      assert (if child in hits then results + {paths[child]} else results) == PathsOf(seen' * hits);
      assert seen' * exact == {} by {
        assert seen' * exact == seen * exact;
      }
    }

    /** Seeing one more node keeps every seen node with a complete table
        popped or in the frontier, when the node itself is pushed if its
        table is complete. */
    lemma CompleteSee(front: seq<(nat, string)>, front': seq<(nat, string)>, popped: set<nat>,
                      seen: set<nat>, child: nat, word: string, max: nat)
      requires Valid()
      requires forall j :: j in seen * CompleteNodes(word, max) ==> j in popped || InFrontier(front, j)
      requires forall j :: InFrontier(front, j) ==> InFrontier(front', j)
      requires child in CompleteNodes(word, max) ==> InFrontier(front', child)
      ensures forall j :: j in (seen + {child}) * CompleteNodes(word, max) ==> j in popped || InFrontier(front', j)
    {
      forall j | j in (seen + {child}) * CompleteNodes(word, max)
        ensures j in popped || InFrontier(front', j)
      {
        if j != child {
          assert j in seen * CompleteNodes(word, max);
        }
      }
    }

    /** The target of an edge keyed `ch` out of the node `t` being expanded,
        with `ch` not looked at yet, is neither popped nor seen; seeing it
        adds `ch` to the keys looked at. */
    lemma SeenStep(seen: set<nat>, popped: set<nat>, t: nat, done: set<char>, ch: char)
      requires Valid() && t < |nodes| && ch in nodes[t].edges && ch !in done
      requires Closed(popped) && t !in popped
      requires forall j :: 0 < j < |nodes| ==>
                 (j in seen <==> parent[j] in popped || (parent[j] == t && inKey[j] in done))
      ensures var child := nodes[t].edges[ch].target;
              child !in popped + {t} && child !in seen &&
              forall j :: 0 < j < |nodes| ==>
                (j in seen + {child} <==> parent[j] in popped || (parent[j] == t && inKey[j] in done + {ch}))
    {
      var child := nodes[t].edges[ch].target;
      assert EdgeOk(State(), t, ch);
      EnteringEdge(child);
      forall j | 0 < j < |nodes| && parent[j] == t && inKey[j] == ch
        ensures j == child
      {
        assert ParentOk(State(), j);
      }
    }

    /** Once a node's children are all seen, they are exactly the children
        of the popped nodes. */
    lemma SeenAll(seen: set<nat>, popped: set<nat>, t: nat, done: set<char>)
      requires Valid() && t < |nodes| && done == nodes[t].edges.Keys
      requires forall j :: 0 < j < |nodes| ==>
                 (j in seen <==> parent[j] in popped || (parent[j] == t && inKey[j] in done))
      ensures forall j :: 0 < j < |nodes| ==> (j in seen <==> parent[j] in popped + {t})
    {
      forall j | 0 < j < |nodes| && parent[j] == t
        ensures inKey[j] in done
      {
        assert ParentOk(State(), j);
      }
    }

    /** A walk that has popped the root, and every complete child of a
        popped node, has popped every complete node. */
    lemma {:induction false} WalkClosed(popped: set<nat>, j: nat, word: string, max: nat)
      requires Valid() && 0 in popped
      requires j == 0 || j in CompleteNodes(word, max)
      requires forall q :: q in CompleteNodes(word, max) && parent[q] in popped ==> q in popped
      ensures j in popped
      decreases if j < |paths| then |paths[j]| else 0
    {
      if j != 0 {
        ParentComplete(j, word, max);
        WalkClosed(popped, parent[j], word, max);
      }
    }

    /** Every node with a complete table is seen by a finished walk. */
    lemma WalkCovers(popped: set<nat>, seen: set<nat>, word: string, max: nat)
      requires Valid() && 0 in popped
      requires forall j :: 0 < j < |nodes| ==> (j in seen <==> parent[j] in popped)
      requires forall j :: j in seen * CompleteNodes(word, max) ==> j in popped
      ensures CompleteNodes(word, max) <= seen
    {
      forall j | j in CompleteNodes(word, max)
        ensures j in seen
      {
        ParentComplete(j, word, max);
        WalkClosed(popped, parent[j], word, max);
      }
    }

    // -------------------------------------------------------------------
    // Fuzzy search by depth-first walk
    // -------------------------------------------------------------------

    /** The nodes SimilarOld records: complete word ends at distance exactly `max`. */
    ghost function OldHits(word: string, max: nat): set<nat>
      reads this
      requires Valid()
    {
      set j | j in CompleteNodes(word, max) && nodes[j].isWordEnd && Dist(paths[j], word) == max
    }

    /** The nodes at which SimilarOld returns early: complete word ends at distance 0. */
    ghost function ExactHits(word: string, max: nat): set<nat>
      reads this
      requires Valid()
    {
      set j | j in CompleteNodes(word, max) && nodes[j].isWordEnd && Dist(paths[j], word) == 0
    }

    /** A node spelling `word` that is a word end is an exact hit. */
    lemma ExactHit(j: nat, seen: set<nat>, word: string, max: nat)
      requires Valid() && j < |nodes| && nodes[j].isWordEnd && paths[j] == word
      requires CompleteNodes(word, max) <= seen
      ensures j in seen * ExactHits(word, max)
    {
      DistZero(word, word);
      WithinBudgetComplete(word, word, max);
      assert j != 0;
    }

    /** Once a walk has seen every complete node without an exact hit,
        `word` is not stored and the recorded paths are the stored words at
        distance exactly `max`. */
    lemma OldWalkDone(seen: set<nat>, word: string, max: nat)
      requires Valid() && forall j :: j in seen ==> j < |nodes|
      requires CompleteNodes(word, max) <= seen
      requires seen * ExactHits(word, max) == {}
      ensures word !in Words()
      ensures PathsOf(seen * OldHits(word, max)) == set w | w in Words() && Dist(w, word) == max
    {
      if word in Words() {
        var j :| 0 <= j < |nodes| && nodes[j].isWordEnd && paths[j] == word;
        ExactHit(j, seen, word, max);
      }
      forall w | w in Words() && Dist(w, word) == max
        ensures w in PathsOf(seen * OldHits(word, max))
      {
        var j :| 0 <= j < |nodes| && nodes[j].isWordEnd && paths[j] == w;
        WithinBudgetComplete(w, word, max);
        assert j in seen * OldHits(word, max);
      }
      forall w | w in PathsOf(seen * OldHits(word, max))
        ensures w in Words() && Dist(w, word) == max
      {
        var j :| j in seen * OldHits(word, max) && paths[j] == w;
        assert nodes[j].isWordEnd;
      }
    }

    /** What the row DamerauLevenshtein returns for the path to the target
        of an edge tells about that target. */
    lemma EdgeRow(tn: nat, ch: char, row: seq<nat>, word: string, max: nat)
      requires Valid() && tn < |nodes| && ch in nodes[tn].edges
      requires var cp := paths[tn] + nodes[tn].edges[ch].text;
               IsRow(row, cp, word, RowsComputed(cp, word, max)) && row[0] == RowsComputed(cp, word, max)
      ensures var e := nodes[tn].edges[ch];
              var cp := paths[tn] + e.text;
              0 < e.target < |nodes| && paths[e.target] == cp && parent[e.target] == tn &&
              inKey[e.target] == ch && |cp| == |paths[tn]| + |e.text| &&
              (e.target in CompleteNodes(word, max) <==> row[0] == |cp|) &&
              (e.target in OldHits(word, max) <==>
                 row[0] == |cp| && row[|row| - 1] == max && nodes[e.target].isWordEnd) &&
              (e.target in ExactHits(word, max) <==>
                 row[0] == |cp| && row[|row| - 1] == 0 && nodes[e.target].isWordEnd) &&
              (e.target in ExactHits(word, max) ==> cp == word)
    {
      var e := nodes[tn].edges[ch];
      var cp := paths[tn] + e.text;
      assert EdgeOk(State(), tn, ch);
      if row[0] == |cp| {
        assert row[|row| - 1] == Dist(cp, word);
      }
      DistZero(cp, word);
    }

    /** One edge of SimilarOld's walk: the edge keyed `ch` out of the popped
        node `tn` spelling `path`. `exact` reports the early return, with
        `results` then {word}. */
    method VisitOld(word: string, max: nat, tn: nat, ch: char, path: string,
                    stack0: seq<(nat, string)>, results0: set<string>,
                    ghost popped: set<nat>, ghost seen0: set<nat>)
      returns (exact: bool, stack: seq<(nat, string)>, results: set<string>)
      requires Valid() && tn < |nodes| && ch in nodes[tn].edges && path == paths[tn] && tn in popped
      requires nodes[tn].edges[ch].target !in popped && nodes[tn].edges[ch].target !in seen0
      requires Walking(stack0, popped, seen0, results0, OldHits(word, max), ExactHits(word, max), word, max)
      ensures exact ==> word in Words() && results == {word}
      ensures !exact ==> Walking(stack, popped, seen0 + {nodes[tn].edges[ch].target}, results,
                                 OldHits(word, max), ExactHits(word, max), word, max)
    {
      exact, stack, results := false, stack0, results0;
      var edge := nodes[tn].edges[ch];
      var child := edge.target;
      var currentPath := path + edge.text;
      var row := DamerauLevenshtein(currentPath, word, max);
      EdgeRow(tn, ch, row, word, max);
      // When row[0] is the length of the current path, the table was
      // computed in full and the last entry is the distance.
      var complete := row[0] == |path| + |edge.text|;
      if complete && row[|row| - 1] == 0 && nodes[child].isWordEnd {
        return true, stack, {currentPath};
      }
      WalkSee(stack, popped, seen0, results, OldHits(word, max), ExactHits(word, max), word, max, child, complete);
      if complete && row[|row| - 1] == max && nodes[child].isWordEnd {
        results := results + {currentPath};
      }
      if complete {
        stack := stack + [(child, currentPath)];
      }
    }

    /** The body of SimilarOld's walk for one popped node `tn` spelling
        `path`: every edge out of it, in no particular order. */
    method ExpandOld(word: string, max: nat, tn: nat, path: string,
                     stack0: seq<(nat, string)>, results0: set<string>,
                     ghost popped0: set<nat>, ghost seen0: set<nat>)
      returns (exact: bool, stack: seq<(nat, string)>, results: set<string>, ghost seen: set<nat>)
      requires Valid() && tn < |nodes| && path == paths[tn] && tn !in popped0 && Closed(popped0)
      requires Walking(stack0, popped0 + {tn}, seen0, results0, OldHits(word, max), ExactHits(word, max), word, max)
      requires forall j :: 0 < j < |nodes| ==> (j in seen0 <==> parent[j] in popped0)
      ensures exact ==> word in Words() && results == {word}
      ensures !exact ==> Walking(stack, popped0 + {tn}, seen, results, OldHits(word, max), ExactHits(word, max), word, max)
      ensures !exact ==> forall j :: 0 < j < |nodes| ==> (j in seen <==> parent[j] in popped0 + {tn})
    {
      ghost var popped := popped0 + {tn};
      exact, stack, results, seen := false, stack0, results0, seen0;
      var edges := nodes[tn].edges;
      var keys := edges.Keys;
      ghost var done: set<char> := {};
      while keys != {}
        invariant keys + done == edges.Keys && keys !! done
        invariant Walking(stack, popped, seen, results, OldHits(word, max), ExactHits(word, max), word, max)
        invariant forall j :: 0 < j < |nodes| ==>
                    (j in seen <==> parent[j] in popped0 || (parent[j] == tn && inKey[j] in done))
        decreases keys
      {
        var ch :| ch in keys;
        keys := keys - {ch};
        var child := edges[ch].target;
        SeenStep(seen, popped0, tn, done, ch);
        exact, stack, results := VisitOld(word, max, tn, ch, path, stack, results, popped, seen);
        if exact {
          return;
        }
        seen := seen + {child};
        done := done + {ch};
      }
      SeenAll(seen, popped0, tn, done);
    }

    /** SimilarOld of the source: a depth-first walk with an explicit stack
        that descends only along edges whose table is complete. It returns
        {word} when `word` is stored, and otherwise every stored word whose
        distance to `word` is exactly `maxMistakeCount`. */
    method SimilarOld(word: string, maxMistakeCount: nat) returns (results: set<string>)
      requires Valid()
      ensures results == if word in Words() then {word}
                         else set w | w in Words() && Dist(w, word) == maxMistakeCount
    {
      ghost var hits := OldHits(word, maxMistakeCount);
      ghost var exact := ExactHits(word, maxMistakeCount);
      results := {};
      var stack: seq<(nat, string)> := [(0, [])];
      ghost var popped: set<nat> := {};
      ghost var seen: set<nat> := {};
      assert stack[0].0 == 0;
      while stack != []
        invariant Closed(popped)
        invariant Walking(stack, popped, seen, results, hits, exact, word, maxMistakeCount)
        invariant forall j :: 0 < j < |nodes| ==> (j in seen <==> parent[j] in popped)
        decreases Unpopped(popped)
      {
        var top := stack[|stack| - 1];
        WalkPop(stack, popped, seen, results, hits, exact, word, maxMistakeCount, |stack| - 1);
        assert stack[..|stack| - 1] + stack[|stack|..] == stack[..|stack| - 1];
        var found;
        ghost var popped0 := popped;
        found, stack, results, seen :=
          ExpandOld(word, maxMistakeCount, top.0, top.1, stack[..|stack| - 1], results, popped, seen);
        popped := popped + {top.0};
        if found {
          return;
        }
      }
      WalkCovers(popped, seen, word, maxMistakeCount);
      OldWalkDone(seen, word, maxMistakeCount);
    }

    // -------------------------------------------------------------------
    // Fuzzy search by priority walk
    // -------------------------------------------------------------------

    /** The nodes a walk that descends only into complete tables looks at:
        the children of the root and of the nodes with a complete table. */
    ghost function ReachNodes(word: string, max: nat): set<nat>
      reads this
      requires Valid()
    {
      set j | 0 < j < |nodes| && (parent[j] == 0 || parent[j] in CompleteNodes(word, max))
    }

    /** The last entry of the row DamerauLevenshtein returns for the path of
        node j: the distance when the table is complete, and otherwise the
        distance of the prefix the computation stopped at. */
    ghost function LastEntry(j: nat, word: string, max: nat): nat
      reads this
      requires Valid() && j < |nodes|
    {
      Table(paths[j], word, RowsComputed(paths[j], word, max), |word|)
    }

    /** The nodes whose row ends in 0: Similar returns at the first one it meets. */
    ghost function ZeroNodes(word: string, max: nat): set<nat>
      reads this
      requires Valid()
    {
      set j | 0 < j < |nodes| && LastEntry(j, word, max) == 0
    }

    /** The nodes with a complete table whose path is longer than `word`:
        priority reads past the end of their row. */
    ghost function LongNodes(word: string, max: nat): set<nat>
      reads this
      requires Valid()
    {
      set j | j in CompleteNodes(word, max) && |paths[j]| > |word|
    }

    /** The nodes Similar records: word ends whose row ends in `max`. */
    ghost function SimHits(word: string, max: nat): set<nat>
      reads this
      requires Valid()
    {
      set j | 0 < j < |nodes| && nodes[j].isWordEnd && LastEntry(j, word, max) == max
    }

    /** The outcomes Similar of the source can have, whatever the order of
        the edges in a node and of equal priorities: the read past the end
        of a row (None) at a long node it reaches; the path of a reached
        node whose row ends in 0; or, when it reaches neither, the paths of
        the reached nodes it records. */
    ghost predicate SimilarOutcome(word: string, max: nat, r: Option<set<string>>)
      reads this
      requires Valid()
    {
      match r
      case None => ReachNodes(word, max) * (LongNodes(word, max) - ZeroNodes(word, max)) != {}
      case Some(res) =>
        (exists j :: j in ReachNodes(word, max) * ZeroNodes(word, max) && res == {paths[j]}) ||
        (ReachNodes(word, max) * (ZeroNodes(word, max) + LongNodes(word, max)) == {} &&
         res == PathsOf(ReachNodes(word, max) * SimHits(word, max)))
    }

    /** A walk that pushes only nodes with a complete table. */
    ghost predicate Descended(front: seq<(nat, string)>, popped: set<nat>, word: string, max: nat)
      reads this
      requires Valid()
    {
      (forall k :: 0 <= k < |front| ==> front[k].0 == 0 || front[k].0 in CompleteNodes(word, max)) &&
      (forall q :: q in popped ==> q == 0 || q in CompleteNodes(word, max))
    }

    lemma DescendedPop(front: seq<(nat, string)>, popped: set<nat>, word: string, max: nat, k: nat)
      requires Valid() && Descended(front, popped, word, max) && k < |front|
      ensures Descended(front[..k] + front[k + 1..], popped + {front[k].0}, word, max)
    {
      var rest := front[..k] + front[k + 1..];
      assert forall m :: 0 <= m < |rest| ==> rest[m] == front[if m < k then m else m + 1];
    }

    lemma DescendedPush(front: seq<(nat, string)>, popped: set<nat>, word: string, max: nat, child: nat, path: string)
      requires Valid() && Descended(front, popped, word, max) && child in CompleteNodes(word, max)
      ensures Descended(front + [(child, path)], popped, word, max)
    {
      assert forall m :: 0 <= m < |front| ==> (front + [(child, path)])[m] == front[m];
    }

    /** A finished walk that descended only into complete tables has seen
        exactly the reachable nodes. */
    lemma WalkReach(popped: set<nat>, seen: set<nat>, word: string, max: nat)
      requires Valid() && 0 in popped && Descended([], popped, word, max)
      requires forall j :: j in seen ==> 0 < j < |nodes|
      requires forall j :: 0 < j < |nodes| ==> (j in seen <==> parent[j] in popped)
      requires forall j :: j in seen * CompleteNodes(word, max) ==> j in popped
      ensures seen == ReachNodes(word, max)
    {
      WalkCovers(popped, seen, word, max);
      forall j | j in ReachNodes(word, max)
        ensures j in seen
      {
        if parent[j] != 0 {
          assert parent[j] in seen * CompleteNodes(word, max);
        }
      }
    }

    /** What the row DamerauLevenshtein returns for the path to the target
        of an edge tells Similar about that target. */
    lemma EdgeRowSim(tn: nat, ch: char, row: seq<nat>, word: string, max: nat)
      requires Valid() && tn < |nodes| && ch in nodes[tn].edges
      requires var cp := paths[tn] + nodes[tn].edges[ch].text;
               IsRow(row, cp, word, RowsComputed(cp, word, max)) && row[0] == RowsComputed(cp, word, max)
      ensures var e := nodes[tn].edges[ch];
              var cp := paths[tn] + e.text;
              0 < e.target < |nodes| &&
              (e.target in ReachNodes(word, max) <==> tn == 0 || tn in CompleteNodes(word, max)) &&
              (e.target in ZeroNodes(word, max) <==> row[|row| - 1] == 0) &&
              (e.target in SimHits(word, max) <==> row[|row| - 1] == max && nodes[e.target].isWordEnd) &&
              (e.target in LongNodes(word, max) <==> row[0] == |cp| && |cp| > |word|) &&
              (row[0] == |cp| ==> IsRow(row, cp, word, |cp|))
    {
      var e := nodes[tn].edges[ch];
      assert EdgeOk(State(), tn, ch);
      assert row[|row| - 1] == LastEntry(e.target, word, max);
    }

    /** When Similar reaches a node whose row ends in 0, every answer it
        can give is a single path. */
    lemma ZeroReachedSingle(j: nat, word: string, max: nat)
      requires Valid() && j in ReachNodes(word, max) * ZeroNodes(word, max)
      ensures forall r :: SimilarOutcome(word, max, r) && r.Some? ==> |r.value| == 1
    {
      assert j in ReachNodes(word, max) * (ZeroNodes(word, max) + LongNodes(word, max));
    }

    /** When the only node Similar reaches is long and its row does not end
        in 0, Similar always reads past the end of that row. */
    lemma LongReachedOnly(j: nat, word: string, max: nat)
      requires Valid() && j in ReachNodes(word, max) && forall q :: q in ReachNodes(word, max) ==> q == j
      requires j in LongNodes(word, max) && j !in ZeroNodes(word, max)
      ensures SimilarOutcome(word, max, None) && forall res :: !SimilarOutcome(word, max, Some(res))
    {
      assert ReachNodes(word, max) * ZeroNodes(word, max) == {};
      assert j in ReachNodes(word, max) * (LongNodes(word, max) - ZeroNodes(word, max));
      assert j in ReachNodes(word, max) * (ZeroNodes(word, max) + LongNodes(word, max));
    }

    /** Returning the path of a reached node whose row ends in 0 is an outcome of Similar. */
    lemma ZeroOutcome(j: nat, word: string, max: nat)
      requires Valid() && j in ReachNodes(word, max) * ZeroNodes(word, max)
      ensures SimilarOutcome(word, max, Some({paths[j]}))
    {
    }

    /** Reading past the row of a reached long node is an outcome of Similar. */
    lemma LongOutcome(j: nat, word: string, max: nat)
      requires Valid() && j in ReachNodes(word, max) * (LongNodes(word, max) - ZeroNodes(word, max))
      ensures SimilarOutcome(word, max, None)
    {
    }

    /** One edge of Similar's walk, as written: the edge keyed `ch` out of
        the popped node `tn` spelling `path`. `stop` reports a return from
        inside the walk, with its outcome `r`. */
    method VisitAsWritten(word: string, max: nat, tn: nat, ch: char, path: string,
                          queue0: seq<(nat, nat, string)>, results0: set<string>,
                          ghost popped: set<nat>, ghost seen0: set<nat>)
      returns (stop: bool, r: Option<set<string>>, queue: seq<(nat, nat, string)>, results: set<string>)
      requires Valid() && tn < |nodes| && ch in nodes[tn].edges && path == paths[tn] && tn in popped
      requires nodes[tn].edges[ch].target !in popped && nodes[tn].edges[ch].target !in seen0
      requires Walking(Pairs(queue0), popped, seen0, results0, SimHits(word, max),
                       ZeroNodes(word, max) + LongNodes(word, max), word, max)
      requires Descended(Pairs(queue0), popped, word, max)
      ensures stop ==> SimilarOutcome(word, max, r)
      ensures !stop ==> Walking(Pairs(queue), popped, seen0 + {nodes[tn].edges[ch].target}, results,
                                SimHits(word, max), ZeroNodes(word, max) + LongNodes(word, max), word, max)
      ensures !stop ==> Descended(Pairs(queue), popped, word, max)
    {
      stop, r, queue, results := false, None, queue0, results0;
      var edge := nodes[tn].edges[ch];
      var child := edge.target;
      var currentPath := path + edge.text;
      var row := DamerauLevenshtein(currentPath, word, max);
      EdgeRow(tn, ch, row, word, max);
      EdgeRowSim(tn, ch, row, word, max);
      if row[|row| - 1] == 0 {
        ZeroOutcome(child, word, max);
        return true, Some({currentPath}), queue, results;
      }
      if row[|row| - 1] == max && nodes[child].isWordEnd {
        results := results + {currentPath};
      }
      if row[0] == |path| + |edge.text| {
        // Only a complete row is given a priority and queued.
        var priority := Priority(row, currentPath);
        if priority.None? {
          LongOutcome(child, word, max);
          return true, None, queue, results;
        }
        WalkSee(Pairs(queue), popped, seen0, results0, SimHits(word, max),
                ZeroNodes(word, max) + LongNodes(word, max), word, max, child, true);
        DescendedPush(Pairs(queue), popped, word, max, child, currentPath);
        PairsAppend(queue, (priority.value, child, currentPath));
        queue := queue + [(priority.value, child, currentPath)];
      } else {
        WalkSee(Pairs(queue), popped, seen0, results0, SimHits(word, max),
                ZeroNodes(word, max) + LongNodes(word, max), word, max, child, false);
      }
    }

    /** The body of Similar's walk, as written, for one popped node `tn`
        spelling `path`: every edge out of it, in no particular order. */
    method ExpandAsWritten(word: string, max: nat, tn: nat, path: string,
                           queue0: seq<(nat, nat, string)>, results0: set<string>,
                           ghost popped0: set<nat>, ghost seen0: set<nat>)
      returns (stop: bool, r: Option<set<string>>, queue: seq<(nat, nat, string)>,
               results: set<string>, ghost seen: set<nat>)
      requires Valid() && tn < |nodes| && path == paths[tn] && tn !in popped0 && Closed(popped0)
      requires Walking(Pairs(queue0), popped0 + {tn}, seen0, results0, SimHits(word, max),
                       ZeroNodes(word, max) + LongNodes(word, max), word, max)
      requires Descended(Pairs(queue0), popped0 + {tn}, word, max)
      requires forall j :: 0 < j < |nodes| ==> (j in seen0 <==> parent[j] in popped0)
      ensures stop ==> SimilarOutcome(word, max, r)
      ensures !stop ==> Walking(Pairs(queue), popped0 + {tn}, seen, results, SimHits(word, max),
                                ZeroNodes(word, max) + LongNodes(word, max), word, max)
      ensures !stop ==> Descended(Pairs(queue), popped0 + {tn}, word, max)
      ensures !stop ==> forall j :: 0 < j < |nodes| ==> (j in seen <==> parent[j] in popped0 + {tn})
    {
      ghost var popped := popped0 + {tn};
      stop, r, queue, results, seen := false, None, queue0, results0, seen0;
      var edges := nodes[tn].edges;
      var keys := edges.Keys;
      ghost var done: set<char> := {};
      while keys != {}
        invariant keys + done == edges.Keys && keys !! done
        invariant Walking(Pairs(queue), popped, seen, results, SimHits(word, max),
                          ZeroNodes(word, max) + LongNodes(word, max), word, max)
        invariant Descended(Pairs(queue), popped, word, max)
        invariant forall j :: 0 < j < |nodes| ==>
                    (j in seen <==> parent[j] in popped0 || (parent[j] == tn && inKey[j] in done))
        decreases keys
      {
        var ch :| ch in keys;
        keys := keys - {ch};
        var child := edges[ch].target;
        SeenStep(seen, popped0, tn, done, ch);
        stop, r, queue, results := VisitAsWritten(word, max, tn, ch, path, queue, results, popped, seen);
        if stop {
          return;
        }
        seen := seen + {child};
        done := done + {ch};
      }
      SeenAll(seen, popped0, tn, done);
    }

    /** Similar of the source, as written: a walk that always expands the
        queued node of least priority. It returns at the first edge whose
        row ends in 0, records word ends whose row ends in
        `maxMistakeCount` whether or not the row is complete, and descends
        along complete rows after computing their priority. */
    method SimilarAsWritten(word: string, maxMistakeCount: nat) returns (r: Option<set<string>>)
      requires Valid()
      ensures SimilarOutcome(word, maxMistakeCount, r)
    {
      ghost var hits := SimHits(word, maxMistakeCount);
      ghost var stops := ZeroNodes(word, maxMistakeCount) + LongNodes(word, maxMistakeCount);
      var results: set<string> := {};
      var queue: seq<(nat, nat, string)> := [(0, 0, [])];
      ghost var popped: set<nat> := {};
      ghost var seen: set<nat> := {};
      assert Pairs(queue)[0].0 == 0;
      while queue != []
        invariant Closed(popped)
        invariant Walking(Pairs(queue), popped, seen, results, hits, stops, word, maxMistakeCount)
        invariant Descended(Pairs(queue), popped, word, maxMistakeCount)
        invariant forall j :: 0 < j < |nodes| ==> (j in seen <==> parent[j] in popped)
        decreases Unpopped(popped)
      {
        var k := MinPriority(queue);
        var top := queue[k];
        WalkPop(Pairs(queue), popped, seen, results, hits, stops, word, maxMistakeCount, k);
        DescendedPop(Pairs(queue), popped, word, maxMistakeCount, k);
        PairsRemove(queue, k);
        var stop;
        stop, r, queue, results, seen :=
          ExpandAsWritten(word, maxMistakeCount, top.1, top.2, queue[..k] + queue[k + 1..], results, popped, seen);
        popped := popped + {top.1};
        if stop {
          return;
        }
      }
      WalkReach(popped, seen, word, maxMistakeCount);
      r := Some(results);
    }

    /** One edge of the corrected Similar: the checks of SimilarOld, and a
        push with the guarded priority. */
    method VisitSimilar(word: string, max: nat, tn: nat, ch: char, path: string,
                        queue0: seq<(nat, nat, string)>, results0: set<string>,
                        ghost popped: set<nat>, ghost seen0: set<nat>)
      returns (exact: bool, queue: seq<(nat, nat, string)>, results: set<string>)
      requires Valid() && tn < |nodes| && ch in nodes[tn].edges && path == paths[tn] && tn in popped
      requires nodes[tn].edges[ch].target !in popped && nodes[tn].edges[ch].target !in seen0
      requires Walking(Pairs(queue0), popped, seen0, results0, OldHits(word, max), ExactHits(word, max), word, max)
      ensures exact ==> word in Words() && results == {word}
      ensures !exact ==> Walking(Pairs(queue), popped, seen0 + {nodes[tn].edges[ch].target}, results,
                                 OldHits(word, max), ExactHits(word, max), word, max)
    {
      exact, queue, results := false, queue0, results0;
      var edge := nodes[tn].edges[ch];
      var child := edge.target;
      var currentPath := path + edge.text;
      var row := DamerauLevenshtein(currentPath, word, max);
      EdgeRow(tn, ch, row, word, max);
      var complete := row[0] == |path| + |edge.text|;
      if complete && row[|row| - 1] == 0 && nodes[child].isWordEnd {
        return true, queue, {currentPath};
      }
      WalkSee(Pairs(queue), popped, seen0, results, OldHits(word, max), ExactHits(word, max), word, max, child, complete);
      if complete && row[|row| - 1] == max && nodes[child].isWordEnd {
        results := results + {currentPath};
      }
      if complete {
        var priority := PriorityGuarded(row, currentPath);
        PairsAppend(queue, (priority, child, currentPath));
        queue := queue + [(priority, child, currentPath)];
      }
    }

    /** The body of the corrected Similar for one popped node `tn` spelling
        `path`: every edge out of it, in no particular order. */
    method ExpandSimilar(word: string, max: nat, tn: nat, path: string,
                         queue0: seq<(nat, nat, string)>, results0: set<string>,
                         ghost popped0: set<nat>, ghost seen0: set<nat>)
      returns (exact: bool, queue: seq<(nat, nat, string)>, results: set<string>, ghost seen: set<nat>)
      requires Valid() && tn < |nodes| && path == paths[tn] && tn !in popped0 && Closed(popped0)
      requires Walking(Pairs(queue0), popped0 + {tn}, seen0, results0, OldHits(word, max), ExactHits(word, max), word, max)
      requires forall j :: 0 < j < |nodes| ==> (j in seen0 <==> parent[j] in popped0)
      ensures exact ==> word in Words() && results == {word}
      ensures !exact ==> Walking(Pairs(queue), popped0 + {tn}, seen, results, OldHits(word, max), ExactHits(word, max), word, max)
      ensures !exact ==> forall j :: 0 < j < |nodes| ==> (j in seen <==> parent[j] in popped0 + {tn})
    {
      ghost var popped := popped0 + {tn};
      exact, queue, results, seen := false, queue0, results0, seen0;
      var edges := nodes[tn].edges;
      var keys := edges.Keys;
      ghost var done: set<char> := {};
      while keys != {}
        invariant keys + done == edges.Keys && keys !! done
        invariant Walking(Pairs(queue), popped, seen, results, OldHits(word, max), ExactHits(word, max), word, max)
        invariant forall j :: 0 < j < |nodes| ==>
                    (j in seen <==> parent[j] in popped0 || (parent[j] == tn && inKey[j] in done))
        decreases keys
      {
        var ch :| ch in keys;
        keys := keys - {ch};
        var child := edges[ch].target;
        SeenStep(seen, popped0, tn, done, ch);
        exact, queue, results := VisitSimilar(word, max, tn, ch, path, queue, results, popped, seen);
        if exact {
          return;
        }
        seen := seen + {child};
        done := done + {ch};
      }
      SeenAll(seen, popped0, tn, done);
    }

    /** With "ab" and "ac" stored, Similar as written, asked for "a" with a
        budget of 0, answers with a single path (the inner node "a", or one of
        the words whose row was cut at "a"), although no stored word is
        within distance 0 of "a". */
    lemma SimilarAnswersUnstored()
      requires Valid()
      requires State() == Arena([Node(false, map['a' := Edge("a", 1)]),
                                 Node(false, map['b' := Edge("b", 2), 'c' := Edge("c", 3)]),
                                 Node(true, map[]), Node(true, map[])],
                                ["", "a", "ab", "ac"], [0, 0, 1, 1], ['\0', 'a', 'b', 'c'])
      ensures "a" !in Words() && (set w | w in Words() && Dist(w, "a") == 0) == {}
      ensures forall r :: SimilarOutcome("a", 0, r) && r.Some? ==> |r.value| == 1
    {
      NothingAtA();
      DistZero("a", "a");
      WithinBudgetComplete("a", "a", 0);
      assert LastEntry(1, "a", 0) == Dist("a", "a");
      assert 1 in ReachNodes("a", 0) * ZeroNodes("a", 0);
      ZeroReachedSingle(1, "a", 0);
    }

    /** In the structure holding "ab" and "ac", no stored word is within
        distance 0 of "a". */
    lemma NothingAtA()
      requires Valid()
      requires State() == Arena([Node(false, map['a' := Edge("a", 1)]),
                                 Node(false, map['b' := Edge("b", 2), 'c' := Edge("c", 3)]),
                                 Node(true, map[]), Node(true, map[])],
                                ["", "a", "ab", "ac"], [0, 0, 1, 1], ['\0', 'a', 'b', 'c'])
      ensures "a" !in Words() && (set w | w in Words() && Dist(w, "a") == 0) == {}
    {
      forall i | 0 <= i < |nodes| && nodes[i].isWordEnd
        ensures paths[i] != "a"
      {
      }
      forall w | w in Words()
        ensures Dist(w, "a") != 0
      {
        DistZero(w, "a");
      }
    }

    /** With only "ab" stored, Similar as written, asked for "a" with a
        budget of 1, always reads past the end of a row: the path "ab" has a
        complete row of two entries and priority reads a third. The stored
        word "ab" is at distance 1 from "a". */
    lemma SimilarReadsPastRow()
      requires Valid()
      requires State() == Arena([Node(false, map['a' := Edge("ab", 1)]), Node(true, map[])],
                                ["", "ab"], [0, 0], ['\0', 'a'])
      ensures "ab" in Words() && Dist("ab", "a") == 1
      ensures SimilarOutcome("a", 1, None) && forall res :: !SimilarOutcome("a", 1, Some(res))
    {
      DistAbA();
      assert paths[1] == "ab" && parent[1] == 0 && |nodes| == 2;
      assert LastEntry(1, "a", 1) == 1;
      assert 1 in CompleteNodes("a", 1);
      assert 1 in LongNodes("a", 1) && 1 !in ZeroNodes("a", 1);
      assert 1 in ReachNodes("a", 1);
      forall j | j in ReachNodes("a", 1)
        ensures j == 1
      {
      }
      LongReachedOnly(1, "a", 1);
    }

    /** Similar with the checks of SimilarOld and the guarded priority: the
        order of the walk no longer matters, and it returns what SimilarOld
        returns. */
    method Similar(word: string, maxMistakeCount: nat) returns (results: set<string>)
      requires Valid()
      ensures results == if word in Words() then {word}
                         else set w | w in Words() && Dist(w, word) == maxMistakeCount
    {
      ghost var hits := OldHits(word, maxMistakeCount);
      ghost var exact := ExactHits(word, maxMistakeCount);
      results := {};
      var queue: seq<(nat, nat, string)> := [(0, 0, [])];
      ghost var popped: set<nat> := {};
      ghost var seen: set<nat> := {};
      assert Pairs(queue)[0].0 == 0;
      while queue != []
        invariant Closed(popped)
        invariant Walking(Pairs(queue), popped, seen, results, hits, exact, word, maxMistakeCount)
        invariant forall j :: 0 < j < |nodes| ==> (j in seen <==> parent[j] in popped)
        decreases Unpopped(popped)
      {
        var k := MinPriority(queue);
        var top := queue[k];
        WalkPop(Pairs(queue), popped, seen, results, hits, exact, word, maxMistakeCount, k);
        PairsRemove(queue, k);
        var found;
        found, queue, results, seen :=
          ExpandSimilar(word, maxMistakeCount, top.1, top.2, queue[..k] + queue[k + 1..], results, popped, seen);
        popped := popped + {top.1};
        if found {
          return;
        }
      }
      WalkCovers(popped, seen, word, maxMistakeCount);
      OldWalkDone(seen, word, maxMistakeCount);
    }
  }
}
