/** Binary search trees as values, shared by the pointer tree of
    module_2/B/m2_taskB.hpp and the two splay trees of module_2/B/m2_taskB.py
    and module_2/B/m2_taskB_2.py. A subtree is a value; parent links are not
    kept. */
module SearchTrees {
  import opened Wrappers

  datatype Tree = Nil | Node(left: Tree, key: int, value: string, right: Tree)

  function Keys(t: Tree): set<int> {
    match t
    case Nil => {}
    case Node(l, k, _, r) => Keys(l) + {k} + Keys(r)
  }

  function Size(t: Tree): nat {
    match t
    case Nil => 0
    case Node(l, _, _, r) => Size(l) + 1 + Size(r)
  }

  /** Every node's left-subtree keys are below its key and its right-subtree
      keys above. */
  predicate Bst(t: Tree) {
    match t
    case Nil => true
    case Node(l, k, _, r) =>
      Bst(l) && Bst(r) && (forall x :: x in Keys(l) ==> x < k) && (forall x :: x in Keys(r) ==> k < x)
  }

  /** The entries in in-order (left subtree, node, right subtree). */
  function Entries(t: Tree): (s: seq<(int, string)>)
    ensures |s| == Size(t)
  {
    match t
    case Nil => []
    case Node(l, k, v, r) => Entries(l) + [(k, v)] + Entries(r)
  }

  /** Keys strictly increase along the sequence. */
  predicate Increasing(s: seq<(int, string)>) {
    forall i, j :: 0 <= i < j < |s| ==> s[i].0 < s[j].0
  }

  /** The value a descent by key comparison finds, going left on a smaller
      key and right on a larger one. */
  function Find(t: Tree, key: int): Option<string> {
    match t
    case Nil => None
    case Node(l, k, v, r) =>
      if key < k then Find(l, key) else if key > k then Find(r, key) else Some(v)
  }

  /** In a search tree the descent finds a key exactly when it is stored. */
  lemma {:induction false} FindKeys(t: Tree, key: int)
    requires Bst(t)
    ensures Find(t, key).Some? <==> key in Keys(t)
  {
    match t
    case Nil =>
    case Node(l, k, _, r) =>
      if key < k {
        FindKeys(l, key);
      } else if key > k {
        FindKeys(r, key);
      }
  }

  /** The keys listed in a sequence of entries. */
  function KeysOf(s: seq<(int, string)>): set<int> {
    set e | e in s :: e.0
  }

  lemma KeysOfJoin(a: seq<(int, string)>, m: (int, string), b: seq<(int, string)>)
    ensures KeysOf(a + [m] + b) == KeysOf(a) + {m.0} + KeysOf(b)
  {
    assert forall e :: e in a + [m] + b <==> e in a || e == m || e in b;
  }

  /** The keys of the in-order entries are the stored keys. */
  lemma {:induction false} KeysOfEntries(t: Tree)
    ensures KeysOf(Entries(t)) == Keys(t)
  {
    match t
    case Nil =>
    case Node(l, k, v, r) =>
      KeysOfEntries(l);
      KeysOfEntries(r);
      KeysOfJoin(Entries(l), (k, v), Entries(r));
  }

  /** A joined sequence increases exactly when both parts do and the middle
      entry separates them. */
  lemma IncreasingJoin(a: seq<(int, string)>, m: (int, string), b: seq<(int, string)>)
    ensures Increasing(a + [m] + b) <==>
      Increasing(a) && Increasing(b) &&
      (forall x :: x in KeysOf(a) ==> x < m.0) && (forall x :: x in KeysOf(b) ==> m.0 < x)
  {
    var s := a + [m] + b;
    if Increasing(s) {
      forall i, j | 0 <= i < j < |a| ensures a[i].0 < a[j].0 {
        assert s[i] == a[i] && s[j] == a[j];
      }
      forall i, j | 0 <= i < j < |b| ensures b[i].0 < b[j].0 {
        assert s[|a| + 1 + i] == b[i] && s[|a| + 1 + j] == b[j];
      }
      forall x | x in KeysOf(a) ensures x < m.0 {
        var e :| e in a && e.0 == x;
        var i :| 0 <= i < |a| && a[i] == e;
        assert s[i] == a[i] && s[|a|] == m;
      }
      forall x | x in KeysOf(b) ensures m.0 < x {
        var e :| e in b && e.0 == x;
        var i :| 0 <= i < |b| && b[i] == e;
        assert s[|a| + 1 + i] == b[i] && s[|a|] == m;
      }
    }
    if Increasing(a) && Increasing(b) &&
       (forall x :: x in KeysOf(a) ==> x < m.0) && (forall x :: x in KeysOf(b) ==> m.0 < x) {
      forall i, j | 0 <= i < j < |s| ensures s[i].0 < s[j].0 {
        InOrderPair(a, m, b, i, j);
      }
    }
  }

  /** The search-tree order is exactly increasing in-order keys. */
  lemma {:induction false} BstIncreasing(t: Tree)
    ensures Bst(t) <==> Increasing(Entries(t))
  {
    match t
    case Nil =>
    case Node(l, k, v, r) =>
      BstIncreasing(l);
      BstIncreasing(r);
      KeysOfEntries(l);
      KeysOfEntries(r);
      IncreasingJoin(Entries(l), (k, v), Entries(r));
  }

  /** One comparison across the three parts of an in-order sequence. */
  lemma InOrderPair(a: seq<(int, string)>, m: (int, string), b: seq<(int, string)>, i: nat, j: nat)
    requires Increasing(a) && Increasing(b)
    requires forall x :: x in KeysOf(a) ==> x < m.0
    requires forall x :: x in KeysOf(b) ==> m.0 < x
    requires i < j < |a| + 1 + |b|
    ensures (a + [m] + b)[i].0 < (a + [m] + b)[j].0
  {
    var s := a + [m] + b;
    if j < |a| {
      assert s[i] == a[i] && s[j] == a[j];
    } else if j == |a| {
      assert s[i] == a[i] && s[j] == m && a[i].0 in KeysOf(a);
    } else if i < |a| {
      assert s[i] == a[i] && s[j] == b[j - |a| - 1];
      assert a[i].0 in KeysOf(a) && b[j - |a| - 1].0 in KeysOf(b);
    } else if i == |a| {
      assert s[i] == m && s[j] == b[j - |a| - 1] && b[j - |a| - 1].0 in KeysOf(b);
    } else {
      assert s[i] == b[i - |a| - 1] && s[j] == b[j - |a| - 1];
    }
  }

  /** In a search tree the descent finds `v` under `key` exactly when the
      in-order entries hold `(key, v)`. */
  lemma {:induction false} FindEntries(t: Tree, key: int, v: string)
    requires Bst(t)
    ensures Find(t, key) == Some(v) <==> (key, v) in Entries(t)
  {
    match t
    case Nil =>
    case Node(l, k, w, r) =>
      FindEntries(l, key, v);
      FindEntries(r, key, v);
      KeysOfEntries(l);
      KeysOfEntries(r);
      assert Entries(t) == Entries(l) + [(k, w)] + Entries(r);
      assert (key, v) in Entries(l) ==> key in KeysOf(Entries(l));
      assert (key, v) in Entries(r) ==> key in KeysOf(Entries(r));
  }

  /** Two trees with the same in-order entries agree on search-tree order and
      on every descent. */
  lemma SameEntries(t: Tree, u: Tree, key: int)
    requires Entries(t) == Entries(u) && Bst(t)
    ensures Bst(u) && Find(u, key) == Find(t, key)
  {
    BstIncreasing(t);
    BstIncreasing(u);
    match Find(t, key)
    case Some(v) =>
      FindEntries(t, key, v);
      FindEntries(u, key, v);
    case None =>
      match Find(u, key)
      case Some(w) =>
        FindEntries(t, key, w);
        FindEntries(u, key, w);
      case None =>
  }
}
