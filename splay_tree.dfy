/** `SplayTree` of module_2/B/m2_taskB.py: a binary search tree that moves
    every node it finds, inserts or reaches last to the root by rotations.
    The source walks parent links upwards from the node; here a node is
    named by the path of left/right steps from the root, the tree is a
    value, and a rotation rebuilds the subtree it acts on. */
module SplayTrees {
  import opened Wrappers
  import opened SearchTrees
  import opened BinaryTrees

  datatype Dir = Left | Right

  function Child(t: Tree, d: Dir): Tree {
    match t
    case Nil => Nil
    case Node(l, _, _, r) => if d == Left then l else r
  }

  /** The subtree a path from the root leads to; `Nil` once it falls off. */
  function At(t: Tree, p: seq<Dir>): Tree
    decreases |p|
  {
    if p == [] then t else At(Child(t, p[0]), p[1..])
  }

  /** Every step but possibly the last leaves from a node: the path ends at a
      node or at an empty child slot of one. */
  predicate OnTree(t: Tree, p: seq<Dir>)
    decreases |p|
  {
    p == [] || (t.Node? && OnTree(Child(t, p[0]), p[1..]))
  }

  /** `t` with the subtree at `p` replaced by `s`: the parent's child link,
      or the root when `p` is empty, now leads to `s` (`setup_parent`). */
  function Graft(t: Tree, p: seq<Dir>, s: Tree): (r: Tree)
    ensures p != [] && t.Node? ==> r.Node? && r.key == t.key && r.value == t.value
    decreases |p|
  {
    if p == [] then s
    else match t
      case Nil => Nil
      case Node(l, k, v, r) =>
        if p[0] == Left then Node(Graft(l, p[1..], s), k, v, r)
        else Node(l, k, v, Graft(r, p[1..], s))
  }

  lemma {:induction false} AtNil(p: seq<Dir>)
    ensures At(Nil, p) == Nil
    decreases |p|
  {
    if p != [] {
      AtNil(p[1..]);
    }
  }

  lemma AtOne(t: Tree, d: Dir)
    ensures At(t, [d]) == Child(t, d)
  {
    assert [d][1..] == [];
  }

  lemma AtTwo(t: Tree, d1: Dir, d2: Dir)
    ensures At(t, [d1, d2]) == Child(Child(t, d1), d2)
  {
    assert [d1, d2][1..] == [d2];
    AtOne(Child(t, d1), d2);
  }

  /** Following `a` then `b` is following `a + b`. */
  lemma {:induction false} AtJoin(t: Tree, a: seq<Dir>, b: seq<Dir>)
    ensures At(t, a + b) == At(At(t, a), b)
    decreases |a|
  {
    if a == [] {
      assert a + b == b;
    } else {
      assert (a + b)[0] == a[0] && (a + b)[1..] == a[1..] + b;
      AtJoin(Child(t, a[0]), a[1..], b);
    }
  }

  /** A path that ends at a node stays on the tree. */
  lemma {:induction false} AtOnTree(t: Tree, p: seq<Dir>)
    requires At(t, p).Node?
    ensures OnTree(t, p)
    decreases |p|
  {
    if p != [] {
      if t.Nil? {
        AtNil(p[1..]);
      }
      AtOnTree(Child(t, p[0]), p[1..]);
    }
  }

  /** After grafting, the path leads to the grafted subtree. */
  lemma {:induction false} GraftAt(t: Tree, p: seq<Dir>, s: Tree)
    requires OnTree(t, p)
    ensures At(Graft(t, p, s), p) == s
    decreases |p|
  {
    if p != [] {
      GraftAt(Child(t, p[0]), p[1..], s);
    }
  }

  /** Grafting a subtree with the same in-order entries keeps the entries of
      the whole tree. */
  lemma {:induction false} GraftEntries(t: Tree, p: seq<Dir>, s: Tree)
    requires Entries(s) == Entries(At(t, p))
    ensures Entries(Graft(t, p, s)) == Entries(t)
    decreases |p|
  {
    if p != [] && t.Node? {
      GraftEntries(Child(t, p[0]), p[1..], s);
    }
  }

  /** `rotate_right(p)`: the left child `x` takes `p`'s place, `p` becomes
      its right child and takes over `x`'s right subtree. */
  function RotateRight(t: Tree): (r: Tree)
    requires t.Node? && t.left.Node?
    ensures r.Node? && r.right.Node? && Entries(r) == Entries(t)
  {
    var x := t.left;
    Node(x.left, x.key, x.value, Node(x.right, t.key, t.value, t.right))
  }

  /** `rotate_left(p)`, the mirror image. */
  function RotateLeft(t: Tree): (r: Tree)
    requires t.Node? && t.right.Node?
    ensures r.Node? && r.left.Node? && Entries(r) == Entries(t)
  {
    var x := t.right;
    Node(Node(t.left, t.key, t.value, x.left), x.key, x.value, x.right)
  }

  /** The two rotations undo each other. */
  lemma RotateInverse(t: Tree)
    requires t.Node? && t.left.Node?
    ensures RotateLeft(RotateRight(t)) == t
  {
  }

  /** The single rotation of `splay` when the parent is the root (`zig`):
      the child in direction `d` rises to the root. */
  function Zig(t: Tree, d: Dir): (r: Tree)
    requires Child(t, d).Node?
    ensures r.Node? && r.key == Child(t, d).key && r.value == Child(t, d).value
    ensures Entries(r) == Entries(t)
  {
    if d == Left then RotateRight(t) else RotateLeft(t)
  }

  /** The double rotations of `splay` at the grandparent `g` of `x`, reached
      by `d1` then `d2`: `zig_zig_l`/`zig_zig_r` rotate at the grandparent and
      then at the parent, `zig_zag_l`/`zig_zag_r` rotate at the parent and
      then at the grandparent. */
  function Twist(g: Tree, d1: Dir, d2: Dir): (r: Tree)
    requires Child(Child(g, d1), d2).Node?
    ensures r.Node? && r.key == Child(Child(g, d1), d2).key && r.value == Child(Child(g, d1), d2).value
    ensures Entries(r) == Entries(g)
  {
    match (d1, d2)
    case (Left, Left) => RotateRight(RotateRight(g))
    case (Right, Right) => RotateLeft(RotateLeft(g))
    case (Right, Left) => RotateLeft(Node(g.left, g.key, g.value, RotateRight(g.right)))
    case (Left, Right) => RotateRight(Node(RotateLeft(g.left), g.key, g.value, g.right))
  }

  /** `splay(x)` for the node at `p`: each round takes the last two steps of
      the path and applies the double rotation at the grandparent, until
      the node is the root or a child of it; a child of the root takes one
      last single rotation. The node ends at the root and the in-order
      entries are unchanged. */
  function Splayed(t: Tree, p: seq<Dir>): (r: Tree)
    requires At(t, p).Node?
    ensures r.Node? && r.key == At(t, p).key && r.value == At(t, p).value
    ensures Entries(r) == Entries(t)
    decreases |p|
  {
    if |p| == 0 then t
    else if |p| == 1 then
      AtOne(t, p[0]);
      assert p == [p[0]];
      Zig(t, p[0])
    else
      var g, d1, d2 := p[..|p| - 2], p[|p| - 2], p[|p| - 1];
      SplayRound(t, p);
      var s := Twist(At(t, g), d1, d2);
      GraftEntries(t, g, s);
      Splayed(Graft(t, g, s), g)
  }

  /** One double-rotation round is possible on a path of two steps or more,
      and leaves the node at the end of the path without its last two
      steps. */
  lemma SplayRound(t: Tree, p: seq<Dir>)
    requires |p| >= 2 && At(t, p).Node?
    ensures var g, d1, d2 := p[..|p| - 2], p[|p| - 2], p[|p| - 1];
      Child(Child(At(t, g), d1), d2).Node? &&
      At(Graft(t, g, Twist(At(t, g), d1, d2)), g) == Twist(At(t, g), d1, d2) &&
      Child(Child(At(t, g), d1), d2) == At(t, p)
  {
    var g, d1, d2 := p[..|p| - 2], p[|p| - 2], p[|p| - 1];
    assert p == g + [d1, d2];
    AtJoin(t, g, [d1, d2]);
    AtTwo(At(t, g), d1, d2);
    AtOnTree(t, g);
    GraftAt(t, g, Twist(At(t, g), d1, d2));
  }

  /** `_search(key)`: the path walked from the root, going left on a smaller
      key and right on a larger one, up to the node holding `key` or the
      empty slot where the walk falls off. */
  function Descend(t: Tree, key: int): (p: seq<Dir>)
    ensures OnTree(t, p)
  {
    match t
    case Nil => []
    case Node(l, k, _, r) =>
      if key == k then []
      else if key < k then [Left] + Descend(l, key)
      else [Right] + Descend(r, key)
  }

  /** The walk stays on the tree and stops at a node only if it holds the
      key. */
  lemma {:induction false} DescendPath(t: Tree, key: int)
    ensures OnTree(t, Descend(t, key))
    ensures At(t, Descend(t, key)).Nil? || At(t, Descend(t, key)).key == key
  {
    match t
    case Nil =>
    case Node(l, k, _, r) =>
      if key != k {
        var d := if key < k then Left else Right;
        var q := Descend(Child(t, d), key);
        assert Descend(t, key) == [d] + q;
        assert ([d] + q)[0] == d && ([d] + q)[1..] == q;
        DescendPath(Child(t, d), key);
      }
  }

  /** In a search tree the walk ends at a node exactly when the key is
      stored, and that node holds the value a descent finds. */
  lemma {:induction false} DescendFinds(t: Tree, key: int)
    requires Bst(t)
    ensures Find(t, key) == if At(t, Descend(t, key)).Node? then Some(At(t, Descend(t, key)).value) else None
  {
    match t
    case Nil =>
    case Node(l, k, _, r) =>
      if key != k {
        var d := if key < k then Left else Right;
        var q := Descend(Child(t, d), key);
        assert Descend(t, key) == [d] + q && ([d] + q)[1..] == q;
        DescendFinds(Child(t, d), key);
      }
  }

  /** Hanging a leaf at the slot where the walk falls off is the search-tree
      insertion of a new key. */
  lemma {:induction false} DescendInsert(t: Tree, key: int, value: string)
    requires At(t, Descend(t, key)).Nil?
    ensures Graft(t, Descend(t, key), Node(Nil, key, value, Nil)) == BinaryTrees.Insert(t, key, value)
  {
    match t
    case Nil =>
    case Node(l, k, _, r) =>
      var d := if key < k then Left else Right;
      var q := Descend(Child(t, d), key);
      assert Descend(t, key) == [d] + q && ([d] + q)[1..] == q;
      DescendInsert(Child(t, d), key, value);
  }

  /** A walk that falls off below the root passed a last node, `prev`. */
  lemma {:induction false} OnTreePrev(t: Tree, p: seq<Dir>)
    requires OnTree(t, p) && p != []
    ensures At(t, p[..|p| - 1]).Node?
    decreases |p|
  {
    if |p| > 1 {
      OnTreePrev(Child(t, p[0]), p[1..]);
      assert p[1..][..|p| - 2] == p[..|p| - 1][1..];
    }
  }

  /** The path that follows `d` links from the root while there is a child
      that way. */
  function Spine(t: Tree, d: Dir): (p: seq<Dir>)
    ensures t.Node? ==> At(t, p).Node? && Child(At(t, p), d).Nil?
  {
    if t.Node? && Child(t, d).Node? then
      var q := Spine(Child(t, d), d);
      assert ([d] + q)[1..] == q;
      [d] + q
    else []
  }

  /** One step down a spine keeps the rest of it ahead. */
  lemma SpineStep(t: Tree, p: seq<Dir>, cur: Tree, d: Dir)
    requires cur.Node? && Child(cur, d).Node? && At(t, p) == cur && Spine(t, d) == p + Spine(cur, d)
    ensures At(t, p + [d]) == Child(cur, d) && Spine(t, d) == (p + [d]) + Spine(Child(cur, d), d)
  {
    AtJoin(t, p, [d]);
    AtOne(cur, d);
    assert p + ([d] + Spine(Child(cur, d), d)) == (p + [d]) + Spine(Child(cur, d), d);
  }

  /** `_min`: follows left links; the path ends at the leftmost node. */
  method MinPath(t: Tree) returns (p: seq<Dir>)
    requires t.Node?
    ensures p == Spine(t, Left)
    ensures At(t, p).Node? && (At(t, p).key, At(t, p).value) == Leftmost(t)
  {
    p := [];
    var cur := t;
    while cur.left.Node?
      invariant cur.Node? && At(t, p) == cur && Leftmost(cur) == Leftmost(t)
      invariant Spine(t, Left) == p + Spine(cur, Left)
      decreases cur
    {
      SpineStep(t, p, cur, Left);
      p := p + [Left];
      cur := cur.left;
    }
  }

  /** `_max`: follows right links; the path ends at the rightmost node. */
  method MaxPath(t: Tree) returns (p: seq<Dir>)
    requires t.Node?
    ensures p == Spine(t, Right)
    ensures At(t, p).Node? && (At(t, p).key, At(t, p).value) == Rightmost(t)
  {
    p := [];
    var cur := t;
    while cur.right.Node?
      invariant cur.Node? && At(t, p) == cur && Rightmost(cur) == Rightmost(t)
      invariant Spine(t, Right) == p + Spine(cur, Right)
      decreases cur
    {
      SpineStep(t, p, cur, Right);
      p := p + [Right];
      cur := cur.right;
    }
  }

  /** The entries with `key`'s value replaced: what `set` does to the
      in-order sequence. */
  function Rewrite(s: seq<(int, string)>, key: int, value: string): (r: seq<(int, string)>)
    ensures |r| == |s|
  {
    seq(|s|, i requires 0 <= i < |s| => if s[i].0 == key then (key, value) else s[i])
  }

  /** The entries without `key`: what `delete` does to the in-order
      sequence. */
  function Without(s: seq<(int, string)>, key: int): (r: seq<(int, string)>)
    ensures |r| <= |s|
  {
    if s == [] then [] else (if s[0].0 == key then [] else [s[0]]) + Without(s[1..], key)
  }

  lemma {:induction false} WithoutJoin(a: seq<(int, string)>, b: seq<(int, string)>, key: int)
    ensures Without(a + b, key) == Without(a, key) + Without(b, key)
    decreases |a|
  {
    if a == [] {
      assert a + b == b;
    } else {
      assert (a + b)[0] == a[0] && (a + b)[1..] == a[1..] + b;
      WithoutJoin(a[1..], b, key);
    }
  }

  /** An entry survives `Without` exactly when its key is not the one
      removed. */
  lemma {:induction false} WithoutMember(s: seq<(int, string)>, key: int, e: (int, string))
    ensures e in Without(s, key) <==> e in s && e.0 != key
    decreases |s|
  {
    if s != [] {
      WithoutMember(s[1..], key, e);
      assert e in s <==> e == s[0] || e in s[1..];
    }
  }

  /** Removing the middle entry of a sequence whose other keys differ from
      it leaves the two sides joined. */
  lemma WithoutMiddle(a: seq<(int, string)>, m: (int, string), b: seq<(int, string)>)
    requires m.0 !in KeysOf(a) && m.0 !in KeysOf(b)
    ensures Without(a + [m] + b, m.0) == a + b
  {
    calc {
      Without(a + [m] + b, m.0);
      { WithoutJoin(a + [m], b, m.0); }
      Without(a + [m], m.0) + Without(b, m.0);
      { WithoutJoin(a, [m], m.0); }
      Without(a, m.0) + Without([m], m.0) + Without(b, m.0);
      { WithoutAbsent(a, m.0); WithoutAbsent(b, m.0); WithoutOne(m); }
      a + [] + b;
      { assert a + [] == a; }
      a + b;
    }
  }

  lemma WithoutOne(m: (int, string))
    ensures Without([m], m.0) == []
  {
    assert [m][1..] == [];
  }

  lemma {:induction false} WithoutAbsent(s: seq<(int, string)>, key: int)
    requires key !in KeysOf(s)
    ensures Without(s, key) == s
    decreases |s|
  {
    if s != [] {
      assert s[0] in s;
      assert KeysOf(s[1..]) <= KeysOf(s) by {
        forall e | e in s[1..] ensures e in s {}
      }
      WithoutAbsent(s[1..], key);
      assert [s[0]] + s[1..] == s;
    }
  }

  /** Removing a key from increasing entries leaves them increasing. */
  lemma {:induction false} WithoutIncreasing(s: seq<(int, string)>, key: int)
    requires Increasing(s)
    ensures Increasing(Without(s, key))
    decreases |s|
  {
    if s != [] {
      var w := Without(s[1..], key);
      assert Increasing(s[1..]) by {
        forall i, j | 0 <= i < j < |s| - 1 ensures s[1..][i].0 < s[1..][j].0 {
          assert s[1..][i] == s[i + 1] && s[1..][j] == s[j + 1];
        }
      }
      WithoutIncreasing(s[1..], key);
      forall x | x in KeysOf(w) ensures s[0].0 < x {
        var e :| e in w && e.0 == x;
        WithoutMember(s[1..], key, e);
        var i :| 0 <= i < |s| - 1 && s[1..][i] == e;
        assert s[i + 1] == e;
      }
      IncreasingJoin([], s[0], w);
      assert [] + [s[0]] + w == [s[0]] + w;
    }
  }

  /** A tree whose entries are those of a search tree without `key` is a
      search tree that no longer finds `key` and finds every other key as
      before. */
  lemma WithoutFacts(t: Tree, u: Tree, key: int, k: int)
    requires Bst(t) && Entries(u) == Without(Entries(t), key)
    ensures Bst(u) && Find(u, k) == if k == key then None else Find(t, k)
  {
    BstIncreasing(t);
    WithoutIncreasing(Entries(t), key);
    BstIncreasing(u);
    match Find(u, k)
    case Some(w) =>
      FindEntries(u, k, w);
      WithoutMember(Entries(t), key, (k, w));
      FindEntries(t, k, w);
    case None =>
      if k != key {
        match Find(t, k)
        case Some(w) =>
          FindEntries(t, k, w);
          WithoutMember(Entries(t), key, (k, w));
          FindEntries(u, k, w);
        case None =>
      }
  }

  /** Replacing the value of the middle entry, whose key appears nowhere
      else. */
  lemma RewriteMiddle(a: seq<(int, string)>, m: (int, string), b: seq<(int, string)>, value: string)
    requires m.0 !in KeysOf(a) && m.0 !in KeysOf(b)
    ensures Rewrite(a + [m] + b, m.0, value) == a + [(m.0, value)] + b
  {
    var s, r := a + [m] + b, a + [(m.0, value)] + b;
    forall i | 0 <= i < |s| ensures Rewrite(s, m.0, value)[i] == r[i] {
      if i < |a| {
        assert s[i] == a[i] && a[i] in a;
      } else if i > |a| {
        assert s[i] == b[i - |a| - 1] && b[i - |a| - 1] in b;
      }
    }
  }

  lemma KeysOfAt(s: seq<(int, string)>, i: int)
    ensures 0 <= i < |s| ==> s[i].0 in KeysOf(s)
  {
    if 0 <= i < |s| {
      assert s[i] in s;
    }
  }

  /** An entry whose key occurs nowhere else sits at one position only, so
      the parts before and after it are determined. */
  lemma SplitUnique(a: seq<(int, string)>, m: (int, string), b: seq<(int, string)>,
                    c: seq<(int, string)>, d: seq<(int, string)>)
    requires m.0 !in KeysOf(a) && m.0 !in KeysOf(b) && a + [m] + b == c + [m] + d
    ensures a == c && b == d
  {
    var s := a + [m] + b;
    KeysOfAt(a, |c|);
    KeysOfAt(b, |c| - |a| - 1);
    assert (c + [m] + d)[|c|] == m;
    assert a == s[..|a|] && c == (c + [m] + d)[..|c|];
    assert b == s[|a| + 1..] && d == (c + [m] + d)[|c| + 1..];
  }

  lemma KeysOfCons(x: (int, string), r: seq<(int, string)>)
    ensures KeysOf([x] + r) == {x.0} + KeysOf(r)
  {
    KeysOfJoin([], x, r);
    assert [] + [x] + r == [x] + r;
  }

  /** `delete` of a root with two children: after the left subtree's
      maximum has been splayed to the top, the old right subtree is hung
      under it. The entries are the old ones without the deleted root. */
  lemma JoinAtMax(t: Tree, u: Tree)
    requires t.Node? && t.left.Node?
    requires Rightmost(t.left).0 !in KeysOf(Entries(DropRightmost(t.left)))
    requires Rightmost(t.left).0 != t.key && Rightmost(t.left).0 !in KeysOf(Entries(t.right))
    requires u.Node? && Entries(u) == Entries(t) && (u.key, u.value) == Rightmost(t.left)
    ensures Entries(Node(u.left, u.key, u.value, t.right)) == Entries(t.left) + Entries(t.right)
  {
    var m, x := Rightmost(t.left), (t.key, t.value);
    var a, l, r := Entries(DropRightmost(t.left)), Entries(t.left), Entries(t.right);
    var ul, ur := Entries(u.left), Entries(u.right);
    KeysOfCons(x, r);
    DropRightmostEntries(t.left);
    JoinSeq(a, m, x, r, ul, ur, l, Entries(t));
  }

  /** The sequence step of `JoinAtMax`. */
  lemma JoinSeq(a: seq<(int, string)>, m: (int, string), x: (int, string), r: seq<(int, string)>,
                ul: seq<(int, string)>, ur: seq<(int, string)>, l: seq<(int, string)>, e: seq<(int, string)>)
    requires m.0 !in KeysOf(a) && m.0 !in KeysOf([x] + r)
    requires l == a + [m] && e == l + [x] + r && e == ul + [m] + ur
    ensures ul + [m] + r == l + r
  {
    assert e == a + [m] + ([x] + r);
    SplitUnique(a, m, [x] + r, ul, ur);
  }

  /** In a search tree the left subtree's maximum key occurs neither among
      the rest of the left subtree nor at or right of the root. */
  lemma MaxApart(t: Tree)
    requires Bst(t) && t.Node? && t.left.Node?
    ensures Rightmost(t.left).0 !in KeysOf(Entries(DropRightmost(t.left)))
    ensures Rightmost(t.left).0 < t.key && Rightmost(t.left).0 !in KeysOf(Entries(t.right))
  {
    DropRightmostFacts(t.left, t.key);
    KeysOfEntries(DropRightmost(t.left));
    KeysOfEntries(t.right);
  }

  /** One round of the `_search` loop keeps its invariant. */
  lemma DescendStep(t: Tree, p: seq<Dir>, cur: Tree, key: int, d: Dir)
    requires cur.Node? && key != cur.key && d == (if key < cur.key then Left else Right)
    requires At(t, p) == cur && Descend(t, key) == p + Descend(cur, key)
    ensures At(t, p + [d]) == Child(cur, d) && Descend(t, key) == (p + [d]) + Descend(Child(cur, d), key)
  {
    AtJoin(t, p, [d]);
    AtOne(cur, d);
    DescendUnfold(cur, key, d);
    Regroup(p, d, Descend(Child(cur, d), key));
  }

  lemma Regroup(p: seq<Dir>, d: Dir, q: seq<Dir>)
    ensures p + ([d] + q) == (p + [d]) + q
  {
  }

  /** Away from the key, the walk takes one step in the direction of the
      comparison and goes on from the child. */
  lemma DescendUnfold(cur: Tree, key: int, d: Dir)
    requires cur.Node? && key != cur.key && d == (if key < cur.key then Left else Right)
    ensures Descend(cur, key) == [d] + Descend(Child(cur, d), key)
  {
  }

  /** The node `_splay_search` splays: the one holding `key` or, when there
      is none, the last node the walk passed. */
  function SearchPath(t: Tree, key: int): (p: seq<Dir>)
    requires t.Node?
    ensures At(t, p).Node?
  {
    DescendPath(t, key);
    var q := Descend(t, key);
    if At(t, q).Node? then q
    else
      OnTreePrev(t, q);
      q[..|q| - 1]
  }

  /** `_search`: the loop keeps the path from the start node to `cur`. */
  method Walk(t: Tree, key: int) returns (p: seq<Dir>)
    ensures p == Descend(t, key)
  {
    p := [];
    var cur := t;
    while cur.Node? && key != cur.key
      invariant At(t, p) == cur && Descend(t, key) == p + Descend(cur, key)
      decreases cur
    {
      var d := if key < cur.key then Left else Right;
      DescendStep(t, p, cur, key, d);
      p := p + [d];
      cur := if d == Left then cur.left else cur.right;
    }
  }

  /** `splay`: while the node has a parent, one single rotation if the
      parent is the top, otherwise a double rotation at the grandparent. */
  method Splay(t: Tree, p: seq<Dir>) returns (r: Tree)
    requires At(t, p).Node?
    ensures r == Splayed(t, p)
  {
    r := t;
    var q := p;
    while |q| > 0
      invariant At(r, q).Node? && Splayed(r, q) == Splayed(t, p)
      decreases |q|
    {
      if |q| == 1 {
        AtOne(r, q[0]);
        assert q == [q[0]];
        r := Zig(r, q[0]);
        q := [];
      } else {
        var g, d1, d2 := q[..|q| - 2], q[|q| - 2], q[|q| - 1];
        SplayRound(r, q);
        r := Graft(r, g, Twist(At(r, g), d1, d2));
        q := g;
      }
    }
  }

  class SplayTree {
    var root: Tree

    ghost predicate Valid()
      reads this
    {
      Bst(root)
    }

    constructor ()
      ensures Valid() && root == Nil
    {
      root := Nil;
    }

    /** `_splay_search`: splays the node holding `key` or, when there is
        none, the last node the walk passed. `splay(None)` fails on an empty
        tree, so the tree must not be empty. */
    method SplaySearch(key: int) returns (found: bool)
      requires Valid() && root.Node?
      modifies this
      ensures Valid() && Entries(root) == old(Entries(root)) && root.Node?
      ensures root == Splayed(old(root), SearchPath(old(root), key))
      ensures old(Find(root, key)) == if found then Some(root.value) else None
      ensures found <==> root.key == key
    {
      ghost var t := root;
      var p := Walk(root, key);
      DescendFinds(root, key);
      DescendPath(root, key);
      found := At(root, p).Node?;
      if found {
        root := Splay(root, p);
      } else {
        OnTreePrev(root, p);
        root := Splay(root, p[..|p| - 1]);
      }
      SameEntries(t, root, key);
      FindKeys(root, key);
    }

    /** `search`: the value under `key`, or none. */
    method Search(key: int) returns (v: Option<string>)
      requires Valid() && root.Node?
      modifies this
      ensures Valid() && Entries(root) == old(Entries(root))
      ensures root == Splayed(old(root), SearchPath(old(root), key))
      ensures v == old(Find(root, key))
    {
      var found := SplaySearch(key);
      v := if found then Some(root.value) else None;
    }

    /** `insert` through `_insert`: a new key hangs a leaf at the slot the
        walk falls off at; a stored key keeps its value and `false` is
        answered. Either way the node is splayed to the root. */
    method Insert(key: int, value: string) returns (inserted: bool)
      requires Valid()
      modifies this
      ensures Valid() && root.Node? && root.key == key
      ensures inserted <==> key !in old(Keys(root))
      ensures Entries(root) == Entries(if inserted then BinaryTrees.Insert(old(root), key, value) else old(root))
    {
      ghost var t := root;
      var p := Walk(root, key);
      DescendFinds(root, key);
      DescendPath(root, key);
      FindKeys(root, key);
      inserted := At(root, p).Nil?;
      if inserted {
        var leaf := Node(Nil, key, value, Nil);
        DescendInsert(root, key, value);
        GraftAt(root, p, leaf);
        InsertFacts(root, key, value, key);
        root := Graft(root, p, leaf);
      }
      ghost var u := root;
      root := Splay(root, p);
      SameEntries(u, root, key);
    }

    /** `set`: splays as `search` does and replaces the value of a stored
        key; an absent key or an empty tree answers `false`. */
    method Set(key: int, value: string) returns (ok: bool)
      requires Valid()
      modifies this
      ensures Valid() && (ok <==> key in old(Keys(root)))
      ensures Entries(root) == if ok then Rewrite(old(Entries(root)), key, value) else old(Entries(root))
    {
      if root == Nil {
        return false;
      }
      ghost var t := root;
      ok := SplaySearch(key);
      FindKeys(t, key);
      if ok {
        KeysOfEntries(root.left);
        KeysOfEntries(root.right);
        RewriteMiddle(Entries(root.left), (root.key, root.value), Entries(root.right), value);
        root := Node(root.left, root.key, value, root.right);
      }
    }

    /** `delete`: splays as `search` does; a root without a left (right)
        child is replaced by the other child, otherwise the left subtree's
        maximum is splayed to the top and takes the old right subtree. */
    method Delete(key: int) returns (ok: bool)
      requires Valid()
      modifies this
      ensures Valid() && (ok <==> key in old(Keys(root)))
      ensures Entries(root) == if ok then Without(old(Entries(root)), key) else old(Entries(root))
    {
      if root == Nil {
        return false;
      }
      ghost var t := root;
      ok := SplaySearch(key);
      FindKeys(t, key);
      if !ok {
        return;
      }
      ghost var x := root;
      KeysOfEntries(x.left);
      KeysOfEntries(x.right);
      WithoutMiddle(Entries(x.left), (x.key, x.value), Entries(x.right));
      if root.left.Nil? {
        root := root.right;
      } else if root.right.Nil? {
        root := root.left;
      } else {
        var b := root.right;
        var q := MaxPath(root.left);
        AtJoin(root, [Left], q);
        AtOne(root, Left);
        root := Splay(root, [Left] + q);
        MaxApart(x);
        JoinAtMax(x, root);
        root := Node(root.left, root.key, root.value, b);
      }
      WithoutFacts(x, root, key, key);
    }

    /** `min`: splays the leftmost node and answers its entry; none for an
        empty tree. */
    method Min() returns (r: Option<(int, string)>)
      requires Valid()
      modifies this
      ensures Valid() && Entries(root) == old(Entries(root))
      ensures r == if old(root).Nil? then None else Some(Leftmost(old(root)))
      ensures old(root).Node? ==> root == Splayed(old(root), Spine(old(root), Left))
      ensures r.Some? ==> (root.key, root.value) == r.value
    {
      if root == Nil {
        return None;
      }
      ghost var t := root;
      var p := MinPath(root);
      root := Splay(root, p);
      SameEntries(t, root, 0);
      r := Some((root.key, root.value));
    }

    /** `max`: splays the rightmost node and answers its entry. */
    method Max() returns (r: Option<(int, string)>)
      requires Valid()
      modifies this
      ensures Valid() && Entries(root) == old(Entries(root))
      ensures r == if old(root).Nil? then None else Some(Rightmost(old(root)))
      ensures old(root).Node? ==> root == Splayed(old(root), Spine(old(root), Right))
      ensures r.Some? ==> (root.key, root.value) == r.value
    {
      if root == Nil {
        return None;
      }
      ghost var t := root;
      var p := MaxPath(root);
      root := Splay(root, p);
      SameEntries(t, root, 0);
      r := Some((root.key, root.value));
    }
  }
}
