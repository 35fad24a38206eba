/** `SplayTree` of module_2/B/m2_taskB_2.py, where the tree a caller holds
    is one node object (the receiver). Rotations are static and relink
    `parent`/`left`/`right`, but nothing ever re-points the caller's handle:
    after a splay the receiver may sit anywhere in the structure, and
    `insert`, `min` and `max` start from it. The model keeps the whole
    structure (`top`, the node without a parent) and the receiver's key,
    which no other node ever holds. */
module NodeSplayTrees {
  import opened Wrappers
  import opened SearchTrees
  import opened BinaryTrees
  import opened SplayTrees

  /** The keys of the tree, with multiplicity. */
  function Bag(t: Tree): multiset<int> {
    match t
    case Nil => multiset{}
    case Node(l, k, _, r) => Bag(l) + multiset{k} + Bag(r)
  }

  /** The keys of a sequence of entries, with multiplicity. */
  function SeqBag(s: seq<(int, string)>): multiset<int> {
    if s == [] then multiset{} else multiset{s[0].0} + SeqBag(s[1..])
  }

  lemma {:induction false} SeqBagJoin(a: seq<(int, string)>, b: seq<(int, string)>)
    ensures SeqBag(a + b) == SeqBag(a) + SeqBag(b)
    decreases |a|
  {
    if a == [] {
      assert a + b == b;
    } else {
      assert (a + b)[0] == a[0] && (a + b)[1..] == a[1..] + b;
      SeqBagJoin(a[1..], b);
    }
  }

  /** The key bag is read off the in-order entries, so rotations and splays
      keep it. */
  lemma {:induction false} BagEntries(t: Tree)
    ensures Bag(t) == SeqBag(Entries(t))
  {
    match t
    case Nil =>
    case Node(l, k, v, r) =>
      BagEntries(l);
      BagEntries(r);
      SeqBagJoin(Entries(l) + [(k, v)], Entries(r));
      SeqBagJoin(Entries(l), [(k, v)]);
      assert [(k, v)][1..] == [];
  }

  /** Grafting trades the keys of the replaced subtree for those of the new
      one. */
  lemma {:induction false} GraftBag(t: Tree, p: seq<Dir>, s: Tree)
    requires OnTree(t, p)
    ensures Bag(Graft(t, p, s)) + Bag(At(t, p)) == Bag(t) + Bag(s)
    decreases |p|
  {
    if p != [] {
      var c := Child(t, p[0]);
      var g := Graft(c, p[1..], s);
      GraftBag(c, p[1..], s);
      assert At(t, p) == At(c, p[1..]);
      if p[0] == Left {
        assert Graft(t, p, s) == Node(g, t.key, t.value, t.right);
        Trade(Bag(g), Bag(At(c, p[1..])), Bag(c), Bag(s), Bag(t.right), t.key);
      } else {
        assert Graft(t, p, s) == Node(t.left, t.key, t.value, g);
        Trade(Bag(g), Bag(At(c, p[1..])), Bag(c), Bag(s), Bag(t.left), t.key);
      }
    }
  }

  /** One level of `GraftBag`: a child trading `gone` for `s` makes its
      parent trade them too, on either side of the parent's key. */
  lemma Trade(now: multiset<int>, gone: multiset<int>, was: multiset<int>, s: multiset<int>, other: multiset<int>, k: int)
    requires now + gone == was + s
    ensures now + multiset{k} + other + gone == was + multiset{k} + other + s
    ensures other + multiset{k} + now + gone == other + multiset{k} + was + s
  {
    forall x
      ensures (now + multiset{k} + other + gone)[x] == (was + multiset{k} + other + s)[x]
      ensures (other + multiset{k} + now + gone)[x] == (other + multiset{k} + was + s)[x]
    {
      assert (now + gone)[x] == (was + s)[x];
    }
  }

  /** The first node holding `k`, in pre-order: left subtree before right. */
  function Home(t: Tree, k: int): Option<seq<Dir>> {
    match t
    case Nil => None
    case Node(l, key, _, r) =>
      if key == k then Some([])
      else match Home(l, k)
        case Some(p) => Some([Left] + p)
        case None =>
          match Home(r, k)
          case Some(p) => Some([Right] + p)
          case None => None
  }

  /** A key that occurs is found, at a node holding it. */
  lemma {:induction false} HomeFound(t: Tree, k: int)
    requires k in Bag(t)
    ensures Home(t, k).Some? && At(t, Home(t, k).value).Node? && At(t, Home(t, k).value).key == k
  {
    match t
    case Node(l, key, _, r) =>
      if key != k {
        if k in Bag(l) {
          HomeFound(l, k);
          var p := Home(l, k).value;
          assert ([Left] + p)[0] == Left && ([Left] + p)[1..] == p;
        } else {
          HomeFound(r, k);
          var p := Home(r, k).value;
          assert Home(l, k).None? by {
            if Home(l, k).Some? {
              HomeSome(l, k);
            }
          }
          assert ([Right] + p)[0] == Right && ([Right] + p)[1..] == p;
        }
      }
  }

  /** Only a key that occurs is found. */
  lemma {:induction false} HomeSome(t: Tree, k: int)
    requires Home(t, k).Some?
    ensures k in Bag(t)
  {
    match t
    case Node(l, key, _, r) =>
      if key != k {
        if Home(l, k).Some? {
          HomeSome(l, k);
        } else {
          HomeSome(r, k);
        }
      }
  }

  lemma {:induction false} OnTreeJoin(t: Tree, a: seq<Dir>, b: seq<Dir>)
    requires OnTree(t, a) && At(t, a).Node? && OnTree(At(t, a), b)
    ensures OnTree(t, a + b)
    decreases |a|
  {
    if a == [] {
      assert a + b == b;
    } else {
      assert (a + b)[0] == a[0] && (a + b)[1..] == a[1..] + b;
      OnTreeJoin(Child(t, a[0]), a[1..], b);
    }
  }

  /** The path from the top through the receiver, holding `home`, to where
      a walk for `key` started at the receiver stops. */
  function ReceiverWalk(top: Tree, home: int, key: int): (p: seq<Dir>)
    requires home in Bag(top)
    ensures OnTree(top, p) && (At(top, p).Nil? || At(top, p).key == key)
    ensures key == home ==> At(top, p).Node?
  {
    HomeFound(top, home);
    var h := Home(top, home).value;
    var q := Descend(At(top, h), key);
    AtOnTree(top, h);
    DescendPath(At(top, h), key);
    OnTreeJoin(top, h, q);
    AtJoin(top, h, q);
    h + q
  }

  /** `insert` as written on a receiver holding `home`: the walk starts at
      the receiver; a key it finds is splayed and answered `false`, a key
      it misses hangs a new leaf where the walk falls off, which is then
      splayed. */
  function InsertFrom(top: Tree, home: int, key: int, value: string): (r: (Tree, bool))
    requires home in Bag(top)
    ensures r.0.Node? && r.0.key == key && (r.1 ==> r.0.value == value)
  {
    var p := ReceiverWalk(top, home, key);
    if At(top, p).Node? then (Splayed(top, p), false)
    else
      var leaf := Node(Nil, key, value, Nil);
      GraftAt(top, p, leaf);
      (Splayed(Graft(top, p, leaf), p), true)
  }

  /** The as-written insert brings the key to the top, gains exactly that
      key when it answers `true`, and changes no entry when it answers
      `false`; the receiver's key never gains a second copy. */
  lemma InsertFromFacts(top: Tree, home: int, key: int, value: string)
    requires home in Bag(top)
    ensures var (t, inserted) := InsertFrom(top, home, key, value);
      t.Node? && t.key == key && (inserted ==> t.value == value) &&
      Bag(t) == Bag(top) + (if inserted then multiset{key} else multiset{}) &&
      (inserted ==> key != home) &&
      (!inserted ==> Entries(t) == Entries(top))
  {
    var p := ReceiverWalk(top, home, key);
    if At(top, p).Node? {
      assert InsertFrom(top, home, key, value) == (Splayed(top, p), false);
      SplayedBag(top, p);
    } else {
      var leaf := Node(Nil, key, value, Nil);
      GraftAt(top, p, leaf);
      assert InsertFrom(top, home, key, value) == (Splayed(Graft(top, p, leaf), p), true);
      GraftLeafSplayed(top, p, key, value);
    }
  }

  /** Hanging a new leaf and splaying it gains exactly its key. */
  lemma GraftLeafSplayed(t: Tree, p: seq<Dir>, key: int, value: string)
    requires OnTree(t, p) && At(t, p).Nil?
    ensures var leaf := Node(Nil, key, value, Nil);
      At(Graft(t, p, leaf), p) == leaf &&
      Bag(Splayed(Graft(t, p, leaf), p)) == Bag(t) + multiset{key}
  {
    var leaf := Node(Nil, key, value, Nil);
    GraftAt(t, p, leaf);
    GraftBag(t, p, leaf);
    assert Bag(At(t, p)) == multiset{};
    assert Bag(leaf) == multiset{key};
    SplayedBag(Graft(t, p, leaf), p);
  }

  /** A splay keeps the key bag. */
  lemma SplayedBag(t: Tree, p: seq<Dir>)
    requires At(t, p).Node?
    ensures Bag(Splayed(t, p)) == Bag(t)
  {
    BagEntries(t);
    BagEntries(Splayed(t, p));
  }

  /** Two inserts into a tree holding 8: the first 4 rises above the
      receiver 8, so the walk for the second 4 starts below it, misses the
      stored 4 and answers `true`. The tree then holds 4 twice and is no
      longer a search tree. */
  lemma StaleReceiverDuplicates()
    ensures var t1 := Node(Nil, 8, "a", Nil);
      var t2 := InsertFrom(t1, 8, 4, "b");
      var t3 := InsertFrom(t2.0, 8, 4, "c");
      t2.1 && Bst(t2.0) && t3.1 && Bag(t3.0)[4] == 2 && !Bst(t3.0)
  {
    var t1 := Node(Nil, 8, "a", Nil);
    StaleFirstInsert();
    StaleSecondInsert();
    var t3 := Node(Node(Nil, 4, "b", Nil), 4, "c", t1);
    assert Keys(t1) == {8};
    assert Bst(Node(Nil, 4, "b", t1));
    assert 4 in Keys(Node(Nil, 4, "b", Nil));
    assert Bag(t3) == multiset{4} + multiset{4} + multiset{8};
  }

  /** The first insert of StaleReceiverDuplicates: 4 hangs left of 8 and
      rises to the top. */
  lemma StaleFirstInsert()
    ensures InsertFrom(Node(Nil, 8, "a", Nil), 8, 4, "b") == (Node(Nil, 4, "b", Node(Nil, 8, "a", Nil)), true)
  {
    var t1 := Node(Nil, 8, "a", Nil);
    assert Home(t1, 8) == Some([]);
    assert Descend(t1, 4) == [Left] + Descend(Nil, 4) == [Left];
    assert ReceiverWalk(t1, 8, 4) == [Left];
    assert At(t1, [Left]) == Nil;
    var g1 := Node(Node(Nil, 4, "b", Nil), 8, "a", Nil);
    assert Graft(t1, [Left], Node(Nil, 4, "b", Nil)) == g1;
    assert Splayed(g1, [Left]) == Node(Nil, 4, "b", t1);
  }

  /** The second insert of StaleReceiverDuplicates: the walk starts at 8,
      below the stored 4, and hangs a second 4. */
  lemma StaleSecondInsert()
    ensures var t1 := Node(Nil, 8, "a", Nil);
      InsertFrom(Node(Nil, 4, "b", t1), 8, 4, "c") == (Node(Node(Nil, 4, "b", Nil), 4, "c", t1), true)
  {
    var t1 := Node(Nil, 8, "a", Nil);
    var u := Node(Nil, 4, "b", t1);
    assert Home(Nil, 8) == None;
    assert [Right] + [] == [Right];
    assert Home(u, 8) == Some([Right]);
    assert At(u, [Right]) == t1;
    assert Descend(t1, 4) == [Left] + Descend(Nil, 4) == [Left];
    assert [Right] + [Left] == [Right, Left];
    assert ReceiverWalk(u, 8, 4) == [Right, Left];
    assert At(u, [Right, Left]) == Nil;
    var g2 := Node(Nil, 4, "b", Node(Node(Nil, 4, "c", Nil), 8, "a", Nil));
    assert Graft(u, [Right, Left], Node(Nil, 4, "c", Nil)) == g2;
    assert Splayed(g2, [Right, Left]) == Node(Node(Nil, 4, "b", Nil), 4, "c", t1);
  }

  /** The evidently intended insert: the walk starts at the top, as
      `self.root` does in module_2/B/m2_taskB.py. */
  function InsertFromTop(top: Tree, key: int, value: string): (r: (Tree, bool))
    ensures r.0.Node? && r.0.key == key && (r.1 ==> r.0.value == value)
  {
    var p := Descend(top, key);
    DescendPath(top, key);
    if At(top, p).Node? then (Splayed(top, p), false)
    else
      var leaf := Node(Nil, key, value, Nil);
      GraftAt(top, p, leaf);
      (Splayed(Graft(top, p, leaf), p), true)
  }

  /** Walking from the top keeps the search-tree order, answers `true`
      exactly for a new key, and stores the entries of the search-tree
      insert; a stored key keeps its value. */
  lemma InsertFromTopFacts(top: Tree, key: int, value: string)
    requires Bst(top)
    ensures var (t, inserted) := InsertFromTop(top, key, value);
      Bst(t) && t.Node? && t.key == key && (inserted <==> key !in Keys(top)) &&
      Entries(t) == Entries(if inserted then BinaryTrees.Insert(top, key, value) else top)
  {
    var p := Descend(top, key);
    DescendPath(top, key);
    DescendFinds(top, key);
    FindKeys(top, key);
    var (t, inserted) := InsertFromTop(top, key, value);
    if inserted {
      DescendInsert(top, key, value);
      InsertFacts(top, key, value, key);
      SameEntries(BinaryTrees.Insert(top, key, value), t, key);
    } else {
      SameEntries(top, t, key);
    }
  }

  /** The path from the top through the receiver, holding `home`, to the
      end of the chain of `d` links below it: the node `min` (`d` left) or
      `max` (`d` right) splays. */
  function ChainEnd(top: Tree, home: int, d: Dir): (p: seq<Dir>)
    requires home in Bag(top)
    ensures At(top, p).Node? && Child(At(top, p), d).Nil?
  {
    HomeFound(top, home);
    var h := Home(top, home).value;
    var q := Spine(At(top, h), d);
    AtJoin(top, h, q);
    h + q
  }

  class SplayNode {
    /** The whole structure the receiver belongs to. */
    var top: Tree
    /** The receiver's key; none while the receiver is empty. */
    var home: Option<int>

    ghost predicate Valid()
      reads this
    {
      match home
      case None => top == Nil
      case Some(k) => Bag(top)[k] == 1
    }

    /** The receiver: the one node holding its key. */
    function Receiver(): (r: Tree)
      requires Valid() && home.Some?
      reads this
      ensures r.Node? && r.key == home.value
    {
      HomeFound(top, home.value);
      At(top, Home(top, home.value).value)
    }

    constructor ()
      ensures Valid() && top == Nil && home == None
    {
      top := Nil;
      home := None;
    }

    /** `empty`: the receiver holds no key, which happens only while the
        whole structure is empty. */
    method Empty() returns (e: bool)
      requires Valid()
      ensures e <==> top == Nil
    {
      e := home.None?;
    }

    /** `insert` (the `SplayTree` override of `BinaryTree.insert`): an empty
        receiver takes the entry itself; otherwise the walk starts at the
        receiver, and the node found or added is splayed to the top. */
    method Insert(key: int, value: string) returns (inserted: bool)
      requires Valid()
      modifies this
      ensures Valid() && top.Node? && top.key == key
      ensures old(home).None? ==> inserted && top == Node(Nil, key, value, Nil) && home == Some(key)
      ensures old(home).Some? ==> home == old(home) && (top, inserted) == InsertFrom(old(top), old(home).value, key, value)
      ensures Bag(top) == old(Bag(top)) + (if inserted then multiset{key} else multiset{})
      ensures !inserted ==> Entries(top) == old(Entries(top))
    {
      if home.None? {
        top := Node(Nil, key, value, Nil);
        home := Some(key);
        return true;
      }
      ghost var t0 := top;
      ghost var res := InsertFrom(top, home.value, key, value);
      InsertFromFacts(top, home.value, key, value);
      HomeFound(top, home.value);
      var h := Home(top, home.value).value;
      var q := Walk(At(top, h), key);
      var p := h + q;
      assert p == ReceiverWalk(top, home.value, key);
      inserted := At(top, p).Nil?;
      if inserted {
        var leaf := Node(Nil, key, value, Nil);
        GraftAt(top, p, leaf);
        top := Graft(top, p, leaf);
      }
      top := Splay(top, p);
      assert (top, inserted) == res;
    }

    /** `min`: the end of the left chain below the receiver, splayed to the
        top; an empty receiver answers none. */
    method Min() returns (r: Option<(int, string)>)
      requires Valid()
      modifies this
      ensures Valid() && home == old(home) && Entries(top) == old(Entries(top))
      ensures r == if old(home).None? then None else Some(Leftmost(old(Receiver())))
      ensures old(home).Some? ==> top == Splayed(old(top), ChainEnd(old(top), old(home).value, Left))
      ensures r.Some? ==> (top.key, top.value) == r.value
    {
      if home.None? {
        return None;
      }
      ghost var t0 := top;
      HomeFound(top, home.value);
      var h := Home(top, home.value).value;
      var q := MinPath(At(top, h));
      AtJoin(top, h, q);
      r := Some((At(top, h + q).key, At(top, h + q).value));
      top := Splay(top, h + q);
      BagEntries(t0);
      BagEntries(top);
    }

    /** `max`: the end of the right chain below the receiver, splayed to the
        top. */
    method Max() returns (r: Option<(int, string)>)
      requires Valid()
      modifies this
      ensures Valid() && home == old(home) && Entries(top) == old(Entries(top))
      ensures r == if old(home).None? then None else Some(Rightmost(old(Receiver())))
      ensures old(home).Some? ==> top == Splayed(old(top), ChainEnd(old(top), old(home).value, Right))
      ensures r.Some? ==> (top.key, top.value) == r.value
    {
      if home.None? {
        return None;
      }
      ghost var t0 := top;
      HomeFound(top, home.value);
      var h := Home(top, home.value).value;
      var q := MaxPath(At(top, h));
      AtJoin(top, h, q);
      r := Some((At(top, h + q).key, At(top, h + q).value));
      top := Splay(top, h + q);
      BagEntries(t0);
      BagEntries(top);
    }
  }
}
