/** `BinaryTree` of module_2/B/m2_taskB.hpp: an unbalanced binary search
    tree of key/value nodes. Every operation walks down from the root by key
    comparison (`SearchPlaceForKey`) and acts through callbacks on the nodes
    it passes. The tree is held as a value; the relinking of a parent's child
    pointer becomes rebuilding the parent node. */
module BinaryTrees {
  import opened Wrappers
  import opened SearchTrees

  /** `Add`: the walk's left and right callbacks hang a new node on the
      first empty child slot they pass, and the equal callback overwrites
      the value of a stored key. */
  function Insert(t: Tree, key: int, value: string): (r: Tree)
    ensures Keys(r) == Keys(t) + {key}
  {
    match t
    case Nil => Node(Nil, key, value, Nil)
    case Node(l, k, v, rt) =>
      if key < k then Node(Insert(l, key, value), k, v, rt)
      else if key > k then Node(l, k, v, Insert(rt, key, value))
      else Node(l, k, value, rt)
  }

  /** `Add` keeps the search-tree order, makes `key` find `value` and leaves
      every other key's value alone; a new key adds one node, a stored key
      none. */
  lemma {:induction false} InsertFacts(t: Tree, key: int, value: string, k: int)
    requires Bst(t)
    ensures Bst(Insert(t, key, value))
    ensures Find(Insert(t, key, value), k) == if k == key then Some(value) else Find(t, k)
    ensures Size(Insert(t, key, value)) == if key in Keys(t) then Size(t) else Size(t) + 1
  {
    match t
    case Nil =>
    case Node(l, kk, v, rt) =>
      if key < kk {
        InsertFacts(l, key, value, k);
      } else if key > kk {
        InsertFacts(rt, key, value, k);
      }
  }

  /** `Set`: only the equal callback, so an absent key changes nothing. */
  function Update(t: Tree, key: int, value: string): (r: Tree)
    ensures Keys(r) == Keys(t) && Size(r) == Size(t)
  {
    match t
    case Nil => Nil
    case Node(l, k, v, rt) =>
      if key < k then Node(Update(l, key, value), k, v, rt)
      else if key > k then Node(l, k, v, Update(rt, key, value))
      else Node(l, k, value, rt)
  }

  /** `Set` keeps the order, gives a stored `key` the new value, and leaves
      everything else, and a tree without `key`, unchanged. */
  lemma {:induction false} UpdateFacts(t: Tree, key: int, value: string, k: int)
    requires Bst(t)
    ensures Bst(Update(t, key, value))
    ensures Find(Update(t, key, value), k) ==
      if k == key && key in Keys(t) then Some(value) else Find(t, k)
    ensures key !in Keys(t) ==> Update(t, key, value) == t
  {
    match t
    case Nil =>
    case Node(l, kk, v, rt) =>
      if key < kk {
        UpdateFacts(l, key, value, k);
      } else if key > kk {
        UpdateFacts(rt, key, value, k);
      }
  }

  /** `Node::Max`, and the loop of `Max`: the end of the chain of right
      children. */
  function Rightmost(t: Tree): (m: (int, string))
    requires t.Node?
    ensures m.0 in Keys(t)
  {
    if t.right.Nil? then (t.key, t.value) else Rightmost(t.right)
  }

  /** `Min`'s loop: the end of the chain of left children. */
  function Leftmost(t: Tree): (m: (int, string))
    requires t.Node?
    ensures m.0 in Keys(t)
  {
    if t.left.Nil? then (t.key, t.value) else Leftmost(t.left)
  }

  /** The end of the right chain holds the largest key, with its value. */
  lemma {:induction false} RightmostMax(t: Tree)
    requires t.Node? && Bst(t)
    ensures Rightmost(t).0 in Keys(t) && Find(t, Rightmost(t).0) == Some(Rightmost(t).1)
    ensures forall k :: k in Keys(t) ==> k <= Rightmost(t).0
  {
    if t.right.Node? {
      RightmostMax(t.right);
    }
  }

  /** The end of the left chain holds the smallest key, with its value. */
  lemma {:induction false} LeftmostMin(t: Tree)
    requires t.Node? && Bst(t)
    ensures Leftmost(t).0 in Keys(t) && Find(t, Leftmost(t).0) == Some(Leftmost(t).1)
    ensures forall k :: k in Keys(t) ==> Leftmost(t).0 <= k
  {
    if t.left.Node? {
      LeftmostMin(t.left);
    }
  }

  /** Unlinking the rightmost node: its parent's right slot takes its left
      child (the `maxNode->left` relink of `Delete`). */
  function DropRightmost(t: Tree): (r: Tree)
    requires t.Node?
    ensures Keys(r) <= Keys(t)
  {
    if t.right.Nil? then t.left else Node(t.left, t.key, t.value, DropRightmost(t.right))
  }

  /** Unlinking the rightmost node removes exactly its entry from the end of
      the in-order entries. */
  lemma {:induction false} DropRightmostEntries(t: Tree)
    requires t.Node?
    ensures Entries(DropRightmost(t)) + [Rightmost(t)] == Entries(t)
  {
    if t.right.Node? {
      DropRightmostEntries(t.right);
    }
  }

  /** In a search tree, unlinking the rightmost node keeps the order and
      every other key's value. */
  lemma {:induction false} DropRightmostFacts(t: Tree, k: int)
    requires t.Node? && Bst(t)
    ensures Bst(DropRightmost(t)) && Keys(DropRightmost(t)) == Keys(t) - {Rightmost(t).0}
    ensures Find(DropRightmost(t), k) == if k == Rightmost(t).0 then None else Find(t, k)
  {
    if t.right.Nil? {
      FindKeys(t.left, k);
    } else {
      DropRightmostFacts(t.right, k);
    }
  }

  /** `Delete`'s equal callback as written: a node with two children takes
      the key of its left subtree's maximum but keeps its own value, and the
      maximum node is unlinked; a node with one child is replaced by it; a
      leaf is removed. */
  function Remove(t: Tree, key: int): (r: Tree)
    ensures Keys(r) <= Keys(t)
  {
    match t
    case Nil => Nil
    case Node(l, k, v, rt) =>
      if key < k then Node(Remove(l, key), k, v, rt)
      else if key > k then Node(l, k, v, Remove(rt, key))
      else if l.Node? && rt.Node? then Node(DropRightmost(l), Rightmost(l).0, v, rt)
      else if l.Node? then l
      else rt
  }

  /** The key whose entry `Remove` rewrites: the left-subtree maximum of the
      two-child node holding `key`. */
  function Displaced(t: Tree, key: int): (d: Option<int>)
    ensures d.Some? ==> d.value in Keys(t)
  {
    match t
    case Nil => None
    case Node(l, k, _, rt) =>
      if key < k then Displaced(l, key)
      else if key > k then Displaced(rt, key)
      else if l.Node? && rt.Node? then Some(Rightmost(l).0)
      else None
  }

  /** `Delete` as written removes exactly `key` and keeps the search-tree
      order. */
  lemma {:induction false} RemoveOrder(t: Tree, key: int)
    requires Bst(t)
    ensures Bst(Remove(t, key)) && Keys(Remove(t, key)) == Keys(t) - {key}
  {
    match t
    case Nil =>
    case Node(l, kk, v, rt) =>
      if key < kk {
        RemoveOrder(l, key);
      } else if key > kk {
        RemoveOrder(rt, key);
      } else if l.Node? && rt.Node? {
        DropRightmostFacts(l, key);
        RightmostMax(l);
      }
  }

  /** After `Delete` as written the key it moves up finds the deleted key's
      value; every other key keeps its own. */
  lemma {:induction false} RemoveFind(t: Tree, key: int, k: int)
    requires Bst(t)
    ensures Find(Remove(t, key), k) ==
      if k == key then None
      else if Displaced(t, key) == Some(k) then Find(t, key)
      else Find(t, k)
  {
    match t
    case Nil =>
    case Node(l, kk, v, rt) =>
      if key < kk {
        RemoveFind(l, key, k);
        RemoveFind(l, key, key);
      } else if key > kk {
        RemoveFind(rt, key, k);
        RemoveFind(rt, key, key);
      } else if l.Node? && rt.Node? {
        DropRightmostFacts(l, k);
        RightmostMax(l);
        FindKeys(l, k);
        FindKeys(rt, k);
      } else {
        FindKeys(l, k);
        FindKeys(rt, k);
      }
  }

  /** A tree that shows it: deleting 2 from 1 < 2 > 3 leaves key 1 holding
      the value that was 2's. */
  lemma DeleteMovesValue()
    ensures var t := Node(Node(Nil, 1, "a", Nil), 2, "b", Node(Nil, 3, "c", Nil));
      Find(t, 1) == Some("a") && Find(Remove(t, 2), 1) == Some("b")
  {
  }

  /** `Delete`'s equal callback with the evidently intended swap of the
      whole entry: the moved-up node takes the maximum's value too. */
  function RemoveEntry(t: Tree, key: int): (r: Tree)
    ensures Keys(r) <= Keys(t)
  {
    match t
    case Nil => Nil
    case Node(l, k, v, rt) =>
      if key < k then Node(RemoveEntry(l, key), k, v, rt)
      else if key > k then Node(l, k, v, RemoveEntry(rt, key))
      else if l.Node? && rt.Node? then Node(DropRightmost(l), Rightmost(l).0, Rightmost(l).1, rt)
      else if l.Node? then l
      else rt
  }

  /** The intended delete also removes exactly `key` and keeps the order. */
  lemma {:induction false} RemoveEntryOrder(t: Tree, key: int)
    requires Bst(t)
    ensures Bst(RemoveEntry(t, key)) && Keys(RemoveEntry(t, key)) == Keys(t) - {key}
  {
    match t
    case Nil =>
    case Node(l, kk, v, rt) =>
      if key < kk {
        RemoveEntryOrder(l, key);
      } else if key > kk {
        RemoveEntryOrder(rt, key);
      } else if l.Node? && rt.Node? {
        DropRightmostFacts(l, key);
        RightmostMax(l);
      }
  }

  /** The intended delete leaves every other key's value unchanged. */
  lemma {:induction false} RemoveEntryFind(t: Tree, key: int, k: int)
    requires Bst(t)
    ensures Find(RemoveEntry(t, key), k) == if k == key then None else Find(t, k)
  {
    match t
    case Nil =>
    case Node(l, kk, v, rt) =>
      if key < kk {
        RemoveEntryFind(l, key, k);
      } else if key > kk {
        RemoveEntryFind(rt, key, k);
      } else if l.Node? && rt.Node? {
        DropRightmostFacts(l, k);
        RightmostMax(l);
        FindKeys(l, k);
        FindKeys(rt, k);
      } else {
        FindKeys(l, k);
        FindKeys(rt, k);
      }
  }

  /** `Delete` dereferences the parent of the node it splices out; the root
      has none, so the root may only be deleted when it has two children. */
  predicate DeleteDefined(t: Tree, key: int) {
    t.Node? && t.key == key ==> t.left.Node? && t.right.Node?
  }

  class BinaryTree {
    var root: Tree

    ghost predicate Valid()
      reads this
    {
      Bst(root)
    }

    constructor ()
      ensures Valid() && root == Nil
    {
      root := Nil;
    }

    /** `SearchPlaceForKey` with only the equal callback: the loop goes left
        on a smaller key, right on a larger one, and stops at the key. */
    method SearchPlaceForKey(key: int) returns (found: Option<string>)
      ensures found == Find(root, key)
    {
      var current := root;
      while current.Node?
        invariant Find(current, key) == Find(root, key)
        decreases current
      {
        if key < current.key {
          current := current.left;
        } else if key > current.key {
          current := current.right;
        } else {
          return Some(current.value);
        }
      }
      return None;
    }

    /** `Search`: the equal callback's result is discarded, so the value is
        always the default one. */
    method Search(key: int) returns (r: string)
      ensures r == ""
    {
      var found := SearchPlaceForKey(key);
      return "";
    }

    method Add(key: int, value: string)
      requires Valid()
      modifies this
      ensures Valid() && root == Insert(old(root), key, value)
    {
      InsertFacts(root, key, value, key);
      root := Insert(root, key, value);
    }

    method Set(key: int, value: string)
      requires Valid()
      modifies this
      ensures Valid() && root == Update(old(root), key, value)
    {
      UpdateFacts(root, key, value, key);
      root := Update(root, key, value);
    }

    method Delete(key: int)
      requires Valid() && DeleteDefined(root, key)
      modifies this
      ensures Valid() && root == Remove(old(root), key)
    {
      if root == Nil {
        return;
      }
      RemoveOrder(root, key);
      root := Remove(root, key);
    }

    /** `Min`: follows left links from the root. The empty-tree guard has no
        `return`, so an empty tree is dereferenced; the tree must not be
        empty. */
    method Min() returns (r: (int, string))
      requires Valid() && root.Node?
      ensures r.0 in Keys(root) && Find(root, r.0) == Some(r.1)
      ensures forall k :: k in Keys(root) ==> r.0 <= k
    {
      var current := root;
      while current.left.Node?
        invariant current.Node? && Leftmost(current) == Leftmost(root)
        decreases current
      {
        current := current.left;
      }
      LeftmostMin(root);
      return (current.key, current.value);
    }

    /** `Max`: follows right links from the root; the same precondition as
        `Min`. */
    method Max() returns (r: (int, string))
      requires Valid() && root.Node?
      ensures r.0 in Keys(root) && Find(root, r.0) == Some(r.1)
      ensures forall k :: k in Keys(root) ==> k <= r.0
    {
      var current := root;
      while current.right.Node?
        invariant current.Node? && Rightmost(current) == Rightmost(root)
        decreases current
      {
        current := current.right;
      }
      RightmostMax(root);
      return (current.key, current.value);
    }

    method Empty() returns (e: bool)
      ensures e <==> root == Nil
    {
      return root == Nil;
    }
  }
}
