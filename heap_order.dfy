/** Facts shared by the two binary min-heaps of module_2 (`MinHeap` in
    module_2/C/m2_taskC.cpp and `min_heat` in module_2/examples/C.cpp): a
    heap is a sequence of key/value entries in which every parent key is at
    most its children's keys, and a map from each key to its position. */
module HeapOrder {

  datatype Entry = Entry(key: int, val: string)

  /** `(i - 1) / 2`, the parent position; `2 * i + 1` and `2 * i + 2` are
      the children. */
  function Parent(i: nat): nat
    requires i > 0
  {
    (i - 1) / 2
  }

  /** `std::swap` of two heap slots. */
  function Swapped(h: seq<Entry>, i: nat, j: nat): (r: seq<Entry>)
    requires i < |h| && j < |h|
    ensures |r| == |h| && r[i] == h[j] && r[j] == h[i]
    ensures forall k :: 0 <= k < |h| && k != i && k != j ==> r[k] == h[k]
    ensures multiset(r) == multiset(h)
  {
    var r := h[i := h[j]][j := h[i]];
    assert multiset(h[i := h[j]]) == multiset(h) - multiset{h[i]} + multiset{h[j]};
    r
  }

  /** The min-heap order: no child key is below its parent's. */
  predicate Ordered(h: seq<Entry>) {
    forall j :: 0 < j < |h| ==> h[Parent(j)].key <= h[j].key
  }

  /** Ordered on every edge that does not touch position `x`. */
  predicate OrderedAway(h: seq<Entry>, x: nat) {
    forall j :: 0 < j < |h| && j != x && Parent(j) != x ==> h[Parent(j)].key <= h[j].key
  }

  /** The parent of `x` is at most the children of `x`, so `x` can be
      skipped over. */
  predicate Bridge(h: seq<Entry>, x: nat) {
    0 < x < |h| ==> forall c :: 0 < c < |h| && Parent(c) == x ==> h[Parent(x)].key <= h[c].key
  }

  /** The edge into `x` is ordered. */
  predicate IntoOrdered(h: seq<Entry>, x: nat) {
    0 < x < |h| ==> h[Parent(x)].key <= h[x].key
  }

  /** The edges out of `x` are ordered. */
  predicate OutOrdered(h: seq<Entry>, x: nat) {
    x < |h| ==> forall c :: 0 < c < |h| && Parent(c) == x ==> h[x].key <= h[c].key
  }

  /** Positions `2 * x + 1` and `2 * x + 2` are the only children of `x`. */
  lemma ParentOf(d: nat, x: nat)
    requires 0 < d && Parent(d) == x
    ensures d == 2 * x + 1 || d == 2 * x + 2
  {
  }

  /** The edges out of `x` are ordered once both children are checked. */
  lemma OutFromChildren(h: seq<Entry>, x: nat)
    requires 2 * x + 1 < |h| ==> h[x].key <= h[2 * x + 1].key
    requires 2 * x + 2 < |h| ==> h[x].key <= h[2 * x + 2].key
    ensures OutOrdered(h, x)
  {
    forall c | 0 < c < |h| && Parent(c) == x ensures h[x].key <= h[c].key {
      ParentOf(c, x);
    }
  }

  /** The three parts around `x` make the whole order. */
  lemma Assemble(h: seq<Entry>, x: nat)
    requires OrderedAway(h, x) && IntoOrdered(h, x) && OutOrdered(h, x)
    requires x < |h| || h == []
    ensures Ordered(h)
  {
  }

  /** An ordered heap has every part around any position. */
  lemma OrderedParts(h: seq<Entry>, x: nat)
    requires Ordered(h)
    ensures OrderedAway(h, x) && Bridge(h, x) && IntoOrdered(h, x) && OutOrdered(h, x)
  {
  }

  /** The root holds the least key. */
  lemma {:induction false} RootIsMin(h: seq<Entry>, j: nat)
    requires Ordered(h) && j < |h|
    ensures h[0].key <= h[j].key
    decreases j
  {
    if j > 0 {
      RootIsMin(h, Parent(j));
    }
  }

  /** Every key is at most some key in the second half of the sequence,
      where the leaves are: positions `|h| / 2` to `|h| - 1` have no
      children. */
  lemma {:induction false} MaxAmongLeaves(h: seq<Entry>, j: nat)
    requires Ordered(h) && j < |h|
    ensures exists l :: |h| / 2 <= l < |h| && h[j].key <= h[l].key
    decreases |h| - j
  {
    if j < |h| / 2 {
      var c := 2 * j + 1;
      assert Parent(c) == j;
      MaxAmongLeaves(h, c);
    } else {
      assert h[j].key <= h[j].key;
    }
  }

  /** Moving the entry at `x` above its larger parent keeps the order
      away from the parent's position, and the parent's new entry is at
      most its children. */
  lemma UpStep(h: seq<Entry>, x: nat)
    requires 0 < x < |h| && OrderedAway(h, x) && Bridge(h, x)
    requires h[x].key < h[Parent(x)].key
    ensures var p := Parent(x); var r := Swapped(h, x, p);
      OrderedAway(r, p) && Bridge(r, p) && OutOrdered(r, p)
  {
    var p := Parent(x);
    var r := Swapped(h, x, p);
    forall j | 0 < j < |r| && j != p && Parent(j) != p ensures r[Parent(j)].key <= r[j].key {
      if Parent(j) == x {
        assert r[x] == h[p];
      }
    }
    if 0 < p {
      forall c | 0 < c < |r| && Parent(c) == p ensures r[Parent(p)].key <= r[c].key {
        assert Parent(p) < p;
        if c != x {
          assert h[Parent(p)].key <= h[p].key;
        }
      }
    }
  }

  /** Moving the entry at `x` below its smallest child `c`, which is
      smaller than it, keeps the order away from `c`. */
  lemma DownStep(h: seq<Entry>, x: nat, c: nat)
    requires x < |h| && 0 < c < |h| && Parent(c) == x
    requires OrderedAway(h, x) && Bridge(h, x) && h[c].key < h[x].key
    requires forall d :: 0 < d < |h| && Parent(d) == x ==> h[c].key <= h[d].key
    ensures var r := Swapped(h, x, c);
      OrderedAway(r, c) && Bridge(r, c) && IntoOrdered(r, c)
  {
    var r := Swapped(h, x, c);
    forall j | 0 < j < |r| && j != c && Parent(j) != c ensures r[Parent(j)].key <= r[j].key {
      if j == x {
        assert r[Parent(j)] == h[Parent(x)];
      }
    }
  }

  /** `key_to_index`: each entry's key maps to its position, and only
      stored keys are mapped; hence keys are distinct. */
  predicate Indexed(h: seq<Entry>, m: map<int, nat>) {
    (forall i :: 0 <= i < |h| ==> h[i].key in m && m[h[i].key] == i) &&
    (forall k :: k in m ==> m[k] < |h| && h[m[k]].key == k)
  }

  /** Swapping two slots and exchanging the two keys' positions keeps the
      index. */
  lemma IndexedSwap(h: seq<Entry>, m: map<int, nat>, i: nat, j: nat)
    requires Indexed(h, m) && i < |h| && j < |h|
    ensures var r := Swapped(h, i, j);
      Indexed(r, m[r[i].key := m[r[j].key]][r[j].key := m[r[i].key]])
  {
  }

  /** Dropping the last slot and its key keeps the index. */
  lemma IndexedPop(h: seq<Entry>, m: map<int, nat>)
    requires Indexed(h, m) && h != []
    ensures Indexed(h[..|h| - 1], m - {h[|h| - 1].key})
  {
  }

  /** Appending a new key at the end keeps the index. */
  lemma IndexedPush(h: seq<Entry>, m: map<int, nat>, e: Entry)
    requires Indexed(h, m) && e.key !in m
    ensures Indexed(h + [e], m[e.key := |h|])
  {
  }

  /** The last slot, once moved into position `i` of an ordered heap and
      dropped from the end, leaves the order intact away from `i`. */
  lemma RemoveStep(h: seq<Entry>, i: nat)
    requires Ordered(h) && i < |h| - 1
    ensures var r := Swapped(h, i, |h| - 1)[..|h| - 1];
      OrderedAway(r, i) && Bridge(r, i)
  {
    var r := Swapped(h, i, |h| - 1)[..|h| - 1];
    forall j | 0 < j < |r| && j != i && Parent(j) != i ensures r[Parent(j)].key <= r[j].key {
      assert r[j] == h[j] && r[Parent(j)] == h[Parent(j)];
    }
    if 0 < i {
      forall c | 0 < c < |r| && Parent(c) == i ensures r[Parent(i)].key <= r[c].key {
        assert r[c] == h[c] && r[Parent(i)] == h[Parent(i)];
        assert h[Parent(i)].key <= h[i].key;
      }
    }
  }

  /** Swapping is symmetric in its two positions. */
  lemma SwappedSym(h: seq<Entry>, i: nat, j: nat)
    requires i < |h| && j < |h|
    ensures Swapped(h, i, j) == Swapped(h, j, i)
  {
  }

  /** The stored keys. */
  function KeySet(h: seq<Entry>): set<int> {
    set i | 0 <= i < |h| :: h[i].key
  }

  lemma IndexedKeys(h: seq<Entry>, m: map<int, nat>)
    requires Indexed(h, m)
    ensures m.Keys == KeySet(h)
  {
    forall k | k in m ensures k in KeySet(h) {
      assert h[m[k]].key == k;
    }
  }

  /** The slots after swapping slot `i` with the last one and popping the
      end: how both heaps remove an entry. */
  function Dropped(h: seq<Entry>, i: nat): (r: seq<Entry>)
    requires i < |h|
    ensures |r| == |h| - 1
  {
    Swapped(h, i, |h| - 1)[..|h| - 1]
  }

  /** The key index after the same swap, with the popped key erased. */
  function DroppedIndex(h: seq<Entry>, m: map<int, nat>, i: nat): map<int, nat>
    requires i < |h| && h[i].key in m && h[|h| - 1].key in m
  {
    m[h[|h| - 1].key := m[h[i].key]][h[i].key := m[h[|h| - 1].key]] - {h[i].key}
  }

  /** Removing slot `i` keeps the index and removes exactly the entry at
      `i`. */
  lemma DropFacts(h: seq<Entry>, m: map<int, nat>, i: nat)
    requires Indexed(h, m) && i < |h|
    ensures Indexed(Dropped(h, i), DroppedIndex(h, m, i))
    ensures multiset(Dropped(h, i)) + multiset{h[i]} == multiset(h)
    ensures DroppedIndex(h, m, i).Keys == m.Keys - {h[i].key}
  {
    var last := |h| - 1;
    var r := Swapped(h, i, last);
    IndexedSwap(h, m, i, last);
    var m1 := m[r[i].key := m[r[last].key]][r[last].key := m[r[i].key]];
    IndexedPop(r, m1);
    DropMultiset(h, i);
  }

  lemma DropMultiset(h: seq<Entry>, i: nat)
    requires i < |h|
    ensures multiset(Dropped(h, i)) + multiset{h[i]} == multiset(h)
  {
    var r := Swapped(h, i, |h| - 1);
    var d := r[..|h| - 1];
    assert r == d + [r[|h| - 1]];
    assert multiset(r) == multiset(d) + multiset{h[i]};
  }

  /** Removing slot `i` leaves the order intact away from slot `i`. */
  lemma DropOrder(h: seq<Entry>, i: nat)
    requires Ordered(h) && i < |h|
    ensures i < |h| - 1 ==> OrderedAway(Dropped(h, i), i) && Bridge(Dropped(h, i), i)
    ensures i == |h| - 1 ==> Ordered(Dropped(h, i))
  {
    if i < |h| - 1 {
      RemoveStep(h, i);
    }
  }
}
