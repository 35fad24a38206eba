/** `min_heat` of module_2/examples/C.cpp: the same binary min-heap as
    `MinHeap`, written with a `hash_table` from key to slot, moves driven by
    the key being moved, and `runtime_error` for every refused request. */
module MinHeats {
  import opened HeapOrder
  import opened Wrappers

  /** The two exceptions the class lets escape: its own `runtime_error`, and
      the `out_of_range` of `unordered_map::at` in `extract` on a heap of one
      entry. */
  datatype Error = RuntimeError | OutOfRange

  class MinHeat {
    var hashTable: map<int, nat>
    var heap: seq<Entry>

    ghost predicate Valid()
      reads this
    {
      Indexed(heap, hashTable) && Ordered(heap)
    }

    constructor ()
      ensures Valid() && heap == [] && hashTable == map[]
    {
      hashTable := map[];
      heap := [];
    }

    /** `search`: the slot and the value of `key`. */
    method Search(key: int) returns (r: Result<(nat, string), Error>)
      requires Indexed(heap, hashTable)
      ensures r.Success? <==> key in hashTable
      ensures r.Failure? ==> r.error == RuntimeError
      ensures r.Success? ==> r.value.0 < |heap| && heap[r.value.0] == Entry(key, r.value.1)
    {
      if key !in hashTable {
        return Failure(RuntimeError);
      }
      var i := hashTable[key];
      return Success((i, heap[i].val));
    }

    /** `add`: refuses a stored key; otherwise appends the entry and lifts
        it. */
    method Add(key: int, value: string) returns (r: Result<(), Error>)
      requires Valid()
      modifies this
      ensures Valid()
      ensures r.Success? <==> key !in old(hashTable)
      ensures r.Failure? ==> r.error == RuntimeError && heap == old(heap) && hashTable == old(hashTable)
      ensures r.Success? ==> multiset(heap) == multiset(old(heap)) + multiset{Entry(key, value)} &&
                             hashTable.Keys == old(hashTable).Keys + {key}
    {
      if key in hashTable {
        return Failure(RuntimeError);
      }
      IndexedPush(heap, hashTable, Entry(key, value));
      heap := heap + [Entry(key, value)];
      hashTable := hashTable[key := |heap| - 1];
      var found := Lifting(key);
      return Success(());
    }

    /** `set`: refuses an absent key; otherwise replaces its value in
        place. */
    method Set(key: int, value: string) returns (r: Result<(), Error>)
      requires Valid()
      modifies this
      ensures Valid() && hashTable == old(hashTable)
      ensures r.Success? <==> key in hashTable
      ensures r.Failure? ==> r.error == RuntimeError && heap == old(heap)
      ensures r.Success? ==> heap == old(heap)[hashTable[key] := Entry(key, value)]
    {
      if key !in hashTable {
        return Failure(RuntimeError);
      }
      heap := heap[hashTable[key] := Entry(key, value)];
      return Success(());
    }

    /** `erase`: refuses an absent key; pops the key when it is last;
        otherwise swaps its slot with the last one, pops, and moves the entry
        that came from the end first up and then down. */
    method Erase(key: int) returns (r: Result<(), Error>)
      requires Valid()
      modifies this
      ensures Valid()
      ensures r.Success? <==> key in old(hashTable)
      ensures r.Failure? ==> r.error == RuntimeError && heap == old(heap) && hashTable == old(hashTable)
      ensures r.Success? ==> old(heap[hashTable[key]]).key == key &&
                             multiset(heap) + multiset{old(heap[hashTable[key]])} == multiset(old(heap)) &&
                             hashTable.Keys == old(hashTable).Keys - {key}
    {
      if key !in hashTable {
        return Failure(RuntimeError);
      }
      var last := |heap| - 1;
      if heap[last].key == key {
        PopFacts(heap, hashTable);
        hashTable := hashTable - {key};
        heap := heap[..last];
        return Success(());
      }
      var found := Detach(key);
      return Success(());
    }

    /** The tail `erase` and `extract` share: unlinks `key` and then lifts
        and heapifies the entry that came from the end. When `key` was the
        last entry itself, that entry's key is gone and the `at` in
        `lifting` throws, reported as `found == false`; the heap is left as
        unlinked. */
    method Detach(key: int) returns (found: bool)
      requires Valid() && key in hashTable
      modifies this
      ensures Valid()
      ensures found <==> old(heap[|heap| - 1].key) != key
      ensures old(heap[hashTable[key]]).key == key
      ensures multiset(heap) + multiset{old(heap[hashTable[key]])} == multiset(old(heap))
      ensures hashTable.Keys == old(hashTable).Keys - {key}
    {
      var last := |heap| - 1;
      var i := hashTable[key];
      DropFacts(heap, hashTable, i);
      DropOrder(heap, i);
      var keyNewNode := heap[last].key;
      Unlink(key);
      found := Lifting(keyNewNode);
      if found {
        Heapify(keyNewNode);
      }
    }

    /** The steps `erase` and `extract` share: swap the entry of `key` with
        the last one, swap the two `hash_table` entries, erase `key` and pop
        the end. */
    method Unlink(key: int)
      requires Indexed(heap, hashTable) && key in hashTable
      modifies this
      ensures heap == Dropped(old(heap), old(hashTable[key]))
      ensures hashTable == DroppedIndex(old(heap), old(hashTable), old(hashTable[key]))
    {
      var i, last := hashTable[key], |heap| - 1;
      var keyNewNode := heap[last].key;
      UnlinkIndex(heap, hashTable, i);
      heap := Swapped(heap, i, last);
      hashTable := hashTable[key := hashTable[keyNewNode]][keyNewNode := hashTable[key]];
      hashTable := hashTable - {key};
      heap := heap[..last];
    }

    /** `min`: slot 0 and its entry, which holds the least key. */
    method Min() returns (r: Result<(nat, Entry), Error>)
      requires Valid()
      ensures r.Failure? <==> heap == []
      ensures r.Failure? ==> r.error == RuntimeError
      ensures r.Success? ==> r.value.0 == 0 && r.value.1 == heap[0] &&
                             forall j :: 0 <= j < |heap| ==> r.value.1.key <= heap[j].key
    {
      if heap == [] {
        return Failure(RuntimeError);
      }
      forall j | 0 <= j < |heap| ensures heap[0].key <= heap[j].key {
        RootIsMin(heap, j);
      }
      return Success((0, heap[0]));
    }

    /** `max`: scans the leaves, the slots from `size / 2` on, for the
        largest key, and returns its slot and entry. */
    method Max() returns (r: Result<(nat, Entry), Error>)
      requires Valid()
      ensures r.Failure? <==> heap == []
      ensures r.Failure? ==> r.error == RuntimeError
      ensures r.Success? ==> r.value.0 < |heap| && heap[r.value.0] == r.value.1 &&
                             forall j :: 0 <= j < |heap| ==> heap[j].key <= r.value.1.key
    {
      if heap == [] {
        return Failure(RuntimeError);
      }
      var half := |heap| / 2;
      var max := heap[half].key;
      ghost var at := half;
      for i := half + 1 to |heap|
        invariant half <= at < i && heap[at].key == max
        invariant forall l :: half <= l < i ==> heap[l].key <= max
      {
        if max < heap[i].key {
          max := heap[i].key;
          at := i;
        }
      }
      forall j | 0 <= j < |heap| ensures heap[j].key <= max {
        MaxAmongLeaves(heap, j);
      }
      var index := hashTable[max];
      return Success((index, heap[index]));
    }

    /** `extract`: swaps the root with the last slot, erases the old root's
        key, pops it and moves the former last entry down from the root. On a
        heap of one entry that entry is the old root itself, so `at` finds no
        key to lift: the heap is left empty and `out_of_range` escapes. */
    method Extract() returns (r: Result<(int, string), Error>)
      requires Valid()
      modifies this
      ensures Valid()
      ensures old(heap) == [] ==> r == Failure(RuntimeError) && heap == old(heap) && hashTable == old(hashTable)
      ensures |old(heap)| == 1 ==> r == Failure(OutOfRange) && heap == [] && hashTable == map[]
      ensures |old(heap)| >= 2 ==> r.Success? && Entry(r.value.0, r.value.1) == old(heap[0]) &&
                                   (forall j :: 0 <= j < |old(heap)| ==> r.value.0 <= old(heap[j].key)) &&
                                   multiset(heap) + multiset{old(heap[0])} == multiset(old(heap)) &&
                                   hashTable.Keys == old(hashTable).Keys - {r.value.0}
    {
      if heap == [] {
        return Failure(RuntimeError);
      }
      forall j | 0 <= j < |heap| ensures heap[0].key <= heap[j].key {
        RootIsMin(heap, j);
      }
      var extracted := heap[0];
      IndexedKeys(heap, hashTable);
      ghost var h := heap;
      var found := Detach(heap[0].key);
      if !found {
        assert |h| == 1 && |multiset(heap)| == 0;
        assert hashTable.Keys == {};
        return Failure(OutOfRange);
      }
      return Success((extracted.key, extracted.val));
    }

    /** `swap_`: exchanges the entry of `key` with the one at
        `(slot - parity) / 2`, and their `hash_table` entries, when `key` is
        the smaller; reports whether it did. The `flag` argument it is
        handed is overwritten before use and is not modelled. */
    method SwapUp(key: int, parity: nat) returns (swapped: bool)
      requires Indexed(heap, hashTable) && key in hashTable && hashTable[key] >= parity
      modifies this
      ensures Indexed(heap, hashTable)
      ensures var i := old(hashTable[key]); var p := (i - parity) / 2;
        p < |old(heap)| &&
        (swapped <==> old(heap[i].key < heap[p].key)) &&
        (swapped ==> heap == Swapped(old(heap), i, p) &&
                     hashTable == old(hashTable)[key := p][old(heap[p].key) := i]) &&
        (!swapped ==> heap == old(heap) && hashTable == old(hashTable))
    {
      var i := hashTable[key];
      var p := (i - parity) / 2;
      if heap[i].key < heap[p].key {
        IndexedSwap(heap, hashTable, i, p);
        heap := Swapped(heap, i, p);
        hashTable := hashTable[key := hashTable[heap[i].key]][heap[i].key := hashTable[key]];
        return true;
      }
      return false;
    }

    /** `lifting`: while `key` is below its parent, swaps it up, with parity
        2 from an even slot and 1 from an odd one, so that `swap_` always
        compares with the parent. A key that is not stored makes the first
        `at` throw, reported here as `found == false`. */
    method Lifting(key: int) returns (found: bool)
      requires Indexed(heap, hashTable)
      requires key in hashTable ==> OrderedAway(heap, hashTable[key]) && Bridge(heap, hashTable[key])
      modifies this
      ensures found <==> key in old(hashTable)
      ensures !found ==> heap == old(heap) && hashTable == old(hashTable)
      ensures Indexed(heap, hashTable) && multiset(heap) == multiset(old(heap))
      ensures hashTable.Keys == old(hashTable).Keys
      ensures found ==> OrderedAway(heap, hashTable[key]) && Bridge(heap, hashTable[key]) &&
                        IntoOrdered(heap, hashTable[key])
      ensures found && old(OutOrdered(heap, hashTable[key])) ==> Ordered(heap)
    {
      if key !in hashTable {
        return false;
      }
      ghost var out := OutOrdered(heap, hashTable[key]);
      var flag := true;
      while flag
        invariant Indexed(heap, hashTable) && key in hashTable
        invariant multiset(heap) == multiset(old(heap)) && hashTable.Keys == old(hashTable).Keys
        invariant OrderedAway(heap, hashTable[key]) && Bridge(heap, hashTable[key])
        invariant out ==> OutOrdered(heap, hashTable[key])
        invariant old(OutOrdered(heap, hashTable[key])) ==> out
        invariant !flag ==> IntoOrdered(heap, hashTable[key])
        decreases flag, hashTable[key]
      {
        if hashTable[key] == 0 {
          StopOrdered(heap, 0, out);
          return true;
        }
        flag := LiftStep(key);
        out := out || flag;
      }
      StopOrdered(heap, hashTable[key], out);
      return true;
    }

    /** One pass of `lifting`'s loop at a slot other than the root: `swap_`
        with the parity of the slot, which makes `(slot - parity) / 2` the
        parent. */
    method LiftStep(key: int) returns (flag: bool)
      requires Indexed(heap, hashTable) && key in hashTable && 0 < hashTable[key]
      requires OrderedAway(heap, hashTable[key]) && Bridge(heap, hashTable[key])
      modifies this
      ensures Indexed(heap, hashTable) && key in hashTable
      ensures multiset(heap) == multiset(old(heap)) && hashTable.Keys == old(hashTable).Keys
      ensures OrderedAway(heap, hashTable[key]) && Bridge(heap, hashTable[key])
      ensures flag ==> OutOrdered(heap, hashTable[key]) && hashTable[key] < old(hashTable[key])
      ensures !flag ==> IntoOrdered(heap, hashTable[key]) && heap == old(heap) && hashTable == old(hashTable)
    {
      var i := hashTable[key];
      var parity: nat := if i % 2 == 0 then 2 else 1;
      assert (i - parity) / 2 == Parent(i);
      if heap[i].key < heap[Parent(i)].key {
        LiftFacts(heap, hashTable, key);
      }
      flag := SwapUp(key, parity);
    }

    /** `heapify`: while a child of `key`'s slot holds a smaller key, swaps
        `key` with the smaller child; each branch that swaps calls `swap_`
        with that child's key and parity, here after the branches. `swap_` is only called when it will
        swap, so `flag` stays true and the loop ends by `return`. The
        source's third branch, a right child without a left one, cannot occur
        (the right child's slot is the left one's plus one) and is left out. */
    method Heapify(key: int)
      requires Indexed(heap, hashTable) && key in hashTable
      requires OrderedAway(heap, hashTable[key]) && Bridge(heap, hashTable[key]) &&
               IntoOrdered(heap, hashTable[key])
      modifies this
      ensures Valid() && multiset(heap) == multiset(old(heap))
      ensures hashTable.Keys == old(hashTable).Keys
    {
      var flag := true;
      while flag
        invariant Indexed(heap, hashTable) && key in hashTable
        invariant multiset(heap) == multiset(old(heap)) && hashTable.Keys == old(hashTable).Keys
        invariant OrderedAway(heap, hashTable[key]) && Bridge(heap, hashTable[key]) &&
                  IntoOrdered(heap, hashTable[key])
        invariant flag
        decreases |heap| - hashTable[key]
      {
        var i := hashTable[key];
        var left, right := 2 * i + 1, 2 * i + 2;
        var c: nat, parity: nat;
        if left < |heap| && right < |heap| {
          if heap[left].key < key && heap[left].key < heap[right].key {
            c, parity := left, 1;
          } else if heap[right].key < key {
            c, parity := right, 2;
          } else {
            OutFromChildren(heap, i);
            Assemble(heap, i);
            return;
          }
        } else if left < |heap| && heap[left].key < key {
          c, parity := left, 1;
        } else {
          OutFromChildren(heap, i);
          Assemble(heap, i);
          return;
        }
        flag := SinkTo(key, c, parity);
      }
      assert false;
    }

    /** One step of `heapify`: `swap_` called with the key of child `c`,
        the smallest child and smaller than `key`. */
    method SinkTo(key: int, c: nat, parity: nat) returns (swapped: bool)
      requires Indexed(heap, hashTable) && key in hashTable && 0 < c < |heap|
      requires c == 2 * hashTable[key] + parity && (parity == 1 || parity == 2)
      requires OrderedAway(heap, hashTable[key]) && Bridge(heap, hashTable[key])
      requires heap[c].key < key && heap[c].key <= heap[2 * hashTable[key] + 1].key
      requires 2 * hashTable[key] + 2 < |heap| ==> heap[c].key <= heap[2 * hashTable[key] + 2].key
      modifies this
      ensures swapped && Indexed(heap, hashTable) && key in hashTable && hashTable[key] == c && |heap| == old(|heap|)
      ensures multiset(heap) == multiset(old(heap)) && hashTable.Keys == old(hashTable).Keys
      ensures OrderedAway(heap, c) && Bridge(heap, c) && IntoOrdered(heap, c)
    {
      SinkFacts(heap, hashTable, key, c);
      swapped := SwapUp(heap[c].key, parity);
    }
  }

  /** What `lifting` leaves at its stop: the order is whole when the slot's
      outgoing edges are ordered. */
  lemma StopOrdered(h: seq<Entry>, x: nat, out: bool)
    requires x < |h| && OrderedAway(h, x) && IntoOrdered(h, x)
    requires out ==> OutOrdered(h, x)
    ensures out ==> Ordered(h)
  {
    if out {
      Assemble(h, x);
    }
  }

  /** `hash_table` after `erase` swaps the two keys' slots and erases the
      key of slot `i` is the index `Dropped` calls for. */
  lemma UnlinkIndex(h: seq<Entry>, m: map<int, nat>, i: nat)
    requires Indexed(h, m) && i < |h|
    ensures var key, back := h[i].key, h[|h| - 1].key;
      m[key := m[back]][back := m[key]] - {key} == DroppedIndex(h, m, i)
  {
  }

  /** When the key is last, erasing it and popping removes exactly that
      entry and keeps the index and the order. */
  lemma PopFacts(h: seq<Entry>, m: map<int, nat>)
    requires Indexed(h, m) && Ordered(h) && h != []
    ensures var last := |h| - 1; var p, m' := h[..last], m - {h[last].key};
      Indexed(p, m') && Ordered(p) && multiset(p) + multiset{h[last]} == multiset(h) &&
      m'.Keys == m.Keys - {h[last].key}
  {
    var last := |h| - 1;
    DropFacts(h, m, last);
    DropOrder(h, last);
    assert Dropped(h, last) == h[..last];
    assert DroppedIndex(h, m, last) == m - {h[last].key};
  }

  /** A `swap_` that moves `key` from slot `i` above its larger parent `p`
      keeps the index, and leaves the order intact away from `p` and out of
      `p`. */
  lemma LiftFacts(h: seq<Entry>, m: map<int, nat>, key: int)
    requires Indexed(h, m) && key in m && 0 < m[key]
    requires OrderedAway(h, m[key]) && Bridge(h, m[key])
    requires h[m[key]].key < h[Parent(m[key])].key
    ensures var i := m[key]; var p := Parent(i);
      var r, m' := Swapped(h, i, p), m[key := p][h[p].key := i];
      Indexed(r, m') && key in m' && m'[key] == p && m'.Keys == m.Keys &&
      OrderedAway(r, p) && Bridge(r, p) && OutOrdered(r, p)
  {
    var i := m[key];
    var p := Parent(i);
    UpStep(h, i);
    IndexedSwap(h, m, i, p);
    var r := Swapped(h, i, p);
    assert m[r[i].key := m[r[p].key]][r[p].key := m[r[i].key]] == m[key := p][h[p].key := i];
  }

  /** A `swap_` called with the key of `key`'s smallest child `c`, which is
      below `key`, moves `key` down to `c` and leaves the order intact away
      from `c`. */
  lemma SinkFacts(h: seq<Entry>, m: map<int, nat>, key: int, c: nat)
    requires Indexed(h, m) && key in m && 0 < c < |h| && Parent(c) == m[key]
    requires OrderedAway(h, m[key]) && Bridge(h, m[key])
    requires h[c].key < key && h[c].key <= h[2 * m[key] + 1].key
    requires 2 * m[key] + 2 < |h| ==> h[c].key <= h[2 * m[key] + 2].key
    ensures var i := m[key];
      var r, m' := Swapped(h, c, i), m[h[c].key := i][key := c];
      Indexed(r, m') && key in m' && m'[key] == c && m'.Keys == m.Keys &&
      OrderedAway(r, c) && Bridge(r, c) && IntoOrdered(r, c)
  {
    var i := m[key];
    SinkOrder(h, i, c);
    IndexedSwap(h, m, c, i);
    var r := Swapped(h, c, i);
    assert m[r[c].key := m[r[i].key]][r[i].key := m[r[c].key]] == m[h[c].key := i][key := c];
  }

  /** The order part of `SinkFacts`. */
  lemma SinkOrder(h: seq<Entry>, i: nat, c: nat)
    requires 0 < c < |h| && Parent(c) == i
    requires OrderedAway(h, i) && Bridge(h, i)
    requires h[c].key < h[i].key && h[c].key <= h[2 * i + 1].key
    requires 2 * i + 2 < |h| ==> h[c].key <= h[2 * i + 2].key
    ensures var r := Swapped(h, c, i);
      OrderedAway(r, c) && Bridge(r, c) && IntoOrdered(r, c)
  {
    forall d | 0 < d < |h| && Parent(d) == i ensures h[c].key <= h[d].key {
      ParentOf(d, i);
    }
    DownStep(h, i, c);
    SwappedSym(h, i, c);
  }
}
