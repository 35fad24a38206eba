/** `MinHeap` of module_2/C/m2_taskC.cpp: a binary min-heap of key/value
    entries in a vector, with `key_to_index` giving each key's slot. */
module MinHeaps {
  import opened HeapOrder
  import opened Wrappers

  class MinHeap {
    var keyToIndex: map<int, nat>
    var heap: seq<Entry>

    ghost predicate Valid()
      reads this
    {
      Indexed(heap, keyToIndex) && Ordered(heap)
    }

    constructor ()
      ensures Valid() && heap == [] && keyToIndex == map[]
    {
      keyToIndex := map[];
      heap := [];
    }

    /** `Swap`: exchanges two slots and their `key_to_index` entries. */
    method Swap(i1: nat, i2: nat)
      requires i1 < |heap| && i2 < |heap| && Indexed(heap, keyToIndex)
      modifies this
      ensures heap == Swapped(old(heap), i1, i2) && Indexed(heap, keyToIndex)
      ensures keyToIndex.Keys == old(keyToIndex).Keys
      ensures keyToIndex == old(keyToIndex)[heap[i1].key := old(keyToIndex)[heap[i2].key]]
                                           [heap[i2].key := old(keyToIndex)[heap[i1].key]]
    {
      IndexedSwap(heap, keyToIndex, i1, i2);
      heap := Swapped(heap, i1, i2);
      var a, b := heap[i1].key, heap[i2].key;
      keyToIndex := keyToIndex[a := keyToIndex[b]][b := keyToIndex[a]];
    }

    /** `ShiftUp`: moves the entry at `index` up while it is below its
        parent. */
    method ShiftUp(index: nat)
      requires Indexed(heap, keyToIndex) && index < |heap|
      requires OrderedAway(heap, index) && Bridge(heap, index) && OutOrdered(heap, index)
      modifies this
      ensures Valid() && multiset(heap) == multiset(old(heap))
      ensures keyToIndex.Keys == old(keyToIndex).Keys
    {
      var i: nat := index;
      while i >= 1 && heap[i].key < heap[Parent(i)].key
        invariant Indexed(heap, keyToIndex) && i < |heap|
        invariant OrderedAway(heap, i) && Bridge(heap, i) && OutOrdered(heap, i)
        invariant multiset(heap) == multiset(old(heap)) && keyToIndex.Keys == old(keyToIndex).Keys
        decreases i
      {
        UpStep(heap, i);
        Swap(i, Parent(i));
        i := Parent(i);
      }
      Assemble(heap, i);
    }

    /** The child of `index` that `ShiftDown` compares with: the right one
        when it exists and is smaller, otherwise the left one (which may lie
        past the end). */
    function SmallerChild(index: nat): (c: nat)
      reads this
      ensures c > 0 && Parent(c) == index
      ensures c < |heap| ==> forall d :: 0 < d < |heap| && Parent(d) == index ==> heap[c].key <= heap[d].key
      ensures c >= |heap| ==> forall d :: 0 < d < |heap| ==> Parent(d) != index
    {
      if 2 * index + 2 < |heap| && heap[2 * index + 2].key < heap[2 * index + 1].key then 2 * index + 2
      else 2 * index + 1
    }

    /** `ShiftDown`: moves the entry at `index` down, each time below its
        smaller child, while it is above that child. When it moves, the
        whole heap ends up ordered; when it stays, its edges to its children
        are ordered. */
    method ShiftDown(index: nat)
      requires Indexed(heap, keyToIndex) && (index < |heap| || heap == [])
      requires OrderedAway(heap, index) && Bridge(heap, index)
      modifies this
      ensures Indexed(heap, keyToIndex) && multiset(heap) == multiset(old(heap))
      ensures keyToIndex.Keys == old(keyToIndex).Keys
      ensures OrderedAway(heap, index) && Bridge(heap, index) && OutOrdered(heap, index)
      ensures heap != old(heap) ==> Ordered(heap)
    {
      var i: nat := index;
      var iMin := SmallerChild(i);
      while iMin < |heap| && heap[i].key > heap[iMin].key
        invariant Indexed(heap, keyToIndex) && (i < |heap| || heap == []) && index <= i
        invariant iMin == SmallerChild(i)
        invariant OrderedAway(heap, i) && Bridge(heap, i)
        invariant i == index ==> heap == old(heap)
        invariant i != index ==> IntoOrdered(heap, i)
        invariant multiset(heap) == multiset(old(heap)) && keyToIndex.Keys == old(keyToIndex).Keys
        decreases |heap| - i
      {
        DownStep(heap, i, iMin);
        Swap(i, iMin);
        i := iMin;
        iMin := SmallerChild(i);
      }
      if i != index {
        Assemble(heap, i);
        OrderedParts(heap, index);
      }
    }

    /** `Add`: refuses a key that is already stored; otherwise appends the
        entry and moves it up. */
    method Add(key: int, val: string) returns (added: bool)
      requires Valid()
      modifies this
      ensures Valid()
      ensures added <==> key !in old(keyToIndex)
      ensures !added ==> heap == old(heap) && keyToIndex == old(keyToIndex)
      ensures added ==> multiset(heap) == multiset(old(heap)) + multiset{Entry(key, val)} &&
                        keyToIndex.Keys == old(keyToIndex).Keys + {key}
    {
      if key in keyToIndex {
        return false;
      }
      var size := |heap|;
      IndexedPush(heap, keyToIndex, Entry(key, val));
      keyToIndex := keyToIndex[key := size];
      heap := heap + [Entry(key, val)];
      ShiftUp(size);
      return true;
    }

    /** `Delete`: refuses an absent key; otherwise moves the last entry into
        the key's slot, drops the end and restores the order around that
        slot. */
    method Delete(key: int) returns (deleted: bool)
      requires Valid()
      modifies this
      ensures Valid()
      ensures deleted <==> key in old(keyToIndex)
      ensures !deleted ==> heap == old(heap) && keyToIndex == old(keyToIndex)
      ensures deleted ==> multiset(heap) + multiset{old(heap[keyToIndex[key]])} == multiset(old(heap)) &&
                          old(heap[keyToIndex[key]]).key == key &&
                          keyToIndex.Keys == old(keyToIndex).Keys - {key}
    {
      if key !in keyToIndex {
        return false;
      }
      var iRmv := keyToIndex[key];
      DropFacts(heap, keyToIndex, iRmv);
      DropOrder(heap, iRmv);
      DropSlot(iRmv);
      if iRmv < |heap| {
        Restore(iRmv);
      }
      return true;
    }

    /** The common part of `Delete` and `Extract`: swaps slot `i` with the
        last one, pops the end and erases the popped key. */
    method DropSlot(i: nat)
      requires Indexed(heap, keyToIndex) && i < |heap|
      modifies this
      ensures heap == Dropped(old(heap), i)
      ensures keyToIndex == DroppedIndex(old(heap), old(keyToIndex), i)
    {
      var last := |heap| - 1;
      Swap(i, last);
      var key := heap[last].key;
      heap := heap[..last];
      keyToIndex := keyToIndex - {key};
    }

    /** `ShiftDown` then `ShiftUp` at the slot that received the last
        entry: one of them moves it into place. */
    method Restore(i: nat)
      requires Indexed(heap, keyToIndex) && i < |heap|
      requires OrderedAway(heap, i) && Bridge(heap, i)
      modifies this
      ensures Valid() && multiset(heap) == multiset(old(heap))
      ensures keyToIndex.Keys == old(keyToIndex).Keys
    {
      ShiftDown(i);
      ShiftUp(i);
    }

    /** `Search`: the slot and value of `key`, or nothing. */
    method Search(key: int) returns (r: Option<(nat, string)>)
      requires Valid()
      ensures r.None? <==> key !in keyToIndex
      ensures r.Some? ==> r.value.0 < |heap| && heap[r.value.0] == Entry(key, r.value.1)
    {
      if key !in keyToIndex {
        return None;
      }
      var i := keyToIndex[key];
      return Some((i, heap[i].val));
    }

    /** `Set`: replaces the value of a stored key in its slot; the key does
        not move. */
    method Set(key: int, val: string) returns (found: bool)
      requires Valid()
      modifies this
      ensures Valid() && keyToIndex == old(keyToIndex)
      ensures found <==> key in old(keyToIndex)
      ensures !found ==> heap == old(heap)
      ensures found ==> heap == old(heap)[keyToIndex[key] := Entry(key, val)]
    {
      if key !in keyToIndex {
        return false;
      }
      var i := keyToIndex[key];
      heap := heap[i := Entry(key, val)];
      return true;
    }

    /** `Min`: the root, which holds the least key, at slot 0. */
    method Min() returns (r: Option<(int, nat, string)>)
      requires Valid()
      ensures r.None? <==> heap == []
      ensures r.Some? ==> r.value.1 == 0 && heap[0] == Entry(r.value.0, r.value.2) &&
                          forall j :: 0 <= j < |heap| ==> r.value.0 <= heap[j].key
    {
      if heap == [] {
        return None;
      }
      forall j | 0 <= j < |heap| ensures heap[0].key <= heap[j].key {
        RootIsMin(heap, j);
      }
      return Some((heap[0].key, 0, heap[0].val));
    }

    /** `Max`: `std::max_element` over the whole vector (the first largest
        key), with its slot taken from `key_to_index`. */
    method Max() returns (r: Option<(int, nat, string)>)
      requires Valid()
      ensures r.None? <==> heap == []
      ensures r.Some? ==> r.value.1 < |heap| && heap[r.value.1] == Entry(r.value.0, r.value.2) &&
                          forall j :: 0 <= j < |heap| ==> heap[j].key <= r.value.0
    {
      if heap == [] {
        return None;
      }
      var best := 0;
      for i := 1 to |heap|
        invariant best < |heap| && forall j :: 0 <= j < i ==> heap[j].key <= heap[best].key
      {
        if heap[best].key < heap[i].key {
          best := i;
        }
      }
      var key := heap[best].key;
      return Some((key, keyToIndex[key], heap[best].val));
    }

    /** `Extract`: nothing on an empty heap; otherwise moves the last entry
        to the root, removes and returns the old root, and moves the new
        root down. */
    method Extract() returns (r: Option<(int, string)>)
      requires Valid()
      modifies this
      ensures Valid()
      ensures r.None? <==> old(heap) == []
      ensures r.None? ==> heap == old(heap) && keyToIndex == old(keyToIndex)
      ensures r.Some? ==> Entry(r.value.0, r.value.1) == old(heap[0]) &&
                          (forall j :: 0 <= j < |old(heap)| ==> r.value.0 <= old(heap[j].key)) &&
                          multiset(heap) + multiset{Entry(r.value.0, r.value.1)} == multiset(old(heap)) &&
                          keyToIndex.Keys == old(keyToIndex).Keys - {r.value.0}
    {
      if heap == [] {
        return None;
      }
      forall j | 0 <= j < |heap| ensures heap[0].key <= heap[j].key {
        RootIsMin(heap, j);
      }
      var res := heap[0];
      DropFacts(heap, keyToIndex, 0);
      DropOrder(heap, 0);
      DropSlot(0);
      ShiftDown(0);
      Assemble(heap, 0);
      return Some((res.key, res.val));
    }

    /** `Empty`. */
    method Empty() returns (e: bool)
      ensures e <==> heap == []
    {
      return heap == [];
    }
  }
}
