/** The circular queue of module_1/C: a buffer of `size` slots, `None` where
    nothing is stored, a head index (oldest value) and a tail index (newest
    value). The queue is empty when head and tail meet on an empty slot.
    Every command reports by printing; here each method returns the text it
    prints. */
module CircularQueue {
  import opened Wrappers
  import opened TextOutput

  /** The slot `k` places after slot `h` going round a buffer of `n` slots. */
  function Slot(h: nat, k: nat, n: nat): (s: nat)
    requires h < n && k < n
    ensures s < n
  {
    if h + k < n then h + k else h + k - n
  }

  /** Advancing an index with `% n` moves it one slot round. */
  lemma NextSlot(x: nat, n: nat)
    requires x < n
    ensures (x + 1) % n == if x + 1 < n then x + 1 else 0
  {
  }

  /** One slot further round is the next index, wrapping to 0. */
  lemma SlotNext(h: nat, k: nat, n: nat)
    requires h < n && k + 1 < n
    ensures Slot(h, k + 1, n) == if Slot(h, k, n) + 1 < n then Slot(h, k, n) + 1 else 0
  {
  }

  /** Different distances from the same slot reach different slots. */
  lemma SlotInjective(h: nat, k1: nat, k2: nat, n: nat)
    requires h < n && k1 < n && k2 < n
    ensures Slot(h, k1, n) == Slot(h, k2, n) <==> k1 == k2
  {
  }

  /** The `c` slots from `h` round to `t` are filled, the others are empty,
      and with no values `h` and `t` are the same slot. */
  ghost predicate Layout(slots: seq<Option<string>>, h: nat, t: nat, c: nat) {
    h < |slots| && t < |slots| && c <= |slots| &&
    (c == 0 ==> h == t) &&
    (c > 0 ==> t == Slot(h, c - 1, |slots|)) &&
    forall k :: 0 <= k < |slots| ==> (slots[Slot(h, k, |slots|)].Some? <==> k < c)
  }

  /** The values in the `c` slots from slot `h` round. */
  function Window(slots: seq<Option<string>>, h: nat, c: nat): (r: seq<string>)
    requires h < |slots| && c <= |slots|
    requires forall k :: 0 <= k < c ==> slots[Slot(h, k, |slots|)].Some?
    ensures |r| == c && forall k :: 0 <= k < c ==> slots[Slot(h, k, |slots|)] == Some(r[k])
  {
    if c == 0 then [] else Window(slots, h, c - 1) + [slots[Slot(h, c - 1, |slots|)].value]
  }

  /** The empty test on head, tail and the head slot. */
  lemma EmptyLayout(slots: seq<Option<string>>, h: nat, t: nat, c: nat)
    requires Layout(slots, h, t, c)
    ensures (h == t && slots[h].None?) <==> c == 0
  {
    assert Slot(h, 0, |slots|) == h;
  }

  /** The full test on head and tail: the slot after the tail is the head
      exactly when all slots are used, or when there is only one slot. */
  lemma FullLayout(slots: seq<Option<string>>, h: nat, t: nat, c: nat)
    requires Layout(slots, h, t, c)
    ensures (t + 1) % |slots| == h <==> c == |slots| || |slots| == 1
  {
    NextSlot(t, |slots|);
    if 0 < c < |slots| {
      assert (t + 1) % |slots| == Slot(h, c, |slots|);
      SlotInjective(h, c, 0, |slots|);
    }
  }

  /** Storing a value in the slot after the tail (or at the tail of an empty
      queue) appends it. */
  lemma PushLayout(slots: seq<Option<string>>, h: nat, t: nat, c: nat, v: string, t': nat)
    requires Layout(slots, h, t, c) && c < |slots|
    requires t' == if c == 0 then t else Slot(t, 1, |slots|)
    ensures Layout(slots[t' := Some(v)], h, t', c + 1)
    ensures Window(slots[t' := Some(v)], h, c + 1) == Window(slots, h, c) + [v]
  {
    var n := |slots|;
    var s' := slots[t' := Some(v)];
    assert t' == Slot(h, c, n);
    forall k | 0 <= k < n && k != c
      ensures Slot(h, k, n) != t'
    {
      SlotInjective(h, k, c, n);
    }
    assert forall k :: 0 <= k < n && k != c ==> s'[Slot(h, k, n)] == slots[Slot(h, k, n)];
    var w := Window(s', h, c + 1);
    assert w[..c] == Window(slots, h, c) by {
      forall k | 0 <= k < c ensures w[k] == Window(slots, h, c)[k] {
        assert s'[Slot(h, k, n)] == Some(w[k]);
      }
    }
    assert w == w[..c] + [w[c]];
  }

  /** Clearing the head slot and moving the head on (unless it was the last
      value) removes the oldest value. */
  lemma PopLayout(slots: seq<Option<string>>, h: nat, t: nat, c: nat, h': nat)
    requires Layout(slots, h, t, c) && c > 0
    requires h' == if t == h then h else Slot(h, 1, |slots|)
    ensures Layout(slots[h := None], h', t, c - 1)
    ensures Window(slots[h := None], h', c - 1) == Window(slots, h, c)[1..]
  {
    var n := |slots|;
    var s' := slots[h := None];
    if c > 1 {
      SlotInjective(h, c - 1, 0, n);
      assert h' == Slot(h, 1, n);
      forall k | 0 <= k < n
        ensures Slot(h', k, n) == Slot(h, if k + 1 < n then k + 1 else 0, n)
      {
      }
      forall k | 0 < k < n
        ensures Slot(h, k, n) != h
      {
        SlotInjective(h, k, 0, n);
      }
      var w := Window(s', h', c - 1);
      forall k | 0 <= k < c - 1 ensures w[k] == Window(slots, h, c)[1..][k] {
        assert s'[Slot(h', k, n)] == Some(w[k]);
      }
    } else {
      assert h' == h;
    }
  }

  class Queue {
    const size: nat
    const buffer: array<Option<string>>
    var head: nat
    var tail: nat
    /** Number of stored values. */
    ghost var count: nat

    ghost predicate Valid()
      reads this, buffer
    {
      0 < size && buffer.Length == size && Layout(buffer[..], head, tail, count)
    }

    /** The stored values, oldest first. */
    ghost function Contents(): (r: seq<string>)
      reads this, buffer
      requires Valid()
      ensures |r| == count
    {
      Window(buffer[..], head, count)
    }

    constructor (size: nat)
      requires size > 0
      ensures Valid() && this.size == size && Contents() == []
    {
      this.size := size;
      buffer := new Option<string>[size](_ => None);
      head, tail := 0, 0;
      count := 0;
    }

    /** Prints "overflow" when the slot after the tail is the head: that is a
        queue holding all `size` values, and every push into a one-slot
        queue. Otherwise the value is added at the back. */
    method Push(value: string) returns (out: string)
      requires Valid()
      modifies this, buffer
      ensures Valid()
      ensures out == "overflow\n" <==> old(|Contents()|) == size || size == 1
      ensures out == "overflow\n" ==> Contents() == old(Contents())
      ensures out != "overflow\n" ==> out == "" && Contents() == old(Contents()) + [value]
    {
      FullLayout(buffer[..], head, tail, count);
      if (tail + 1) % size == head {
        return "overflow\n";
      }
      EmptyLayout(buffer[..], head, tail, count);
      ghost var slots := buffer[..];
      if !Empty() {
        NextSlot(tail, size);
        SlotNext(tail, 0, size);
        tail := (tail + 1) % size;
      }
      PushLayout(slots, head, old(tail), count, value, tail);
      buffer[tail] := Some(value);
      assert buffer[..] == slots[tail := Some(value)];
      count := count + 1;
      out := "";
    }

    /** An empty queue prints "underflow"; otherwise the oldest value is
        printed and removed, and the head moves on unless it was the last. */
    method Pop() returns (out: string)
      requires Valid()
      modifies this, buffer
      ensures Valid()
      ensures old(Contents()) == [] ==> out == "underflow\n" && Contents() == []
      ensures old(Contents()) != [] ==>
        out == old(Contents()[0]) + "\n" && Contents() == old(Contents()[1..])
    {
      EmptyLayout(buffer[..], head, tail, count);
      if Empty() {
        return "underflow\n";
      }
      ghost var slots := buffer[..];
      ghost var before := Contents();
      assert slots[Slot(head, 0, size)] == Some(before[0]);
      out := buffer[head].value + "\n";
      buffer[head] := None;
      assert buffer[..] == slots[head := None];
      // the head slot is now empty, so `empty()` is the test below
      if !(head == tail && buffer[head].None?) {
        NextSlot(head, size);
        SlotNext(head, 0, size);
        head := (head + 1) % size;
      }
      PopLayout(slots, old(head), tail, count, head);
      count := count - 1;
      assert Contents() == before[1..];
    }

    /** Prints the values from head to tail on one line, or "empty". */
    method Print() returns (out: string)
      requires Valid()
      ensures out == if Contents() == [] then "empty\n" else Line(Contents())
    {
      EmptyLayout(buffer[..], head, tail, count);
      if Empty() {
        return "empty\n";
      }
      ghost var contents := Contents();
      out := "";
      var itr := head;
      ghost var k := 0;
      while itr != tail
        invariant 0 <= k < count && itr == Slot(head, k, size)
        invariant out == Spaced(contents[..k])
        decreases count - k
      {
        assert buffer[itr] == Some(contents[k]);
        out := out + buffer[itr].value + " ";
        assert contents[..k + 1][..k] == contents[..k];
        NextSlot(itr, size);
        SlotNext(head, k, size);
        itr := (itr + 1) % size;
        k := k + 1;
      }
      SlotInjective(head, k, count - 1, size);
      assert buffer[itr] == Some(contents[k]);
      out := out + buffer[itr].value + "\n";
      assert contents[..count - 1] == contents[..|contents| - 1];
    }

    function Empty(): (r: bool)
      reads this, buffer
      requires Valid()
      ensures r <==> Contents() == []
    {
      EmptyLayout(buffer[..], head, tail, count);
      head == tail && buffer[head].None?
    }
  }
}
