/** The bounded stack of module_1/B: a buffer of `size` slots, `None` where
    nothing is stored, and the index of the top slot (-1 when empty). Each
    command reports by printing; here every method returns the text it
    prints. */
module PrintingStack {
  import opened Wrappers
  import opened TextOutput

  /** The stored values of a run of filled slots. */
  function Values(slots: seq<Option<string>>): (r: seq<string>)
    requires forall i :: 0 <= i < |slots| ==> slots[i].Some?
    ensures |r| == |slots| && forall i :: 0 <= i < |r| ==> Some(r[i]) == slots[i]
  {
    if slots == [] then [] else Values(slots[..|slots| - 1]) + [slots[|slots| - 1].value]
  }

  class Stack {
    const size: nat
    const buffer: array<Option<string>>
    var head: int

    /** Slots 0..head are filled and the rest are `None`. */
    ghost predicate Valid()
      reads this, buffer
    {
      buffer.Length == size && -1 <= head < size &&
      forall i :: 0 <= i < size ==> (buffer[i].Some? <==> i <= head)
    }

    /** The stack from bottom to top. */
    function Contents(): (r: seq<string>)
      reads this, buffer
      requires Valid()
      ensures |r| == head + 1 <= size
      ensures forall i :: 0 <= i < |r| ==> buffer[i] == Some(r[i])
    {
      Values(buffer[..head + 1])
    }

    constructor (size: nat)
      ensures Valid() && this.size == size && Contents() == []
    {
      this.size := size;
      buffer := new Option<string>[size](_ => None);
      head := -1;
    }

    /** A full stack prints "overflow" and stays as it is; otherwise the
        value goes on top. */
    method Push(value: string) returns (out: string)
      requires Valid()
      modifies this, buffer
      ensures Valid()
      ensures out == "overflow\n" <==> old(|Contents()|) == size
      ensures out == "overflow\n" ==> Contents() == old(Contents())
      ensures out != "overflow\n" ==> out == "" && Contents() == old(Contents()) + [value]
    {
      if head + 1 >= size {
        out := "overflow\n";
        return;
      }
      ghost var before := Contents();
      head := head + 1;
      buffer[head] := Some(value);
      out := "";
      assert Contents() == before + [value];
    }

    /** An empty stack prints "underflow"; otherwise the top value is printed
        and removed. */
    method Pop() returns (out: string)
      requires Valid()
      modifies this, buffer
      ensures Valid()
      ensures old(Contents()) == [] ==> out == "underflow\n" && Contents() == []
      ensures old(Contents()) != [] ==>
        out == old(Contents()[|Contents()| - 1]) + "\n" &&
        Contents() == old(Contents()[..|Contents()| - 1])
    {
      if Empty() {
        out := "underflow\n";
        return;
      }
      ghost var before := Contents();
      out := buffer[head].value + "\n";
      buffer[head] := None;
      head := head - 1;
      assert Contents() == before[..|before| - 1];
    }

    /** Prints the values bottom to top on one line, or "empty". */
    method Print() returns (out: string)
      requires Valid()
      ensures out == if Contents() == [] then "empty\n" else Line(Contents())
    {
      out := "";
      if Empty() {
        out := "empty\n";
      }
      var i := 0;
      while i < head + 1
        invariant 0 <= i <= head + 1
        invariant Contents() == [] ==> out == "empty\n"
        invariant Contents() != [] && i <= head ==> out == Spaced(Contents()[..i])
        invariant Contents() != [] && i == head + 1 ==> out == Line(Contents())
      {
        var end := if i == head then "\n" else " ";
        out := out + buffer[i].value + end;
        assert Contents()[..i + 1][..i] == Contents()[..i];
        i := i + 1;
      }
    }

    /** `empty` of module_1/B/module.py. The two stacks are separate
        classes of separate programs, with different slot invariants, so
        each has its own test of the top index. */
    function Empty(): (r: bool)
      reads this, buffer
      requires Valid()
      ensures r <==> Contents() == []
    {
      head == -1
    }
  }
}

/** The bounded stack template of module_1/main.cpp, used with strings:
    value-initialised slots (the empty string), the index of the top slot,
    and exceptions for overflow, underflow and printing an empty stack. */
module ThrowingStack {
  import opened Wrappers
  import opened TextOutput

  class Stack {
    const size: nat
    const buffer: array<string>
    var head: int

    /** Slots above the top hold the empty string. */
    ghost predicate Valid()
      reads this, buffer
    {
      buffer.Length == size && -1 <= head < size &&
      forall i :: head < i < size ==> buffer[i] == ""
    }

    /** The stack from bottom to top. */
    function Contents(): (r: seq<string>)
      reads this, buffer
      requires Valid()
      ensures |r| == head + 1 <= size
      ensures forall i :: 0 <= i < |r| ==> r[i] == buffer[i]
    {
      buffer[..head + 1]
    }

    constructor (size: nat)
      ensures Valid() && this.size == size && Contents() == []
    {
      this.size := size;
      buffer := new string[size](_ => "");
      head := -1;
    }

    /** Throws "overflow" on a full stack; otherwise the value goes on top. */
    method Push(value: string) returns (r: Result<(), string>)
      requires Valid()
      modifies this, buffer
      ensures Valid()
      ensures r.Failure? <==> old(|Contents()|) == size
      ensures r.Failure? ==> r.error == "overflow" && Contents() == old(Contents())
      ensures r.Success? ==> Contents() == old(Contents()) + [value]
    {
      if head + 1 >= size {
        return Failure("overflow");
      }
      head := head + 1;
      buffer[head] := value;
      r := Success(());
    }

    /** Throws "underflow" on an empty stack; otherwise returns the top value,
        resets its slot and removes it. */
    method Pop() returns (r: Result<string, string>)
      requires Valid()
      modifies this, buffer
      ensures Valid()
      ensures r.Failure? <==> old(Contents()) == []
      ensures r.Failure? ==> r.error == "underflow" && Contents() == []
      ensures r.Success? ==>
        r.value == old(Contents()[|Contents()| - 1]) &&
        Contents() == old(Contents()[..|Contents()| - 1])
    {
      if Empty() {
        return Failure("underflow");
      }
      var res := buffer[head];
      buffer[head] := "";
      head := head - 1;
      r := Success(res);
    }

    /** Throws "empty" on an empty stack; otherwise writes every value below
        the top, each followed by a blank. The top value is not written. */
    method Print() returns (r: Result<string, string>)
      requires Valid()
      ensures r.Failure? <==> Contents() == []
      ensures r.Failure? ==> r.error == "empty"
      ensures r.Success? ==> r.value == Spaced(Contents()[..|Contents()| - 1])
    {
      if Empty() {
        return Failure("empty");
      }
      var out := "";
      var i := 0;
      while i < head
        invariant 0 <= i <= head
        invariant out == Spaced(Contents()[..i])
      {
        out := out + buffer[i] + " ";
        assert Contents()[..i + 1][..i] == Contents()[..i];
        i := i + 1;
      }
      r := Success(out);
    }

    /** `Empty` of module_1/main.cpp: the same test of the top index as
        the Python stack's, on this class's own fields. */
    function Empty(): (r: bool)
      reads this, buffer
      requires Valid()
      ensures r <==> Contents() == []
    {
      head == -1
    }
  }
}
