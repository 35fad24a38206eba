/** The shortest-route exercise of module_3/B: `calculate` walks a number
    down to 0 and records, last step first, how to build it back up from 0
    with "inc" (+1), "dec" (-1) and "dbl" (x2). Python's bit operations on
    integers are written as arithmetic: `n & 1` is `n % 2` and `n >> 1` is
    `n / 2` (both floor-based, as Dafny's are for a positive divisor). */
module Reduction {

  function Pow2(k: nat): (p: nat)
    ensures p >= 1
  {
    if k == 0 then 1 else 2 * Pow2(k - 1)
  }

  /** How often `n` halves evenly: the exponent of 2 in `n`. */
  method AvailableDivisionCount(n: int) returns (count: nat)
    requires n != 0
    ensures count == Twos(n)
  {
    count := 0;
    var num := n;
    while num % 2 == 0
      invariant num != 0 && count + Twos(num) == Twos(n)
      decreases if num < 0 then -num else num
    {
      count := count + 1;
      num := num / 2;
    }
  }

  /** The number of times a non-zero number halves evenly. */
  function Twos(n: int): nat
    requires n != 0
    decreases if n < 0 then -n else n
  {
    if n % 2 == 1 then 0 else 1 + Twos(n / 2)
  }

  /** What is left of `n` once every factor 2 is divided out. */
  function OddPart(n: int): int
    requires n != 0
    decreases if n < 0 then -n else n
  {
    if n % 2 == 1 then n else OddPart(n / 2)
  }

  /** `n` is 2 to the power `Twos(n)` times an odd number: the count is the
      exponent of 2 in `n`. */
  lemma {:induction false} TwosFactor(n: int)
    requires n != 0
    ensures n == Pow2(Twos(n)) * OddPart(n) && OddPart(n) % 2 == 1
    decreases if n < 0 then -n else n
  {
    if n % 2 == 0 {
      TwosFactor(n / 2);
      assert Pow2(Twos(n)) == 2 * Pow2(Twos(n / 2));
      assert n == 2 * (n / 2);
    }
  }

  /** The step `calculate` takes from `bank`: halve an even number, step
      down from 1 and 3, and otherwise go to whichever odd neighbour has more
      factors 2, preferring the lower one on a tie. */
  function Move(bank: nat): (r: (string, nat))
    requires bank > 0
    ensures r.0 == "inc" || r.0 == "dec" || r.0 == "dbl"
    ensures r.0 == "dec" ==> bank % 2 == 1 && bank >= 5
  {
    if bank % 2 == 0 then ("dbl", bank / 2)
    else if bank == 1 || bank == 3 then ("inc", bank - 1)
    else if Twos(bank + 1) > Twos(bank - 1) then ("dec", bank + 1)
    else ("inc", bank - 1)
  }

  /** The decreasing measure of the walk: an odd number other than 1 counts
      as its upper neighbour, and a tie goes to the even one. */
  function Measure(bank: nat): (nat, nat) {
    (if bank % 2 == 1 && bank != 1 then bank + 1 else bank, bank % 2)
  }

  /** The recorded operations for `bank`, in the order `calculate` records
      them. */
  function Plan(bank: nat): (ops: seq<string>)
    decreases Measure(bank).0, Measure(bank).1
  {
    if bank == 0 then []
    else
      var (op, next) := Move(bank);
      MoveDecreases(bank);
      [op] + Plan(next)
  }

  lemma MoveDecreases(bank: nat)
    requires bank > 0
    ensures var next := Move(bank).1;
      Measure(next).0 < Measure(bank).0 ||
      (Measure(next).0 == Measure(bank).0 && Measure(next).1 < Measure(bank).1)
  {
  }

  /** The list of operations for `half`, last one first. */
  method Calculate(half: nat) returns (res: seq<string>)
    ensures res == Plan(half)
    ensures Replay(Reverse(res), 0) == half
    ensures forall k :: 0 <= k < |res| ==> res[k] in {"inc", "dec", "dbl"}
    ensures half == 0 ==> res == []
  {
    var bank := half;
    res := [];
    while bank != 0
      invariant res + Plan(bank) == Plan(half)
      decreases Measure(bank).0, Measure(bank).1
    {
      MoveDecreases(bank);
      ghost var before, step := res, Move(bank);
      assert Plan(bank) == [step.0] + Plan(step.1);
      if bank % 2 == 0 {
        res := res + ["dbl"];
        bank := bank / 2;
      } else {
        if bank == 1 || bank == 3 {
          res := res + ["inc"];
          bank := bank - 1;
        } else {
          var up := AvailableDivisionCount(bank + 1);
          var down := AvailableDivisionCount(bank - 1);
          if up > down {
            res := res + ["dec"];
            bank := bank + 1;
          } else {
            res := res + ["inc"];
            bank := bank - 1;
          }
        }
      }
      assert res == before + [step.0] && bank == step.1;
      AppendAssoc(before, step.0, Plan(bank));
    }
    PlanReplays(half);
    PlanOps(half);
  }

  lemma AppendAssoc(a: seq<string>, x: string, b: seq<string>)
    ensures (a + [x]) + b == a + ([x] + b)
  {
  }

  /** Applies an operation the way the output is read. */
  function Apply(op: string, x: int): int {
    if op == "inc" then x + 1 else if op == "dec" then x - 1 else if op == "dbl" then 2 * x else x
  }

  /** Replays operations from left to right starting at `x`. */
  function Replay(ops: seq<string>, x: int): int
    decreases |ops|
  {
    if ops == [] then x else Replay(ops[1..], Apply(ops[0], x))
  }

  function Reverse(ops: seq<string>): (r: seq<string>)
    ensures |r| == |ops|
  {
    if ops == [] then [] else Reverse(ops[1..]) + [ops[0]]
  }

  /** Each recorded operation undoes the step it stands for. */
  lemma MoveUndone(bank: nat)
    requires bank > 0
    ensures Apply(Move(bank).0, Move(bank).1) == bank
  {
  }

  /** Replaying past the end of a list continues from its result. */
  lemma {:induction false} ReplayAppend(ops: seq<string>, op: string, x: int)
    ensures Replay(ops + [op], x) == Apply(op, Replay(ops, x))
    decreases |ops|
  {
    if ops != [] {
      assert (ops + [op])[1..] == ops[1..] + [op];
      ReplayAppend(ops[1..], op, Apply(ops[0], x));
    }
  }

  /** Replaying the plan in reverse from 0 builds `bank` back. */
  lemma {:induction false} PlanReplays(bank: nat)
    ensures Replay(Reverse(Plan(bank)), 0) == bank
    decreases Measure(bank).0, Measure(bank).1
  {
    if bank > 0 {
      var (op, next) := Move(bank);
      MoveDecreases(bank);
      PlanReplays(next);
      assert Plan(bank) == [op] + Plan(next);
      assert Reverse(Plan(bank)) == Reverse(Plan(next)) + [op];
      ReplayAppend(Reverse(Plan(next)), op, 0);
      MoveUndone(bank);
    }
  }

  /** Every recorded operation is one of the three commands. */
  lemma {:induction false} PlanOps(bank: nat)
    ensures forall k :: 0 <= k < |Plan(bank)| ==> Plan(bank)[k] in {"inc", "dec", "dbl"}
    decreases Measure(bank).0, Measure(bank).1
  {
    if bank > 0 {
      MoveDecreases(bank);
      PlanOps(Move(bank).1);
    }
  }

  /** "dec" is recorded only for an odd number of at least 5 whose upper
      neighbour has strictly more factors 2 than its lower one. */
  lemma DecOnlyWhenUpperHasMoreTwos(bank: nat)
    requires bank > 0 && Move(bank).0 == "dec"
    ensures bank % 2 == 1 && bank >= 5 && Twos(bank + 1) > Twos(bank - 1)
  {
  }
}
