/** The integer scanner of module_1/A: a three-state machine (junk, sign,
    digit) run over one line of text. A number is reported when the digit run
    it is reading is ended by another character, with the sign character that
    came last before the run, if any. Python's generator becomes a method
    that returns everything the generator yields. */
module NumberScanner {

  datatype Mode = Junk | Sign | Digit

  predicate IsSign(ch: char) {
    ch == '+' || ch == '-'
  }

  /** Decimal digits. Python's `isdigit` also accepts other Unicode digits;
      those are not part of this model. */
  predicate IsDigit(ch: char) {
    '0' <= ch <= '9'
  }

  predicate AllDigits(s: string) {
    forall k :: 0 <= k < |s| ==> IsDigit(s[k])
  }

  /** An optional sign followed by at least one digit. */
  predicate Numeral(s: string) {
    |s| > 0 &&
    if IsSign(s[0]) then |s| > 1 && AllDigits(s[1..]) else AllDigits(s)
  }

  /** The value of a run of decimal digits. */
  function DigitsValue(s: string): (v: nat)
    requires AllDigits(s)
  {
    if s == [] then 0
    else 10 * DigitsValue(s[..|s| - 1]) + (s[|s| - 1] as int - '0' as int)
  }

  /** Python's `int` of a numeral. */
  function ParseInt(s: string): (v: int)
    requires Numeral(s)
    ensures s[0] != '-' ==> v >= 0
  {
    if s[0] == '-' then -(DigitsValue(s[1..]) as int)
    else if s[0] == '+' then DigitsValue(s[1..])
    else DigitsValue(s)
  }

  /** Length of the run of digits at the start of `s`. */
  function DigitRun(s: string): (r: nat)
    ensures r <= |s| && AllDigits(s[..r]) && (r < |s| ==> !IsDigit(s[r]))
  {
    if s == [] || !IsDigit(s[0]) then 0
    else
      var r := 1 + DigitRun(s[1..]);
      assert s[..r] == [s[0]] + s[1..][..r - 1];
      r
  }

  /** The numbers in `s` run by run, with `pending` the sign seen since the
      last number (or nothing): a sign replaces the pending one, other
      characters keep it, and a run of digits followed by some character gives
      the pending sign and the run as one number. A run that reaches the end
      of the text gives nothing. */
  function Numbers(s: string, pending: string): (r: seq<int>)
    requires pending == [] || (|pending| == 1 && IsSign(pending[0]))
    decreases |s|
  {
    if s == [] then []
    else if IsSign(s[0]) then Numbers(s[1..], [s[0]])
    else if !IsDigit(s[0]) then Numbers(s[1..], pending)
    else
      var r := DigitRun(s);
      if r == |s| then []
      else [ParseInt(pending + s[..r])] + Numbers(s[r..], [])
  }

  /** What the machine still yields from the rest of the line, given its
      mode and the text gathered so far. */
  function Remaining(mode: Mode, num: string, rest: string): seq<int>
    requires Gathered(mode, num)
  {
    match mode
    case Digit =>
      var r := DigitRun(rest);
      if r == |rest| then [] else [ParseInt(num + rest[..r])] + Numbers(rest[r..], [])
    case _ => Numbers(rest, num)
  }

  /** What the machine has gathered in each mode: nothing after junk, one sign
      after a sign, and a numeral while reading digits. */
  predicate Gathered(mode: Mode, num: string) {
    match mode
    case Junk => num == []
    case Sign => |num| == 1 && IsSign(num[0])
    case Digit => Numeral(num)
  }

  /** Yields every number of `line` that a later character ends. */
  method IntsFromLine(line: string) returns (nums: seq<int>)
    ensures nums == Numbers(line, [])
  {
    var mode := Junk;
    var num := "";
    nums := [];
    for i := 0 to |line|
      invariant Gathered(mode, num)
      invariant nums + Remaining(mode, num, line[i..]) == Numbers(line, [])
    {
      ghost var rest := line[i..];
      assert rest[1..] == line[i + 1..];
      var yielded;
      mode, num, yielded := Consume(mode, num, line[i], rest);
      nums := nums + yielded;
    }
    assert Remaining(mode, num, []) == [];
  }

  /** The body of the scanning loop for one character `e`: the new mode, the
      new gathered text and what is yielded. */
  method Consume(mode: Mode, num: string, e: char, ghost rest: string)
    returns (mode': Mode, num': string, yielded: seq<int>)
    requires Gathered(mode, num) && rest != [] && rest[0] == e
    ensures Gathered(mode', num')
    ensures Remaining(mode, num, rest) == yielded + Remaining(mode', num', rest[1..])
  {
    mode', num', yielded := mode, num, [];
    if IsSign(e) {
      StepSign(mode, num, rest);
      if mode' == Digit {
        yielded := [ParseInt(num')];
        num' := "";
      }
      mode' := Sign;
      num' := [e];
    } else if IsDigit(e) {
      StepDigit(mode, num, rest);
      if mode' == Junk || mode' == Sign {
        mode' := Digit;
      }
      num' := num' + [e];
    } else {
      StepOther(mode, num, rest);
      if mode' == Digit {
        mode' := Junk;
        yielded := [ParseInt(num')];
        num' := "";
      }
    }
  }

  /** A sign ends the number being read and becomes the pending sign. */
  lemma StepSign(mode: Mode, num: string, rest: string)
    requires Gathered(mode, num) && rest != [] && IsSign(rest[0])
    ensures mode == Digit ==>
      Remaining(mode, num, rest) == [ParseInt(num)] + Remaining(Sign, [rest[0]], rest[1..])
    ensures mode != Digit ==> Remaining(mode, num, rest) == Remaining(Sign, [rest[0]], rest[1..])
  {
    if mode == Digit {
      assert DigitRun(rest) == 0;
      assert num + rest[..0] == num;
    }
  }

  /** A digit extends the numeral being gathered. */
  lemma StepDigit(mode: Mode, num: string, rest: string)
    requires Gathered(mode, num) && rest != [] && IsDigit(rest[0])
    ensures Numeral(num + [rest[0]])
    ensures Remaining(mode, num, rest) == Remaining(Digit, num + [rest[0]], rest[1..])
  {
    var e := rest[0];
    assert Numeral(num + [e]) by {
      if num != [] {
        assert (num + [e])[1..] == num[1..] + [e];
        assert (num + [e])[0] == num[0];
      }
    }
    var r := DigitRun(rest);
    assert DigitRun(rest) == 1 + DigitRun(rest[1..]);
    assert rest[..r] == [e] + rest[1..][..r - 1];
    assert num + rest[..r] == (num + [e]) + rest[1..][..r - 1];
    assert rest[r..] == rest[1..][r - 1..];
  }

  /** Any other character ends the number being read and clears it, and is
      skipped otherwise. */
  lemma StepOther(mode: Mode, num: string, rest: string)
    requires Gathered(mode, num) && rest != [] && !IsSign(rest[0]) && !IsDigit(rest[0])
    ensures mode == Digit ==>
      Remaining(mode, num, rest) == [ParseInt(num)] + Remaining(Junk, [], rest[1..])
    ensures mode != Digit ==> Remaining(mode, num, rest) == Remaining(mode, num, rest[1..])
  {
    if mode == Digit {
      assert DigitRun(rest) == 0;
      assert num + rest[..0] == num;
    }
  }

  /** A line with no digits yields nothing. */
  lemma {:induction false} NoDigitsNoNumbers(s: string, pending: string)
    requires pending == [] || (|pending| == 1 && IsSign(pending[0]))
    requires forall k :: 0 <= k < |s| ==> !IsDigit(s[k])
    ensures Numbers(s, pending) == []
    decreases |s|
  {
    if s != [] {
      if IsSign(s[0]) {
        NoDigitsNoNumbers(s[1..], [s[0]]);
      } else {
        NoDigitsNoNumbers(s[1..], pending);
      }
    }
  }

  /** Digits at the very end of the line are never reported: appending
      digits to a line that ends in a non-digit adds no number. */
  lemma {:induction false} TrailingDigitsDropped(s: string, digits: string, pending: string)
    requires pending == [] || (|pending| == 1 && IsSign(pending[0]))
    requires AllDigits(digits)
    requires s == [] || !IsDigit(s[|s| - 1])
    ensures Numbers(s + digits, pending) == Numbers(s, pending)
    decreases |s|
  {
    var t := s + digits;
    if s == [] {
      if digits != [] {
        assert DigitRun(t) == |t| by { DigitRunAll(t); }
      }
    } else {
      assert t[1..] == s[1..] + digits;
      if IsSign(s[0]) {
        TrailingDigitsDropped(s[1..], digits, [s[0]]);
      } else if !IsDigit(s[0]) {
        TrailingDigitsDropped(s[1..], digits, pending);
      } else {
        var r := DigitRun(s);
        assert r < |s|;
        assert DigitRun(t) == r by { DigitRunPrefix(s, digits); }
        assert t[..r] == s[..r];
        assert t[r..] == s[r..] + digits;
        TrailingDigitsDropped(s[r..], digits, []);
      }
    }
  }

  /** A text of digits is one run. */
  lemma {:induction false} DigitRunAll(s: string)
    requires AllDigits(s)
    ensures DigitRun(s) == |s|
    decreases |s|
  {
    if s != [] {
      DigitRunAll(s[1..]);
    }
  }

  /** The run at the start of `s` is unchanged by what follows `s` when the
      run stops inside `s`. */
  lemma {:induction false} DigitRunPrefix(s: string, more: string)
    requires DigitRun(s) < |s|
    ensures DigitRun(s + more) == DigitRun(s)
    decreases |s|
  {
    if IsDigit(s[0]) {
      assert (s + more)[1..] == s[1..] + more;
      DigitRunPrefix(s[1..], more);
    }
  }

  /** Every value is Python's `int` of some numeral. */
  ghost predicate AllParsed(ns: seq<int>) {
    forall k :: 0 <= k < |ns| ==> exists tok :: Numeral(tok) && ns[k] == ParseInt(tok)
  }

  /** Every reported value is Python's `int` of a numeral. */
  lemma {:induction false} NumbersAreNumerals(s: string, pending: string)
    requires pending == [] || (|pending| == 1 && IsSign(pending[0]))
    ensures AllParsed(Numbers(s, pending))
    decreases |s|
  {
    if s != [] {
      if IsSign(s[0]) {
        NumbersAreNumerals(s[1..], [s[0]]);
        assert Numbers(s, pending) == Numbers(s[1..], [s[0]]);
      } else if !IsDigit(s[0]) {
        NumbersAreNumerals(s[1..], pending);
        assert Numbers(s, pending) == Numbers(s[1..], pending);
      } else {
        var r := DigitRun(s);
        if r < |s| {
          var tok := pending + s[..r];
          assert Numeral(tok) by {
            if pending != [] {
              assert tok[1..] == s[..r];
            }
          }
          NumbersAreNumerals(s[r..], []);
          var ns := Numbers(s, pending);
          assert ns == [ParseInt(tok)] + Numbers(s[r..], []);
          forall k | 0 <= k < |ns|
            ensures exists t :: Numeral(t) && ns[k] == ParseInt(t)
          {
            if k == 0 {
              assert Numeral(tok) && ns[0] == ParseInt(tok);
            } else {
              assert ns[k] == Numbers(s[r..], [])[k - 1];
            }
          }
        }
      }
    }
  }

  /** A sign kept across junk: "+a5\n" yields 5 with the sign attached. */
  lemma PendingSignSurvivesJunk()
    ensures Numbers("+a5\n", []) == [5]
  {
    assert DigitRun("5\n") == 1;
    assert ParseInt("+5") == 5;
  }

  /** A sign right after digits ends that number and starts the next:
      "5-3x" yields 5 and then -3. */
  lemma SignSplitsNumbers()
    ensures Numbers("5-3x", []) == [5, -3]
  {
    assert DigitRun("5-3x") == 1;
    assert DigitRun("3x") == 1;
    assert ParseInt("5") == 5;
    assert ParseInt("-3") == -3;
  }
}
