/** The Damerau-Levenshtein table that CompressedTrie's search computes one row
    at a time (module_2/D/m2_taskD.cpp, DamerauLevenshtein), written as a
    recursive function of the row and column, together with the early stop
    the source applies and the facts the search relies on. */
module TrieDistance {

  /** The substitution cost of two characters. */
  function Cost(a: char, b: char): nat {
    if a == b then 0 else 1
  }

  function Min(a: nat, b: nat): nat {
    if a <= b then a else b
  }

  /** Whether the transposition relaxation applies at row i, column j. */
  predicate Swapped(s1: string, s2: string, i: nat, j: nat)
    requires i <= |s1| && j <= |s2|
  {
    i > 1 && j > 1 && s1[i - 1] == s2[j - 2] && s1[i - 2] == s2[j - 1]
  }

  /** Entry j of row i: row 0 is 0..|s2|, column 0 of row i is i, and every
      other entry is the minimum of the three neighbours, relaxed by the
      entry two rows and two columns back plus the substitution cost when the
      last two characters are swapped. */
  function Table(s1: string, s2: string, i: nat, j: nat): nat
    requires i <= |s1| && j <= |s2|
    decreases i + j
  {
    if i == 0 then j
    else if j == 0 then i
    else
      var swapped := Swapped(s1, s2, i, j);
      CellValue(Table(s1, s2, i - 1, j), Table(s1, s2, i, j - 1), Table(s1, s2, i - 1, j - 1),
                if swapped then Table(s1, s2, i - 2, j - 2) else 0,
                Cost(s1[i - 1], s2[j - 1]), swapped)
  }

  /** One entry from its neighbours: the cheapest of a deletion (from above),
      an insertion (from the left) and a substitution (from the diagonal),
      and, after a swap, the entry two back on the diagonal plus the cost. */
  function CellValue(up: nat, left: nat, diag: nat, diag2: nat, cost: nat, swapped: bool): nat {
    var base := Min(Min(up + 1, left + 1), diag + cost);
    if swapped then Min(base, diag2 + cost) else base
  }

  /** r is row i of the table: |s2| + 1 entries, entry k being Table(s1, s2, i, k). */
  ghost predicate IsRow(r: seq<nat>, s1: string, s2: string, i: nat)
    requires i <= |s1|
  {
    |r| == |s2| + 1 && forall k {:trigger r[k]} :: 0 <= k < |r| ==> r[k] == Table(s1, s2, i, k)
  }

  /** Entry j of row i computed from rows i - 1 and i - 2, left to right,
      the way the rolling rows of DamerauLevenshtein compute it. */
  function RowCell(s1: string, s2: string, i: nat, previous: seq<nat>, prePrevious: seq<nat>, j: nat): nat
    requires 1 <= i <= |s1| && j <= |s2| && |previous| == |s2| + 1 && |prePrevious| == |s2| + 1
  {
    if j == 0 then i
    else
      var swapped := Swapped(s1, s2, i, j);
      CellValue(previous[j], RowCell(s1, s2, i, previous, prePrevious, j - 1), previous[j - 1],
                if swapped then prePrevious[j - 2] else 0, Cost(s1[i - 1], s2[j - 1]), swapped)
  }

  /** Computed from the true rows i - 1 and i - 2, RowCell is the table entry. */
  lemma {:induction false} RowCellTable(s1: string, s2: string, i: nat, previous: seq<nat>, prePrevious: seq<nat>, j: nat)
    requires 1 <= i <= |s1| && j <= |s2|
    requires IsRow(previous, s1, s2, i - 1)
    requires |prePrevious| == |s2| + 1
    requires i >= 2 ==> IsRow(prePrevious, s1, s2, i - 2)
    ensures RowCell(s1, s2, i, previous, prePrevious, j) == Table(s1, s2, i, j)
  {
    if j > 0 {
      RowCellTable(s1, s2, i, previous, prePrevious, j - 1);
      assert previous[j] == Table(s1, s2, i - 1, j) && previous[j - 1] == Table(s1, s2, i - 1, j - 1);
      if i > 1 && j > 1 {
        assert prePrevious[j - 2] == Table(s1, s2, i - 2, j - 2);
      }
    }
  }

  /** A row built by RowCell from the true rows i - 1 and i - 2 is row i, and
      it has an entry within budget exactly when row i does. */
  lemma NextRowIsRow(s1: string, s2: string, max: nat, i: nat, previous: seq<nat>, prePrevious: seq<nat>, r: seq<nat>)
    requires 1 <= i <= |s1|
    requires IsRow(previous, s1, s2, i - 1)
    requires |prePrevious| == |s2| + 1
    requires i >= 2 ==> IsRow(prePrevious, s1, s2, i - 2)
    requires |r| == |s2| + 1
    requires forall k :: 0 <= k < |r| ==> r[k] == RowCell(s1, s2, i, previous, prePrevious, k)
    ensures IsRow(r, s1, s2, i)
    ensures HasValid(s1, s2, max, i) <==> exists k :: 1 <= k < |r| && r[k] <= max
  {
    forall k | 0 <= k < |r|
      ensures RowCell(s1, s2, i, previous, prePrevious, k) == Table(s1, s2, i, k)
    {
      RowCellTable(s1, s2, i, previous, prePrevious, k);
    }
    if HasValid(s1, s2, max, i) {
      var j :| 1 <= j <= |s2| && Table(s1, s2, i, j) <= max;
      assert r[j] <= max;
    }
    if exists k :: 1 <= k < |r| && r[k] <= max {
      var k :| 1 <= k < |r| && r[k] <= max;
      assert Table(s1, s2, i, k) <= max;
    }
  }

  /** The distance the search compares with the budget: the last entry of the last row. */
  function Dist(s1: string, s2: string): nat {
    Table(s1, s2, |s1|, |s2|)
  }

  /** Row i has an entry within budget in a column j >= 1. */
  predicate HasValid(s1: string, s2: string, max: nat, i: nat)
    requires i <= |s1|
  {
    exists j :: 1 <= j <= |s2| && Table(s1, s2, i, j) <= max
  }

  /** The early stop fires at row i: row i has no entry within budget while
      row i - 1 (itself computed in the loop, so i - 1 >= 1) had one. */
  predicate StopsAt(s1: string, s2: string, max: nat, i: nat) {
    2 <= i <= |s1| && HasValid(s1, s2, max, i - 1) && !HasValid(s1, s2, max, i)
  }

  /** The number of rows of s1 processed when scanning starts at row i. */
  function StopFrom(s1: string, s2: string, max: nat, i: nat): (r: nat)
    requires 1 <= i
    ensures r <= |s1|
    decreases |s1| + 1 - i
  {
    if i > |s1| then |s1|
    else if StopsAt(s1, s2, max, i) then i - 1
    else StopFrom(s1, s2, max, i + 1)
  }

  /** The number of characters of s1 the table was computed for. */
  function RowsComputed(s1: string, s2: string, max: nat): (r: nat)
    ensures r <= |s1|
  {
    StopFrom(s1, s2, max, 1)
  }

  /** The early stop never fired: the returned row is the last row of the table. */
  predicate Complete(s1: string, s2: string, max: nat) {
    RowsComputed(s1, s2, max) == |s1|
  }

  // ---------------------------------------------------------------------
  // The early stop
  // ---------------------------------------------------------------------

  /** StopFrom returns the row before the first stop at or after i, or |s1|. */
  lemma {:induction false} StopFromSpec(s1: string, s2: string, max: nat, i: nat)
    requires 1 <= i
    ensures StopFrom(s1, s2, max, i) <= |s1|
    ensures StopFrom(s1, s2, max, i) == |s1| ==>
              forall t :: i <= t <= |s1| ==> !StopsAt(s1, s2, max, t)
    ensures StopFrom(s1, s2, max, i) < |s1| ==>
              var r := StopFrom(s1, s2, max, i);
              i <= r + 1 && StopsAt(s1, s2, max, r + 1) &&
              forall t :: i <= t <= r ==> !StopsAt(s1, s2, max, t)
    decreases |s1| + 1 - i
  {
    if i <= |s1| && !StopsAt(s1, s2, max, i) {
      StopFromSpec(s1, s2, max, i + 1);
    }
  }

  /** One step of the scan for the early stop. */
  lemma StopStep(s1: string, s2: string, max: nat, i: nat)
    requires 1 <= i <= |s1|
    ensures StopsAt(s1, s2, max, i) ==> StopFrom(s1, s2, max, i) == i - 1
    ensures !StopsAt(s1, s2, max, i) ==> StopFrom(s1, s2, max, i) == StopFrom(s1, s2, max, i + 1)
  {
  }

  /** Without a stop in [i, |s1|] every row is computed. */
  lemma {:induction false} NoStopFrom(s1: string, s2: string, max: nat, i: nat)
    requires 1 <= i
    requires forall t :: i <= t <= |s1| ==> !StopsAt(s1, s2, max, t)
    ensures StopFrom(s1, s2, max, i) == |s1|
    decreases |s1| + 1 - i
  {
    if i <= |s1| {
      NoStopFrom(s1, s2, max, i + 1);
    }
  }

  /** The returned row starts with the number of processed characters, and
      that number is |s1| exactly when no stop fired. */
  lemma RowsComputedSpec(s1: string, s2: string, max: nat)
    ensures RowsComputed(s1, s2, max) <= |s1|
    ensures Complete(s1, s2, max) <==> forall t :: 2 <= t <= |s1| ==> !StopsAt(s1, s2, max, t)
  {
    StopFromSpec(s1, s2, max, 1);
    if forall t :: 2 <= t <= |s1| ==> !StopsAt(s1, s2, max, t) {
      NoStopFrom(s1, s2, max, 1);
    }
  }

  // ---------------------------------------------------------------------
  // Rows of a prefix
  // ---------------------------------------------------------------------

  /** One step of TableAgree: equal neighbours and equal characters give equal entries. */
  lemma TableAgreeStep(s1: string, t1: string, s2: string, i: nat, j: nat)
    requires 1 <= i <= |s1| && i <= |t1| && 1 <= j <= |s2|
    requires s1[i - 1] == t1[i - 1] && (i > 1 ==> s1[i - 2] == t1[i - 2])
    requires Table(s1, s2, i - 1, j) == Table(t1, s2, i - 1, j)
    requires Table(s1, s2, i, j - 1) == Table(t1, s2, i, j - 1)
    requires Table(s1, s2, i - 1, j - 1) == Table(t1, s2, i - 1, j - 1)
    requires i > 1 && j > 1 ==> Table(s1, s2, i - 2, j - 2) == Table(t1, s2, i - 2, j - 2)
    ensures Table(s1, s2, i, j) == Table(t1, s2, i, j)
  {
    assert Swapped(s1, s2, i, j) == Swapped(t1, s2, i, j);
  }

  /** The first i rows only read the first i characters of s1. */
  lemma {:induction false} TableAgree(s1: string, t1: string, s2: string, i: nat, j: nat)
    requires i <= |s1| && i <= |t1| && j <= |s2|
    requires forall k :: 0 <= k < i ==> s1[k] == t1[k]
    ensures Table(s1, s2, i, j) == Table(t1, s2, i, j)
    decreases i + j
  {
    if i != 0 && j != 0 {
      TableAgree(s1, t1, s2, i - 1, j);
      TableAgree(s1, t1, s2, i, j - 1);
      TableAgree(s1, t1, s2, i - 1, j - 1);
      if i > 1 && j > 1 {
        TableAgree(s1, t1, s2, i - 2, j - 2);
      }
      TableAgreeStep(s1, t1, s2, i, j);
    }
  }

  lemma HasValidPrefix(s1: string, s2: string, max: nat, k: nat, i: nat)
    requires i <= k <= |s1|
    ensures HasValid(s1, s2, max, i) == HasValid(s1[..k], s2, max, i)
  {
    forall j | 1 <= j <= |s2|
      ensures Table(s1, s2, i, j) == Table(s1[..k], s2, i, j)
    {
      TableAgree(s1, s1[..k], s2, i, j);
    }
  }

  /** A path whose table was completed has completed tables for all its prefixes. */
  lemma {:induction false} CompletePrefix(s1: string, s2: string, max: nat, k: nat)
    requires k <= |s1|
    requires Complete(s1, s2, max)
    ensures Complete(s1[..k], s2, max)
  {
    RowsComputedSpec(s1, s2, max);
    RowsComputedSpec(s1[..k], s2, max);
    forall t | 2 <= t <= k
      ensures !StopsAt(s1[..k], s2, max, t)
    {
      HasValidPrefix(s1, s2, max, k, t - 1);
      HasValidPrefix(s1, s2, max, k, t);
      assert !StopsAt(s1, s2, max, t);
    }
  }

  // ---------------------------------------------------------------------
  // Distance zero
  // ---------------------------------------------------------------------

  /** An entry is zero exactly when the two prefixes are equal. */
  lemma {:induction false} TableZero(s1: string, s2: string, i: nat, j: nat)
    requires i <= |s1| && j <= |s2|
    ensures Table(s1, s2, i, j) == 0 <==> i == j && s1[..i] == s2[..j]
    decreases i + j
  {
    if i == 0 || j == 0 {
    } else {
      TableZero(s1, s2, i - 1, j - 1);
      var cost := Cost(s1[i - 1], s2[j - 1]);
      if i == j && s1[..i] == s2[..j] {
        assert s1[..i - 1] == s1[..i][..i - 1] && s2[..j - 1] == s2[..j][..j - 1];
        assert s1[i - 1] == s1[..i][i - 1];
      }
      if Table(s1, s2, i, j) == 0 {
        if Swapped(s1, s2, i, j) && Table(s1, s2, i - 2, j - 2) + cost == 0 {
          // A zero-cost swap of two equal characters: the diagonal is zero as well.
          TableZero(s1, s2, i - 2, j - 2);
          assert s1[..i - 1] == s1[..i - 2] + [s1[i - 2]];
          assert s2[..j - 1] == s2[..j - 2] + [s2[j - 2]];
        }
        assert Table(s1, s2, i - 1, j - 1) + cost == 0;
        assert s1[..i] == s1[..i - 1] + [s1[i - 1]];
        assert s2[..j] == s2[..j - 1] + [s2[j - 1]];
      }
    }
  }

  /** The distance is zero exactly for equal strings. */
  lemma DistZero(s1: string, s2: string)
    ensures Dist(s1, s2) == 0 <==> s1 == s2
  {
    TableZero(s1, s2, |s1|, |s2|);
    assert s1[..|s1|] == s1 && s2[..|s2|] == s2;
  }

  // ---------------------------------------------------------------------
  // Soundness of the early stop
  // ---------------------------------------------------------------------

  lemma {:induction false} FirstColumnBound(s1: string, s2: string, i: nat)
    requires 1 <= i <= |s1| && 1 <= |s2|
    ensures Table(s1, s2, i, 1) <= i
  {
  }

  /** The inner step of NextRowAbove: an entry whose three upper-left
      neighbours are over budget is over budget too. */
  lemma NextRowAboveStep(s1: string, s2: string, max: nat, i: nat, j: nat)
    requires 1 <= i < |s1| && 2 <= j <= |s2|
    requires Table(s1, s2, i, j) > max && Table(s1, s2, i, j - 1) > max
    requires Table(s1, s2, i + 1, j - 1) > max
    ensures Table(s1, s2, i + 1, j) > max
  {
    if Swapped(s1, s2, i + 1, j) {
      // The entry two rows back, plus the cost of the same swapped pair,
      // bounds the substitution that reaches row i, column j - 1.
      assert Table(s1, s2, i, j - 1) <=
             Table(s1, s2, i - 1, j - 2) + Cost(s1[i - 1], s2[j - 2]);
      assert Cost(s1[i - 1], s2[j - 2]) == Cost(s1[i], s2[j - 1]);
    }
  }

  /** Every entry of a row that follows a row with nothing within budget is over budget. */
  lemma {:induction false} NextRowAbove(s1: string, s2: string, max: nat, i: nat, j: nat)
    requires 1 <= i < |s1| && 1 <= j <= |s2|
    requires !HasValid(s1, s2, max, i)
    ensures Table(s1, s2, i + 1, j) > max
    decreases j
  {
    FirstColumnBound(s1, s2, i);
    assert Table(s1, s2, i, 1) > max;
    assert Table(s1, s2, i, j) > max;
    if j > 1 {
      NextRowAbove(s1, s2, max, i, j - 1);
      assert Table(s1, s2, i, j - 1) > max;
      NextRowAboveStep(s1, s2, max, i, j);
    }
  }

  /** Pruning is sound: once a row has no entry within budget, no later row has one. */
  lemma {:induction false} InvalidPersists(s1: string, s2: string, max: nat, i: nat, k: nat)
    requires 1 <= i <= k <= |s1|
    requires !HasValid(s1, s2, max, i)
    ensures !HasValid(s1, s2, max, k)
    decreases k - i
  {
    if i < k {
      var next := i + 1;
      forall j | 1 <= j <= |s2|
        ensures Table(s1, s2, next, j) > max
      {
        NextRowAbove(s1, s2, max, i, j);
      }
      InvalidPersists(s1, s2, max, i + 1, k);
    }
  }

  /** A string within budget is never cut short by the early stop. */
  lemma WithinBudgetComplete(s1: string, s2: string, max: nat)
    requires Dist(s1, s2) <= max
    ensures Complete(s1, s2, max)
  {
    RowsComputedSpec(s1, s2, max);
    forall t | 2 <= t <= |s1|
      ensures !StopsAt(s1, s2, max, t)
    {
      if !HasValid(s1, s2, max, t) {
        InvalidPersists(s1, s2, max, t, |s1|);
      }
    }
  }

  /** A string cut short by the early stop is over budget. */
  lemma CutShortOverBudget(s1: string, s2: string, max: nat)
    requires !Complete(s1, s2, max)
    ensures Dist(s1, s2) > max
  {
    if Dist(s1, s2) <= max {
      WithinBudgetComplete(s1, s2, max);
    }
  }
}
