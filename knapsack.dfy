/** The 0/1 knapsack of module_3/A/m3_taskA.py. The weights and the limit
    are first divided by their greatest common divisor; a table `memo` of
    the best cost for the first `i` items under each limit is filled row by
    row, and a backward walk through the table picks the items. Weights and
    costs are non-negative, as the input format allows. */
module Knapsack {
  import opened Multiples

  datatype Item = Item(weight: nat, cost: nat)

  /** Python's `math.gcd` on non-negative numbers. */
  function Gcd(a: nat, b: nat): nat
    decreases b
  {
    if b == 0 then a else Gcd(b, a % b)
  }

  /** `d` divides `x`; 0 divides only 0. */
  predicate Divides(d: nat, x: nat) {
    if d == 0 then x == 0 else x % d == 0
  }

  /** The gcd divides both arguments. */
  lemma {:induction false} GcdDivides(a: nat, b: nat)
    ensures Divides(Gcd(a, b), a) && Divides(Gcd(a, b), b)
    decreases b
  {
    if b > 0 {
      GcdDivides(b, a % b);
      var g := Gcd(a, b);
      if g > 0 {
        var s, t := b / g, (a % b) / g;
        assert b == g * s && a % b == g * t;
        assert a == b * (a / b) + a % b;
        assert a == g * (s * (a / b) + t);
        ModUnique(a, g, s * (a / b) + t, 0);
      }
    }
  }

  /** A divisor of a divisor divides. */
  lemma DividesTrans(d: nat, e: nat, x: nat)
    requires Divides(d, e) && Divides(e, x)
    ensures Divides(d, x)
  {
    if d > 0 && e > 0 {
      DivisorOfDivisor(x, e, d);
    }
  }

  /** The gcd of the limit and the weights of `items`, folded from the left as
      `normalize_weights` does. */
  function GcdOf(limit: nat, items: seq<Item>): nat {
    if items == [] then limit else Gcd(GcdOf(limit, items[..|items| - 1]), items[|items| - 1].weight)
  }

  /** The folded gcd divides the limit and every weight. */
  lemma {:induction false} GcdOfDivides(limit: nat, items: seq<Item>)
    ensures Divides(GcdOf(limit, items), limit)
    ensures forall k :: 0 <= k < |items| ==> Divides(GcdOf(limit, items), items[k].weight)
  {
    if items != [] {
      var init := items[..|items| - 1];
      GcdOfDivides(limit, init);
      var g0, g := GcdOf(limit, init), GcdOf(limit, items);
      GcdDivides(g0, items[|items| - 1].weight);
      DividesTrans(g, g0, limit);
      forall k | 0 <= k < |items| ensures Divides(g, items[k].weight) {
        if k < |items| - 1 {
          assert items[k] == init[k];
          DividesTrans(g, g0, items[k].weight);
        }
      }
    }
  }

  /** The divisor actually used: the gcd, or 1 when the gcd is 0. */
  function Divisor(limit: nat, items: seq<Item>): (g: nat)
    ensures g >= 1
  {
    var g := GcdOf(limit, items);
    if g == 0 then 1 else g
  }

  /** Divides the limit and every weight by their gcd (1 if it is 0); every
      division is exact. */
  method NormalizeWeights(items: seq<Item>, limit: nat) returns (nLimit: nat, nWeights: seq<nat>)
    requires items != []
    ensures |nWeights| == |items|
    ensures limit == Divisor(limit, items) * nLimit
    ensures forall k :: 0 <= k < |items| ==> items[k].weight == Divisor(limit, items) * nWeights[k]
  {
    var n := |items|;
    var g := Gcd(limit, items[0].weight);
    assert items[..1][..0] == [];
    for i := 1 to n
      invariant g == GcdOf(limit, items[..i])
    {
      assert items[..i + 1][..i] == items[..i];
      g := Gcd(g, items[i].weight);
    }
    assert items[..n] == items;
    g := if g == 0 then 1 else g;
    GcdOfDivides(limit, items);
    nWeights := seq(n, k requires 0 <= k < n => items[k].weight / g);
    nLimit := limit / g;
    ExactDiv(limit, g);
    forall k | 0 <= k < n ensures items[k].weight == g * nWeights[k] {
      ExactDiv(items[k].weight, g);
    }
  }

  /** An exact division multiplies back. */
  lemma ExactDiv(x: nat, g: nat)
    requires g > 0 && x % g == 0
    ensures x == g * (x / g)
  {
  }

  /** `memo[i][j]`: the best cost of items 1..i under normalized limit `j`. */
  function Best(items: seq<Item>, ws: seq<nat>, i: nat, j: nat): (b: nat)
    requires |ws| == |items| && i <= |items|
  {
    if i == 0 then 0
    else if ws[i - 1] <= j then Max(Best(items, ws, i - 1, j), items[i - 1].cost + Best(items, ws, i - 1, j - ws[i - 1]))
    else Best(items, ws, i - 1, j)
  }

  function Max(a: nat, b: nat): nat {
    if a >= b then a else b
  }

  /** Indices 1..i of items, strictly decreasing. */
  predicate Picks(idx: seq<nat>, i: nat) {
    (forall k :: 0 <= k < |idx| ==> 1 <= idx[k] <= i) &&
    (forall k, l :: 0 <= k < l < |idx| ==> idx[k] > idx[l])
  }

  /** The total of `f` over the picked 1-based indices. */
  function CostSum(items: seq<Item>, idx: seq<nat>): nat
    requires Picks(idx, |items|)
  {
    if idx == [] then 0 else CostSum(items, idx[..|idx| - 1]) + items[idx[|idx| - 1] - 1].cost
  }

  function WeightSum(items: seq<Item>, idx: seq<nat>): nat
    requires Picks(idx, |items|)
  {
    if idx == [] then 0 else WeightSum(items, idx[..|idx| - 1]) + items[idx[|idx| - 1] - 1].weight
  }

  function NormSum(ws: seq<nat>, idx: seq<nat>): nat
    requires Picks(idx, |ws|)
  {
    if idx == [] then 0 else NormSum(ws, idx[..|idx| - 1]) + ws[idx[|idx| - 1] - 1]
  }

  /** Sums taken from the first (largest) index. */
  lemma {:induction false} SumsFront(items: seq<Item>, ws: seq<nat>, idx: seq<nat>)
    requires |ws| == |items| && Picks(idx, |items|) && idx != []
    ensures CostSum(items, idx) == items[idx[0] - 1].cost + CostSum(items, idx[1..])
    ensures NormSum(ws, idx) == ws[idx[0] - 1] + NormSum(ws, idx[1..])
    decreases |idx|
  {
    if |idx| > 1 {
      var init := idx[..|idx| - 1];
      SumsFront(items, ws, init);
      assert init[1..] == idx[1..][..|idx[1..]| - 1];
    }
  }

  /** Original weights are the normalized ones times the divisor. */
  lemma {:induction false} WeightsScale(items: seq<Item>, ws: seq<nat>, g: nat, idx: seq<nat>)
    requires |ws| == |items| && Picks(idx, |items|)
    requires forall k :: 0 <= k < |items| ==> items[k].weight == g * ws[k]
    ensures WeightSum(items, idx) == g * NormSum(ws, idx)
    decreases |idx|
  {
    if idx != [] {
      WeightsScale(items, ws, g, idx[..|idx| - 1]);
    }
  }

  /** No choice of items 1..i within normalized limit `j` costs more than
      `Best(i, j)`. */
  lemma {:induction false} BestIsUpperBound(items: seq<Item>, ws: seq<nat>, i: nat, j: nat, idx: seq<nat>)
    requires |ws| == |items| && i <= |items| && Picks(idx, i) && NormSum(ws, idx) <= j
    ensures CostSum(items, idx) <= Best(items, ws, i, j)
    decreases i
  {
    if idx != [] {
      SumsFront(items, ws, idx);
      var rest := idx[1..];
      if idx[0] == i {
        BestIsUpperBound(items, ws, i - 1, j - ws[i - 1], rest);
      } else {
        BestIsUpperBound(items, ws, i - 1, j, idx);
      }
    } else if i > 0 {
      BestIsUpperBound(items, ws, i - 1, j, idx);
    }
  }

  /** A best cost that differs from the one without item `i` takes item `i`. */
  lemma BestTake(items: seq<Item>, ws: seq<nat>, i: nat, j: nat)
    requires |ws| == |items| && 0 < i <= |items|
    requires Best(items, ws, i, j) != Best(items, ws, i - 1, j)
    ensures ws[i - 1] <= j && Best(items, ws, i, j) == items[i - 1].cost + Best(items, ws, i - 1, j - ws[i - 1])
  {
  }

  /** One step of Backtrack from row i and limit j: when the best cost
      changes without item i, taking it keeps the walk's invariant at row
      i - 1 and limit j - w_i; otherwise the invariant holds at row i - 1
      with the same limit. */
  lemma WalkStep(items: seq<Item>, ws: seq<nat>, idx: seq<nat>, i: nat, j: nat, total: nat)
    requires |ws| == |items| && 0 < i <= |items|
    requires Picks(idx, |items|) && forall k :: 0 <= k < |idx| ==> idx[k] > i
    requires CostSum(items, idx) + Best(items, ws, i, j) == total
    ensures Best(items, ws, i, j) != Best(items, ws, i - 1, j) ==>
              ws[i - 1] <= j && Picks(idx + [i], |items|) &&
              (forall k :: 0 <= k < |idx + [i]| ==> (idx + [i])[k] > i - 1) &&
              CostSum(items, idx + [i]) + Best(items, ws, i - 1, j - ws[i - 1]) == total &&
              NormSum(ws, idx + [i]) == NormSum(ws, idx) + ws[i - 1] &&
              WeightSum(items, idx + [i]) == WeightSum(items, idx) + items[i - 1].weight
    ensures Best(items, ws, i, j) == Best(items, ws, i - 1, j) ==>
              CostSum(items, idx) + Best(items, ws, i - 1, j) == total
  {
    if Best(items, ws, i, j) != Best(items, ws, i - 1, j) {
      BestTake(items, ws, i, j);
      AppendPick(items, ws, idx, i);
      var e := idx + [i];
      forall k | 0 <= k < |e| ensures e[k] > i - 1 {
        if k < |idx| {
          assert e[k] == idx[k];
        }
      }
    }
  }

  /** Appending a smaller index to a pick list adds its cost and weights. */
  lemma AppendPick(items: seq<Item>, ws: seq<nat>, idx: seq<nat>, i: nat)
    requires |ws| == |items| && 0 < i <= |items| && Picks(idx, |items|)
    requires forall k :: 0 <= k < |idx| ==> idx[k] > i
    ensures Picks(idx + [i], |items|)
    ensures CostSum(items, idx + [i]) == CostSum(items, idx) + items[i - 1].cost
    ensures NormSum(ws, idx + [i]) == NormSum(ws, idx) + ws[i - 1]
    ensures WeightSum(items, idx + [i]) == WeightSum(items, idx) + items[i - 1].weight
  {
    var e := idx + [i];
    AppendPicks(idx, i, |items|);
    assert e[..|e| - 1] == idx && e[|e| - 1] == i;
  }

  /** A smaller index appended to a pick list keeps it a pick list. */
  lemma AppendPicks(idx: seq<nat>, i: nat, n: nat)
    requires 0 < i <= n && Picks(idx, n)
    requires forall k :: 0 <= k < |idx| ==> idx[k] > i
    ensures Picks(idx + [i], n)
  {
    var e := idx + [i];
    forall k | 0 <= k < |e| ensures 1 <= e[k] <= n {
      if k < |idx| {
        assert e[k] == idx[k];
      }
    }
    forall k, l | 0 <= k < l < |e| ensures e[k] > e[l] {
      assert e[k] == idx[k];
      if l < |idx| {
        assert e[l] == idx[l];
      }
    }
  }

  /** `BackpackAlgorithm.execute`: the chosen items fit under the limit, their
      costs add up to the reported cost, their original weights to the
      reported weight, and no other choice that fits costs more. */
  method Execute(items: seq<Item>, limit: nat) returns (resWeight: nat, resCost: nat, resInd: seq<nat>)
    requires items != []
    ensures Picks(resInd, |items|)
    ensures resCost == CostSum(items, resInd)
    ensures resWeight == WeightSum(items, resInd) && resWeight <= limit
    ensures forall idx :: Picks(idx, |items|) && WeightSum(items, idx) <= limit ==> CostSum(items, idx) <= resCost
  {
    var nLimit, nWeights := NormalizeWeights(items, limit);
    var memo := FillMemo(items, nWeights, nLimit);
    resWeight, resCost, resInd := Backtrack(items, nWeights, nLimit, memo);
    var g := Divisor(limit, items);
    WeightsScale(items, nWeights, g, resInd);
    MulMono(g, NormSum(nWeights, resInd), nLimit);
    forall idx | Picks(idx, |items|) && WeightSum(items, idx) <= limit
      ensures CostSum(items, idx) <= resCost
    {
      ScaledUpperBound(items, nWeights, g, limit, nLimit, idx);
    }
  }

  /** A choice within the original limit is within the normalized one, so
      it costs at most the best cost of the table. */
  lemma ScaledUpperBound(items: seq<Item>, ws: seq<nat>, g: nat, limit: nat, nLimit: nat, idx: seq<nat>)
    requires |ws| == |items| && g > 0 && limit == g * nLimit
    requires forall k :: 0 <= k < |items| ==> items[k].weight == g * ws[k]
    requires Picks(idx, |items|) && WeightSum(items, idx) <= limit
    ensures CostSum(items, idx) <= Best(items, ws, |items|, nLimit)
  {
    WeightsScale(items, ws, g, idx);
    assert g * (nLimit + 1) == limit + g;
    if NormSum(ws, idx) > nLimit {
      MulMono(g, nLimit + 1, NormSum(ws, idx));
    }
    BestIsUpperBound(items, ws, |items|, nLimit, idx);
  }

  /** The table of best costs: row `i` for the first `i` items, column `j`
      for normalized limit `j`; row 0 is all zero. */
  method FillMemo(items: seq<Item>, ws: seq<nat>, nLimit: nat) returns (memo: array2<nat>)
    requires |ws| == |items|
    ensures fresh(memo) && memo.Length0 == |items| + 1 && memo.Length1 == nLimit + 1
    ensures forall i, j :: 0 <= i <= |items| && 0 <= j <= nLimit ==> memo[i, j] == Best(items, ws, i, j)
  {
    var n := |items|;
    memo := new nat[n + 1, nLimit + 1]((_, _) => 0);
    for i := 1 to n + 1
      invariant forall i', j' :: 0 <= i' < i && 0 <= j' <= nLimit ==> memo[i', j'] == Best(items, ws, i', j')
    {
      for j := 0 to nLimit + 1
        invariant forall i', j' :: 0 <= i' <= i && 0 <= j' <= nLimit && (i' < i || j' < j) ==>
                                   memo[i', j'] == Best(items, ws, i', j')
      {
        var best;
        if ws[i - 1] <= j {
          best := Max(memo[i - 1, j], items[i - 1].cost + memo[i - 1, j - ws[i - 1]]);
        } else {
          best := memo[i - 1, j];
        }
        assert best == Best(items, ws, i, j);
        label Before:
        memo[i, j] := best;
        forall i', j' | 0 <= i' <= i && 0 <= j' <= nLimit && (i' < i || j' < j + 1)
          ensures memo[i', j'] == Best(items, ws, i', j')
        {
          if i' != i || j' != j {
            assert memo[i', j'] == old@Before(memo[i', j']);
          }
        }
      }
    }
  }

  /** The backward walk: from the last row and the full limit, an item is
      taken whenever dropping it would change the best cost, and the walk
      stops at a best cost of 0. */
  method Backtrack(items: seq<Item>, ws: seq<nat>, nLimit: nat, memo: array2<nat>)
    returns (resWeight: nat, resCost: nat, resInd: seq<nat>)
    requires |ws| == |items| && memo.Length0 == |items| + 1 && memo.Length1 == nLimit + 1
    requires forall i, j :: 0 <= i <= |items| && 0 <= j <= nLimit ==> memo[i, j] == Best(items, ws, i, j)
    ensures Picks(resInd, |items|)
    ensures resCost == Best(items, ws, |items|, nLimit) == CostSum(items, resInd)
    ensures NormSum(ws, resInd) <= nLimit
    ensures resWeight == WeightSum(items, resInd)
  {
    var n := |items|;
    resInd := [];
    resWeight := 0;
    resCost := memo[n, nLimit];
    var j := nLimit;
    var i := n;
    while i > 0 || j > 0
      invariant 0 <= i <= n && 0 <= j <= nLimit
      invariant Picks(resInd, n) && forall k :: 0 <= k < |resInd| ==> resInd[k] > i
      invariant CostSum(items, resInd) + Best(items, ws, i, j) == resCost
      invariant NormSum(ws, resInd) + j == nLimit
      invariant resWeight == WeightSum(items, resInd)
      decreases i
    {
      if memo[i, j] == 0 {
        break;
      }
      WalkStep(items, ws, resInd, i, j, resCost);
      if memo[i, j] != memo[i - 1, j] {
        resInd := resInd + [i];
        resWeight := resWeight + items[i - 1].weight;
        j := j - ws[i - 1];
      }
      i := i - 1;
    }
  }
}
