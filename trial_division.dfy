/** The trial-division helper of module_3/D/prime.py. A prime list holds
    pairs [p, m]: a prime p and a multiple m of p that `is_prime` pushes
    forward to the candidate. `get_prime_list` keeps the list in a
    function attribute, which here is the state of a `PrimeCache` object. */
module TrialDivision {
  import opened Multiples

  /** `int(math.sqrt(n))`, the integer square root (floating-point rounding
      of very large numbers is not part of this model). */
  function FloorSqrt(n: nat): (r: nat)
    ensures r * r <= n < (r + 1) * (r + 1)
  {
    SqrtFrom(n, 0)
  }

  function SqrtFrom(n: nat, r: nat): (s: nat)
    requires r * r <= n
    ensures r <= s && s * s <= n < (s + 1) * (s + 1)
    decreases n - r * r
  {
    if (r + 1) * (r + 1) <= n then SqrtFrom(n, r + 1) else r
  }

  /** An entry after its multiple has been pushed up to the candidate. */
  function Pushed(e: (nat, nat), c: nat): (nat, nat)
    requires e.0 > 0
  {
    (e.0, Reach(e.0, e.1, c))
  }

  /** The number of entries the scan of `is_prime` walks past: it stops at
      the first entry whose prime exceeds the limit or whose multiple reaches
      the candidate. */
  ghost function Stop(es: seq<(nat, nat)>, limit: nat, c: nat, from: nat): (k: nat)
    requires from <= |es|
    requires forall j :: 0 <= j < |es| ==> es[j].0 > 0
    ensures from <= k <= |es|
    ensures k < |es| ==> es[k].0 > limit || Reach(es[k].0, es[k].1, c) == c
    ensures forall j :: from <= j < k ==> es[j].0 <= limit && Reach(es[j].0, es[j].1, c) != c
    decreases |es| - from
  {
    if from == |es| || es[from].0 > limit || Reach(es[from].0, es[from].1, c) == c then from
    else Stop(es, limit, c, from + 1)
  }

  /** Each multiple is a multiple of its prime and at most one step below
      the candidate, as it is when candidates are tried in increasing order. */
  ghost predicate Aligned(es: seq<(nat, nat)>, c: nat) {
    forall j :: 0 <= j < |es| ==> es[j].0 > 0 && es[j].1 % es[j].0 == 0 && es[j].1 < c + es[j].0
  }

  /** On aligned entries the scan rejects the candidate exactly at the first
      prime up to the limit that divides it, and every prime it walks past
      leaves a remainder. */
  lemma ScanFindsDivisor(es: seq<(nat, nat)>, limit: nat, c: nat)
    requires Aligned(es, c)
    ensures var k := Stop(es, limit, c, 0);
      (forall j :: 0 <= j < k ==> es[j].0 <= limit && c % es[j].0 != 0) &&
      (k < |es| && es[k].0 <= limit ==> c % es[k].0 == 0)
  {
    var k := Stop(es, limit, c, 0);
    forall j | 0 <= j < k ensures c % es[j].0 != 0 {
      ReachHits(es[j].0, es[j].1, c);
    }
    if k < |es| && es[k].0 <= limit {
      ReachHits(es[k].0, es[k].1, c);
    }
  }

  class PrimeCache {
    var cached: bool
    var primes: seq<(nat, nat)>

    /** Every entry has a positive step, so pushing a multiple forward ends. */
    ghost predicate Valid()
      reads this
    {
      forall j :: 0 <= j < |primes| ==> primes[j].0 > 0
    }

    constructor ()
      ensures !cached && Valid()
    {
      cached := false;
      primes := [];
    }

    /** Scans the entries in order, stopping at the first prime above
        floor(sqrt(candidate)). Each inspected multiple is pushed up to the
        candidate; if it lands on it, the candidate is not prime and the scan
        stops. Entries after the stop are untouched. */
    method IsPrime(candidate: nat) returns (isPrime: bool)
      requires Valid()
      modifies this
      ensures Valid() && cached == old(cached) && |primes| == |old(primes)|
      ensures var k := Stop(old(primes), FloorSqrt(candidate), candidate, 0);
        (isPrime <==> k == |primes| || old(primes)[k].0 > FloorSqrt(candidate)) &&
        forall j :: 0 <= j < |primes| ==>
          primes[j] == (if j < k || (j == k && !isPrime) then Pushed(old(primes)[j], candidate) else old(primes)[j])
    {
      var limit := FloorSqrt(candidate);
      isPrime := true;
      ghost var es := primes;
      var i := 0;
      while i < |primes|
        invariant 0 <= i <= |primes| && |primes| == |es| && Valid()
        invariant cached == old(cached) && es == old(primes)
        invariant isPrime
        invariant i <= Stop(es, limit, candidate, 0)
        invariant forall j :: 0 <= j < |primes| ==>
          primes[j] == (if j < i then Pushed(es[j], candidate) else es[j])
      {
        var pm := primes[i];
        if pm.0 > limit {
          break;
        }
        var m := pm.1;
        while m < candidate
          invariant Reach(pm.0, m, candidate) == Reach(pm.0, pm.1, candidate)
          decreases candidate - m
        {
          m := m + pm.0;
        }
        primes := primes[i := (pm.0, m)];
        if m == candidate {
          isPrime := false;
          break;
        }
        i := i + 1;
      }
    }

    /** Starts the cache at [[3, 3]] on the first call. When the cache is
        shorter than asked for it is returned as it is; otherwise the growing
        loop runs while the cache is shorter than asked for, which by then it
        never is. Either way the cache never grows and the whole of it is
        returned. */
    method GetPrimeList(listLength: int) returns (r: seq<(nat, nat)>)
      modifies this
      ensures cached && r == primes
      ensures old(cached) ==> primes == old(primes)
      ensures !old(cached) ==> primes == [(3, 3)]
    {
      if !cached {
        primes := [(3, 3)];
        cached := true;
      }
      if |primes| < listLength {
        // slicing past the end copies the whole list
        return primes;
      }
      // here |primes| >= listLength, so `while len(primes) < list_length`
      // does not run
      r := primes;
    }
  }
}
