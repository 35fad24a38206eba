/** The incremental sieve `prime_gen` of module_3/D/m3_taskD.py. The
    dictionary maps an upcoming composite number to the primes known to
    divide it; a number that is not a key when the sieve reaches it is prime.
    The generator runs forever; here it runs until `a` reaches a bound and
    returns what it has yielded so far. */
module PrimeSieve {
  import opened Multiples

  /** The primes from `lo` up to but not including `hi`, in increasing order. */
  function PrimesBetween(lo: nat, hi: nat): (r: seq<nat>)
    decreases hi - lo
  {
    if lo >= hi then [] else (if Prime(lo) then [lo] else []) + PrimesBetween(lo + 1, hi)
  }

  /** `PrimesBetween` holds exactly the primes of its range, strictly
      increasing. */
  lemma {:induction false} PrimesBetweenSpec(lo: nat, hi: nat)
    ensures forall x :: x in PrimesBetween(lo, hi) ==> Prime(x) && lo <= x < hi
    ensures forall k, l :: 0 <= k < l < |PrimesBetween(lo, hi)| ==> PrimesBetween(lo, hi)[k] < PrimesBetween(lo, hi)[l]
    ensures forall n :: lo <= n < hi && Prime(n) ==> n in PrimesBetween(lo, hi)
    decreases hi - lo
  {
    if lo < hi {
      PrimesBetweenSpec(lo + 1, hi);
      var rest := PrimesBetween(lo + 1, hi);
      var head := if Prime(lo) then [lo] else [];
      var r := PrimesBetween(lo, hi);
      assert r == head + rest;
      forall x | x in r ensures Prime(x) && lo <= x < hi {
        if x !in rest {
          assert x in head;
        }
      }
      forall k, l | 0 <= k < l < |r| ensures r[k] < r[l] {
        var d := |head|;
        assert r[l] == rest[l - d];
        if k >= d {
          assert r[k] == rest[k - d];
        } else {
          assert rest[l - d] in rest;
        }
      }
    }
  }

  /** Extending the range by one number adds it when it is prime. */
  lemma {:induction false} PrimesBetweenExtend(lo: nat, hi: nat)
    requires lo <= hi
    ensures PrimesBetween(lo, hi + 1) == PrimesBetween(lo, hi) + (if Prime(hi) then [hi] else [])
    decreases hi - lo
  {
    if lo < hi {
      PrimesBetweenExtend(lo + 1, hi);
    }
  }

  /** The key under which the sieve keeps prime `p` while it is at `a`: the
      first multiple of `p` from `p * p` on that is not below `a`. */
  ghost function Next(p: nat, a: nat): nat
    requires p > 0
  {
    Reach(p, p * p, a)
  }

  /** The state of the sieve when it is about to look at `a`: every key lies
      between `a` and `a * a` and lists primes below `a` that divide it and
      whose square is at most the key; every prime below `a` is listed under
      its key `Next(p, a)`. */
  ghost predicate Sieve(dct: map<nat, seq<nat>>, a: nat) {
    a >= 2 &&
    (forall x :: x in dct ==> Entry(dct, x, a, a * a)) &&
    (forall p :: 2 <= p < a && Prime(p) ==> Next(p, a) in dct && p in dct[Next(p, a)])
  }

  /** Key `x` lies in `lo..hi` and lists primes below `lo` that divide `x`
      and whose square is at most `x`. */
  ghost predicate Entry(dct: map<nat, seq<nat>>, x: nat, lo: nat, hi: nat)
    requires x in dct
  {
    lo <= x < hi && dct[x] != [] &&
    forall j :: 0 <= j < |dct[x]| ==> Listed(dct[x][j], x, lo)
  }

  ghost predicate Listed(p: nat, x: nat, bound: nat) {
    Prime(p) && p < bound && x % p == 0 && p * p <= x
  }

  /** Under the sieve state, `a` is a key exactly when it is not prime. */
  lemma KeyIffComposite(dct: map<nat, seq<nat>>, a: nat)
    requires Sieve(dct, a)
    ensures a in dct <==> !Prime(a)
  {
    if a in dct {
      assert Entry(dct, a, a, a * a);
      var p := dct[a][0];
      assert Listed(p, a, a);
    } else if !Prime(a) {
      var p := CompositeFactor(a);
      ModUnique(p * p, p, p, 0);
      ReachHits(p, p * p, a);
    }
  }

  /** Yields the primes below `limit`, in increasing order. */
  method PrimeGen(limit: nat) returns (ps: seq<nat>)
    ensures ps == PrimesBetween(2, limit)
  {
    var dct: map<nat, seq<nat>> := map[];
    var a := 2;
    ps := [];
    while a < limit
      invariant Sieve(dct, a) && ps == PrimesBetween(2, a)
      invariant a <= limit || a == 2
      decreases limit - a
    {
      KeyIffComposite(dct, a);
      PrimesBetweenExtend(2, a);
      if a !in dct {
        ps := ps + [a];
        PrimeStep(dct, a);
        dct := dct[a * a := [a]];
      } else {
        dct := Advance(dct, a);
      }
      a := a + 1;
    }
  }

  /** A prime `a` goes in under `a * a`. */
  lemma PrimeStep(dct: map<nat, seq<nat>>, a: nat)
    requires Sieve(dct, a) && a !in dct && Prime(a)
    ensures Sieve(dct[a * a := [a]], a + 1)
  {
    var d := dct[a * a := [a]];
    var b := a + 1;
    assert a * a < b * b;
    assert forall x :: x in dct ==> x < a * a by {
      forall x | x in dct ensures x < a * a {
        assert Entry(dct, x, a, a * a);
      }
    }
    forall x | x in d ensures Entry(d, x, b, b * b) {
      if x == a * a {
        ModUnique(a * a, a, a, 0);
        assert Listed(a, x, b);
      } else {
        assert Entry(dct, x, a, a * a);
        assert d[x] == dct[x];
        forall j | 0 <= j < |d[x]| ensures Listed(d[x][j], x, b) {
          assert Listed(dct[x][j], x, a);
        }
      }
    }
    forall p | 2 <= p < b && Prime(p) ensures Next(p, b) in d && p in d[Next(p, b)] {
      if p == a {
        assert Next(a, b) == a * a;
      } else {
        assert Next(p, a) in dct && Next(p, a) != a;
        ReachPast(p, p * p, a);
        assert Next(p, b) == Next(p, a);
        assert Next(p, a) != a * a;
      }
    }
  }

  /** A composite `a`: each prime listed under `a` moves on to its next
      multiple, and the key `a` is removed. */
  method Advance(dct: map<nat, seq<nat>>, a: nat) returns (dct': map<nat, seq<nat>>)
    requires Sieve(dct, a) && a in dct
    ensures Sieve(dct', a + 1)
    ensures a !in dct'
  {
    var ws := dct[a];
    dct' := dct;
    MoveStart(dct, a);
    for k := 0 to |ws|
      invariant Moving(dct, dct', a, k)
    {
      MoveOne(dct, dct', a, k);
      var p := ws[k];
      ghost var prev := dct';
      dct' := dct'[p + a := (if p + a in dct' then dct'[p + a] else []) + [p]];
      assert dct' == Append(prev, p + a, p);
    }
    MoveDone(dct, dct', a);
    dct' := dct' - {a};
  }

  /** Part way through moving the primes listed under `a`: `d` is `dct` with
      the first `k` of them moved to their next multiple, and every key other
      than `a` already fits the state for `a + 1`. */
  ghost predicate Moving(dct: map<nat, seq<nat>>, d: map<nat, seq<nat>>, a: nat, k: nat) {
    a in dct && a in d && d[a] == dct[a] && k <= |dct[a]| && Entry(dct, a, a, a * a) &&
    KeysFit(d, a) && Kept(d, a) && Moved(dct[a], d, a, k)
  }

  /** Every key other than `a` fits the state for `a + 1`. */
  ghost predicate KeysFit(d: map<nat, seq<nat>>, a: nat) {
    forall x :: x in d && x != a ==> Entry(d, x, a + 1, (a + 1) * (a + 1))
  }

  /** The primes whose key is not `a` are still where they were. */
  ghost predicate Kept(d: map<nat, seq<nat>>, a: nat) {
    forall p :: 2 <= p < a && Prime(p) && Next(p, a) != a ==> Next(p, a) in d && p in d[Next(p, a)]
  }

  /** The first `k` primes of `ws` are listed under their next multiple. */
  ghost predicate Moved(ws: seq<nat>, d: map<nat, seq<nat>>, a: nat, k: nat)
    requires k <= |ws|
  {
    forall j :: 0 <= j < k ==> ws[j] + a in d && ws[j] in d[ws[j] + a]
  }

  /** Appending `p` to the list of `key`. */
  function Append(d: map<nat, seq<nat>>, key: nat, p: nat): (d': map<nat, seq<nat>>)
    ensures key in d' && d'[key] == (if key in d then d[key] else []) + [p]
    ensures forall x :: x != key ==> (x in d' <==> x in d) && (x in d ==> d'[x] == d[x])
    ensures forall x, q :: x in d && q in d[x] ==> x in d' && q in d'[x]
  {
    d[key := (if key in d then d[key] else []) + [p]]
  }

  /** A key other than `a` already fits the state for `a + 1`. */
  lemma EntryWiden(d: map<nat, seq<nat>>, x: nat, a: nat)
    requires x in d && x != a && Entry(d, x, a, a * a)
    ensures Entry(d, x, a + 1, (a + 1) * (a + 1))
  {
    assert a * a < (a + 1) * (a + 1);
    forall j | 0 <= j < |d[x]| ensures Listed(d[x][j], x, a + 1) {
      assert Listed(d[x][j], x, a);
    }
  }

  lemma MoveStart(dct: map<nat, seq<nat>>, a: nat)
    requires Sieve(dct, a) && a in dct
    ensures Moving(dct, dct, a, 0)
  {
    assert Entry(dct, a, a, a * a);
    forall x | x in dct && x != a ensures Entry(dct, x, a + 1, (a + 1) * (a + 1)) {
      EntryWiden(dct, x, a);
    }
  }

  /** Moving one more listed prime `p` to the key `p + a`. */
  lemma MoveOne(dct: map<nat, seq<nat>>, d: map<nat, seq<nat>>, a: nat, k: nat)
    requires Moving(dct, d, a, k) && k < |dct[a]|
    ensures Moving(dct, Append(d, dct[a][k] + a, dct[a][k]), a, k + 1)
  {
    var p := dct[a][k];
    var d' := Append(d, p + a, p);
    assert Listed(p, a, a);
    KeysFitAppend(d, a, p);
    assert Moved(dct[a], d', a, k + 1);
  }

  /** The new entry `p + a` fits the state for `a + 1`. */
  lemma KeysFitAppend(d: map<nat, seq<nat>>, a: nat, p: nat)
    requires KeysFit(d, a) && Listed(p, a, a)
    ensures KeysFit(Append(d, p + a, p), a)
  {
    var key := p + a;
    var b := a + 1;
    var d' := Append(d, key, p);
    AddStep(a, p);
    assert key < b * b;
    assert Listed(p, key, b);
    var prior := if key in d then d[key] else [];
    assert Entry(d', key, b, b * b) by {
      if key in d {
        assert Entry(d, key, b, b * b);
      }
      forall j | 0 <= j < |d'[key]| ensures Listed(d'[key][j], key, b) {
        if j < |prior| {
          assert d'[key][j] == prior[j];
        }
      }
    }
    forall x | x in d' && x != a ensures Entry(d', x, b, b * b) {
      if x != key {
        assert Entry(d, x, b, b * b);
      }
    }
  }

  /** Once every prime listed under `a` has moved, dropping the key `a`
      gives the state for `a + 1`. */
  lemma MoveDone(dct: map<nat, seq<nat>>, d: map<nat, seq<nat>>, a: nat)
    requires a in dct && Sieve(dct, a) && Moving(dct, d, a, |dct[a]|)
    ensures Sieve(d - {a}, a + 1)
  {
    var d' := d - {a};
    var b := a + 1;
    forall x | x in d' ensures Entry(d', x, b, b * b) {
      assert Entry(d, x, b, b * b);
    }
    KeyIffComposite(dct, a);
    forall p | 2 <= p < b && Prime(p) ensures Next(p, b) in d' && p in d'[Next(p, b)] {
      if Next(p, a) != a {
        ReachPast(p, p * p, a);
      } else {
        var j :| 0 <= j < |dct[a]| && dct[a][j] == p;
        ReachOn(p, p * p, a);
      }
    }
  }
}
