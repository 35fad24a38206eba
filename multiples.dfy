/** Arithmetic shared by the two prime helpers of module_3/D: walking up a
    number in steps of a prime, division with remainder, and primality. */
module Multiples {

  /** Where `while m < c: m += p` leaves `m`. */
  function Reach(p: nat, m: nat, c: nat): (r: nat)
    requires p > 0
    ensures r >= m && r >= c
    ensures m < c ==> r < c + p
    decreases c - m
  {
    if m < c then Reach(p, m + p, c) else m
  }

  /** The number of steps of `p` the walk takes. */
  ghost function Steps(p: nat, m: nat, c: nat): nat
    requires p > 0
    decreases c - m
  {
    if m < c then 1 + Steps(p, m + p, c) else 0
  }

  /** The walk only ever adds whole steps of `p`. */
  lemma {:induction false} ReachSteps(p: nat, m: nat, c: nat)
    requires p > 0
    ensures Reach(p, m, c) == m + p * Steps(p, m, c)
    decreases c - m
  {
    if m < c {
      ReachSteps(p, m + p, c);
      assert p * (1 + Steps(p, m + p, c)) == p + p * Steps(p, m + p, c);
    }
  }

  /** A multiple of `p` stays a multiple of `p` along the walk. */
  lemma ReachMultiple(p: nat, m: nat, c: nat)
    requires p > 0 && m % p == 0
    ensures Reach(p, m, c) % p == 0
  {
    ReachSteps(p, m, c);
    assert m == p * (m / p);
    assert Reach(p, m, c) == p * (m / p + Steps(p, m, c));
    ModUnique(Reach(p, m, c), p, m / p + Steps(p, m, c), 0);
  }

  /** A multiple of `p` that is not past `c` by a whole step reaches `c`
      exactly when `p` divides `c`. */
  lemma ReachHits(p: nat, m: nat, c: nat)
    requires p > 0 && m % p == 0 && m < c + p
    ensures Reach(p, m, c) == c <==> c % p == 0
  {
    var r := Reach(p, m, c);
    ReachMultiple(p, m, c);
    if c % p == 0 && r != c {
      assert c == p * (c / p) + 0;
      assert c < r < c + p;
      ModUnique(r, p, c / p, r - c);
    }
  }

  /** A walk that overshoots `a` overshoots `a + 1` the same way. */
  lemma {:induction false} ReachPast(p: nat, m: nat, a: nat)
    requires p > 0 && Reach(p, m, a) > a
    ensures Reach(p, m, a + 1) == Reach(p, m, a)
    decreases a - m
  {
    if m < a {
      ReachPast(p, m + p, a);
    }
  }

  /** A walk that lands on `a` goes one step further for `a + 1`. */
  lemma {:induction false} ReachOn(p: nat, m: nat, a: nat)
    requires p > 0 && Reach(p, m, a) == a
    ensures Reach(p, m, a + 1) == a + p
    decreases a - m
  {
    if m < a {
      ReachOn(p, m + p, a);
    }
  }

  /** Division with remainder has one answer. */
  lemma ModUnique(x: int, p: int, q: int, r: int)
    requires p > 0 && 0 <= r < p && x == p * q + r
    ensures x % p == r && x / p == q
  {
    var q', r' := x / p, x % p;
    assert x == p * q' + r';
    if q' > q {
      MulMono(p, q + 1, q');
    } else if q' < q {
      MulMono(p, q' + 1, q);
    }
  }

  lemma MulMono(p: int, a: int, b: int)
    requires p > 0 && a <= b
    ensures p * a <= p * b
  {
    assert p * b == p * a + p * (b - a);
  }

  /** Adding `p` to a multiple of `p` gives a multiple of `p`. */
  lemma AddStep(x: nat, p: nat)
    requires p > 0 && x % p == 0
    ensures (x + p) % p == 0
  {
    assert x == p * (x / p);
    ModUnique(x + p, p, x / p + 1, 0);
  }

  /** At least 2 and no divisor between 2 and itself. */
  predicate Prime(n: nat) {
    n >= 2 && forall d :: 2 <= d < n ==> n % d != 0
  }

  /** The least divisor of `n` from `d` on. */
  function LeastDivisor(n: nat, d: nat): (r: nat)
    requires 2 <= d <= n
    ensures d <= r <= n && n % r == 0
    ensures forall e :: d <= e < r ==> n % e != 0
    decreases n - d
  {
    if n % d == 0 then d else LeastDivisor(n, d + 1)
  }

  /** Divisibility carries over: a divisor of a divisor of `n` divides `n`. */
  lemma DivisorOfDivisor(n: nat, d: nat, e: nat)
    requires d > 0 && e > 0 && n % d == 0 && d % e == 0
    ensures n % e == 0
  {
    var k, j := d / e, n / d;
    assert d == e * k;
    assert n == d * j;
    assert n == e * (k * j);
    ModUnique(n, e, k * j, 0);
  }

  /** A number of at least 2 that is not prime has a prime factor whose square
      is at most the number. */
  lemma CompositeFactor(n: nat) returns (p: nat)
    requires n >= 2 && !Prime(n)
    ensures Prime(p) && n % p == 0 && p * p <= n && p < n
  {
    p := LeastDivisor(n, 2);
    assert p < n;
    LeastIsPrime(n, p);
    LeastSquare(n, p);
  }

  /** The least divisor of `n` above 1 is prime. */
  lemma LeastIsPrime(n: nat, p: nat)
    requires 2 <= p <= n && n % p == 0
    requires forall e :: 2 <= e < p ==> n % e != 0
    ensures Prime(p)
  {
    forall e | 2 <= e < p ensures p % e != 0 {
      if p % e == 0 {
        DivisorOfDivisor(n, p, e);
      }
    }
  }

  /** The least divisor of `n` above 1, when it is not `n`, is at most the
      square root of `n`: the cofactor is a divisor no smaller than it. */
  lemma LeastSquare(n: nat, p: nat)
    requires 2 <= p < n && n % p == 0
    requires forall e :: 2 <= e < p ==> n % e != 0
    ensures p * p <= n
  {
    var q := n / p;
    assert n == p * q;
    if q < 2 {
      MulMono(p, q, 1);
    }
    ModUnique(n, q, p, 0);
    MulMono(p, p, q);
  }
}
