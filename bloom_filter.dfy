/** The bitset and the Bloom filter of module_3/D/m3_taskD.py. A `Bitset`
    keeps its bits in one unbounded non-negative integer `value`; index `i`
    of a bitset of `length` bits is bit `length - i - 1` of `value`, so index
    0 is the most significant of the `length` bits. Python's `value & (1 << q)`
    is `Bit(value, q)`, and `value |= 1 << q` and `value &= ~(1 << q)` are
    `SetBit(value, q, true)` and `SetBit(value, q, false)`. */
module Bitsets {
  import opened Wrappers

  /** Bit `q` of `v`, counting from the least significant. */
  function Bit(v: nat, q: nat): bool {
    if q == 0 then v % 2 == 1 else Bit(v / 2, q - 1)
  }

  /** `v` with bit `q` set to `b`. */
  function SetBit(v: nat, q: nat, b: bool): nat {
    if q == 0 then v - v % 2 + (if b then 1 else 0)
    else 2 * SetBit(v / 2, q - 1, b) + v % 2
  }

  /** Setting a bit changes that bit and no other. */
  lemma {:induction false} BitOfSetBit(v: nat, q: nat, b: bool, r: nat)
    ensures Bit(SetBit(v, q, b), r) == if r == q then b else Bit(v, r)
    decreases q
  {
    var w := SetBit(v, q, b);
    if q == 0 {
      assert w / 2 == v / 2;
    } else {
      assert w % 2 == v % 2 && w / 2 == SetBit(v / 2, q - 1, b);
      if r > 0 {
        BitOfSetBit(v / 2, q - 1, b, r - 1);
      }
    }
  }

  /** No bit of 0 is set. */
  lemma {:induction false} ZeroBits(q: nat)
    ensures !Bit(0, q)
  {
    if q > 0 {
      ZeroBits(q - 1);
    }
  }

  /** The `n` low bits of `v` as indices 0..n, most significant first. */
  function BitsOf(v: nat, n: nat): (r: seq<bool>)
    ensures |r| == n && forall i :: 0 <= i < n ==> r[i] == Bit(v, n - i - 1)
  {
    seq(n, i requires 0 <= i < n => Bit(v, n - i - 1))
  }

  /** Python's `range(start, stop, step)`. */
  function Range(start: int, stop: int, step: int): (r: seq<int>)
    requires step != 0
    decreases if step > 0 then stop - start else start - stop
  {
    if step > 0 && start < stop then [start] + Range(start + step, stop, step)
    else if step < 0 && start > stop then [start] + Range(start + step, stop, step)
    else []
  }

  /** What `slice.indices(length)` hands back: a non-zero step, and bounds
      that keep every position of the range inside 0..length. */
  predicate Normalized(start: int, stop: int, step: int, length: nat) {
    step != 0 &&
    (step > 0 ==> 0 <= start <= length && 0 <= stop <= length) &&
    (step < 0 ==> -1 <= start < length && -1 <= stop < length)
  }

  /** Every position of a normalized slice is an index of the bitset. */
  lemma {:induction false} RangeInside(start: int, stop: int, step: int, length: nat)
    requires Normalized(start, stop, step, length)
    ensures forall k :: 0 <= k < |Range(start, stop, step)| ==> 0 <= Range(start, stop, step)[k] < length
    decreases if step > 0 then stop - start else start - stop
  {
    var r := Range(start, stop, step);
    if r != [] {
      if step > 0 {
        if start + step <= length {
          RangeInside(start + step, stop, step, length);
        } else {
          assert Range(start + step, stop, step) == [];
        }
      } else {
        if start + step >= -1 {
          RangeInside(start + step, stop, step, length);
        } else {
          assert Range(start + step, stop, step) == [];
        }
      }
    }
  }

  /** The positions of `range(0, n, 1)` are 0, 1, ..., n - 1. */
  lemma {:induction false} RangeUp(a: int, n: int)
    requires a <= n
    ensures |Range(a, n, 1)| == n - a && forall k :: 0 <= k < n - a ==> Range(a, n, 1)[k] == a + k
    decreases n - a
  {
    if a < n {
      RangeUp(a + 1, n);
    }
  }

  /** The bits that positions `ps` of a bitset of `length` bits stand for. */
  function BitPositions(ps: seq<int>, length: nat): set<int> {
    set k | 0 <= k < |ps| :: length - ps[k] - 1
  }

  function Max3(a: int, b: int, c: int): (m: int)
    ensures m >= a && m >= b && m >= c && (m == a || m == b || m == c)
  {
    if a >= b && a >= c then a else if b >= c then b else c
  }

  /** One write of a slice: the bits set so far gain the next position. */
  lemma SliceStep(prev: nat, before: nat, ps: seq<int>, k: nat, length: nat, v: bool)
    requires k < |ps| && 0 <= ps[k] < length
    requires forall q: nat :: Bit(prev, q) == (if q in BitPositions(ps[..k], length) then v else Bit(before, q))
    ensures forall q: nat :: Bit(SetBit(prev, length - ps[k] - 1, v), q) ==
                             (if q in BitPositions(ps[..k + 1], length) then v else Bit(before, q))
  {
    var pos := length - ps[k] - 1;
    assert BitPositions(ps[..k + 1], length) == BitPositions(ps[..k], length) + {pos} by {
      assert ps[..k + 1] == ps[..k] + [ps[k]];
    }
    forall q: nat
      ensures Bit(SetBit(prev, pos, v), q) == (if q in BitPositions(ps[..k + 1], length) then v else Bit(before, q))
    {
      BitOfSetBit(prev, pos, v, q);
    }
  }

  /** Once every position is written, the bits read from the left are
      `v` at the positions of the slice and unchanged elsewhere. */
  lemma SliceBits(value: nat, before: nat, ps: seq<int>, length: nat, v: bool)
    requires forall k :: 0 <= k < |ps| ==> 0 <= ps[k] < length
    requires forall q: nat :: Bit(value, q) == (if q in BitPositions(ps, length) then v else Bit(before, q))
    ensures forall i :: 0 <= i < length ==>
              BitsOf(value, length)[i] == (if i in ps then v else BitsOf(before, length)[i])
  {
    forall i | 0 <= i < length
      ensures BitsOf(value, length)[i] == (if i in ps then v else BitsOf(before, length)[i])
    {
      assert (length - i - 1 in BitPositions(ps, length)) <==> i in ps;
    }
  }

  class Bitset {
    var value: nat
    var length: nat

    /** The bits as indices 0..length. */
    function Bits(): (r: seq<bool>)
      reads this
      ensures |r| == length
    {
      BitsOf(value, length)
    }

    constructor (length: nat)
      ensures this.length == length && value == 0
      ensures forall i :: 0 <= i < length ==> !Bits()[i]
    {
      value := 0;
      this.length := length;
      new;
      forall i | 0 <= i < length ensures !Bits()[i] {
        ZeroBits(length - i - 1);
      }
    }

    /** Reading one index: an index at or past the end asks for a negative
        shift, which Python refuses; a negative index reads a bit above the
        `length` bits. */
    function Get(s: int): (r: Result<bool, string>)
      reads this
      ensures r.Failure? <==> s >= length
      ensures 0 <= s < length ==> r == Success(Bits()[s])
      ensures s < 0 ==> r == Success(Bit(value, length - s - 1))
    {
      var pos := length - s - 1;
      if pos < 0 then Failure("negative shift count") else Success(Bit(value, pos))
    }

    /** Reading a slice: the bits at the positions of the range, in order. */
    method GetSlice(start: int, stop: int, step: int) returns (results: seq<bool>)
      requires Normalized(start, stop, step, length)
      ensures var ps := Range(start, stop, step);
        |results| == |ps| &&
        forall k :: 0 <= k < |ps| ==> 0 <= ps[k] < length && results[k] == Bits()[ps[k]]
    {
      var ps := Range(start, stop, step);
      RangeInside(start, stop, step, length);
      results := [];
      for k := 0 to |ps|
        invariant |results| == k && forall j :: 0 <= j < k ==> results[j] == Bits()[ps[j]]
      {
        var pos := length - ps[k] - 1;
        results := results + [Bit(value, pos)];
      }
    }

    /** Writing one index sets or clears exactly its bit. An index at or past
        the end is refused; a negative index writes a bit above the `length`
        bits and grows `length` to that bit's number when it is larger. */
    method SetItem(s: int, v: bool) returns (r: Result<(), string>)
      modifies this
      ensures r.Failure? <==> s >= old(length)
      ensures r.Failure? ==> value == old(value) && length == old(length)
      ensures r.Success? ==> forall q: nat ::
        Bit(value, q) == (if q == old(length) - s - 1 then v else Bit(old(value), q))
      ensures r.Success? ==>
        length == (if old(length) < old(length) - s - 1 then old(length) - s - 1 else old(length))
      ensures 0 <= s < old(length) ==> length == old(length) && Bits() == old(Bits())[s := v]
    {
      var pos := length - s - 1;
      if pos < 0 {
        return Failure("negative shift count");
      }
      ghost var before := value;
      value := SetBit(value, pos, v);
      forall q: nat ensures Bit(value, q) == (if q == pos then v else Bit(before, q)) {
        BitOfSetBit(before, pos, v, q);
      }
      if length < pos {
        length := pos;
      }
      r := Success(());
    }

    /** Writing a slice sets or clears the bit of every position of the range
        and leaves all other bits; `length` becomes the largest of `start + 1`,
        `stop` and the old length. */
    method SetSlice(start: int, stop: int, step: int, v: bool)
      requires Normalized(start, stop, step, length)
      modifies this
      ensures length == Max3(start + 1, stop, old(length))
      ensures forall q: nat ::
        Bit(value, q) == (if q in BitPositions(Range(start, stop, step), old(length)) then v else Bit(old(value), q))
      ensures length == old(length) ==> forall i :: 0 <= i < length ==>
        Bits()[i] == (if i in Range(start, stop, step) then v else old(Bits())[i])
    {
      var ps := Range(start, stop, step);
      RangeInside(start, stop, step, length);
      ghost var before := value;
      for k := 0 to |ps|
        invariant length == old(length)
        invariant forall q: nat :: Bit(value, q) == (if q in BitPositions(ps[..k], length) then v else Bit(before, q))
      {
        var pos := length - ps[k] - 1;
        SliceStep(value, before, ps, k, length, v);
        value := SetBit(value, pos, v);
      }
      assert ps[..|ps|] == ps;
      length := Max3(start + 1, stop, length);
      if length == old(length) {
        SliceBits(value, before, ps, length, v);
      }
    }

    /** The bits as text, '1' for a set bit and '0' otherwise, one character
        per index. */
    method ToString() returns (s: string)
      ensures |s| == length
      ensures forall i :: 0 <= i < length ==> s[i] == (if Bits()[i] then '1' else '0')
    {
      RangeUp(0, length);
      var all := GetSlice(0, length, 1);
      s := "";
      for k := 0 to |all|
        invariant |s| == k && forall i :: 0 <= i < k ==> s[i] == (if Bits()[i] then '1' else '0')
      {
        s := s + (if all[k] then "1" else "0");
      }
    }
  }
}

/** The Bloom filter of module_3/D/m3_taskD.py over a `Bitset` of `size`
    bits. Its size, hash count and the primes of its hash functions are
    computed by the constructor from floating-point logarithms and the prime
    generator; here they are parameters. */
module BloomFilters {
  import opened Wrappers
  import opened Bitsets

  /** The Mersenne prime 2^31 - 1. */
  const Mersenne31: nat := 2147483647

  class BloomFilter {
    const size: nat
    const hashCount: nat
    const primes: seq<int>
    const bitset: Bitset

    ghost predicate Valid()
      reads this, bitset
    {
      size > 0 && hashCount > 0 && |primes| == hashCount && bitset.length == size
    }

    /** A filter with every bit clear. */
    constructor (size: nat, hashCount: nat, primes: seq<int>)
      requires size > 0 && hashCount > 0 && |primes| == hashCount
      ensures Valid() && fresh(bitset)
      ensures this.size == size && this.hashCount == hashCount && this.primes == primes
      ensures forall i :: 0 <= i < size ==> !bitset.Bits()[i]
    {
      this.size := size;
      this.hashCount := hashCount;
      this.primes := primes;
      bitset := new Bitset(size);
    }

    /** Hash number `seed` of `key`: an index of the bitset. Python's `%`
        with a positive modulus is never negative, like Dafny's. */
    function FHash(seed: nat, key: int): (h: nat)
      requires seed < |primes| && size > 0
      ensures h < size
    {
      (((seed + 1) * key + primes[seed]) % Mersenne31) % size
    }

    /** Every hashed index of `key` holds a set bit. */
    ghost predicate Member(key: int)
      reads this, bitset
      requires Valid()
    {
      forall i :: 0 <= i < hashCount ==> bitset.Bits()[FHash(i, key)]
    }

    /** `key in filter`: stops at the first hashed index whose bit is clear. */
    method Contains(key: int) returns (r: bool)
      requires Valid()
      ensures r <==> Member(key)
    {
      for i := 0 to hashCount
        invariant forall j :: 0 <= j < i ==> bitset.Bits()[FHash(j, key)]
      {
        var bit := bitset.Get(FHash(i, key));
        if !bit.value {
          return false;
        }
      }
      return true;
    }

    /** The indices hashes 0..n of `key` name. */
    function Hashed(key: int, n: nat): set<int>
      requires n <= |primes| && size > 0
    {
      set j | 0 <= j < n :: FHash(j, key)
    }

    /** Sets the bit of every hashed index of `key` and no other, so a key
        added earlier is still found. */
    method Add(key: int)
      requires Valid()
      modifies bitset
      ensures Valid() && Member(key)
      ensures forall i :: 0 <= i < size ==> bitset.Bits()[i] == (old(bitset.Bits())[i] || i in Hashed(key, hashCount))
      ensures forall q: nat :: Bit(old(bitset.value), q) ==> Bit(bitset.value, q)
      ensures forall q: nat :: q >= size ==> Bit(bitset.value, q) == Bit(old(bitset.value), q)
    {
      for i := 0 to hashCount
        invariant bitset.length == size
        invariant forall j :: 0 <= j < i ==> bitset.Bits()[FHash(j, key)]
        invariant forall k :: 0 <= k < size ==> bitset.Bits()[k] == (old(bitset.Bits())[k] || k in Hashed(key, i))
        invariant forall q: nat :: Bit(old(bitset.value), q) ==> Bit(bitset.value, q)
        invariant forall q: nat :: q >= size ==> Bit(bitset.value, q) == Bit(old(bitset.value), q)
      {
        assert Hashed(key, i + 1) == Hashed(key, i) + {FHash(i, key)};
        var _ := bitset.SetItem(FHash(i, key), true);
      }
    }

    /** The bits of the filter as text. */
    method ToString() returns (s: string)
      requires Valid()
      ensures |s| == size
      ensures forall i :: 0 <= i < size ==> s[i] == (if bitset.Bits()[i] then '1' else '0')
    {
      s := bitset.ToString();
    }
  }

  /** `BloomFilter(n, p)`: a hash count of 0 raises `BloomFilterError`. */
  method NewFilter(size: int, hashCount: nat, primes: seq<int>) returns (r: Result<BloomFilter, string>)
    requires (hashCount > 0 ==> size > 0) && |primes| == hashCount
    ensures r.Failure? <==> hashCount == 0
    ensures r.Success? ==> fresh(r.value) && fresh(r.value.bitset) && r.value.Valid()
    ensures r.Success? ==> r.value.size == size && r.value.primes == primes
    ensures r.Success? ==> forall i :: 0 <= i < size ==> !r.value.bitset.Bits()[i]
  {
    if hashCount == 0 {
      return Failure("BloomFilterError");
    }
    var f := new BloomFilter(size, hashCount, primes);
    r := Success(f);
  }
}
