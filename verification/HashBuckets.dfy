/**
 How a hash value finds its bucket: the table size is a power of two, and masking with one
 less is taking the remainder.
 */
module HashBuckets {
  import opened Common
  import opened RabinHash

  function HashNumber(val: bv32): nat {
    val as nat
  }

  function Remainder(x: nat, m: nat): (r: nat)
    requires m > 0
    ensures r < m
  {
    x % m
  }

  /** The bucket of a hash value; `MaskIsRemainder` says that masking computes it. */
  function Bucket(val: Hash, hsize: nat): (b: nat)
    requires hsize > 0
    ensures b < hsize
  {
    hide HashNumber, Remainder;
    Remainder(HashNumber(val), hsize)
  }

  /** One more bit at the low end. */
  function Shifted(x: bv32, bit: bool): bv32 {
    if bit then (x << 1) | 1 else x << 1
  }

  function Half(x: bv32): bv32 {
    x >> 1
  }

  function Odd(x: bv32): bool {
    x & 1 == 1
  }

  function And(x: bv32, y: bv32): bv32 {
    x & y
  }

  /** `hash_mask` for a table of 2^k buckets: the `k` low bits. */
  function Mask(k: nat): bv32 {
    if k == 0 then 0 else Shifted(Mask(k - 1), true)
  }

  lemma ShiftedBits(x: bv32, mask: bv32)
    ensures x == Shifted(Half(x), Odd(x)) && Half(x) < 0x8000_0000
    ensures And(x, Shifted(mask, true)) == Shifted(And(Half(x), mask), Odd(x))
    ensures And(Half(x), mask) < 0x8000_0000
  {
  }

  lemma ShiftedNumber(x: bv32, bit: bool)
    requires x < 0x8000_0000
    ensures HashNumber(Shifted(x, bit)) == 2 * HashNumber(x) + if bit then 1 else 0
  {
    EvenNumber(x);
    OddNumber(x);
    hide HashNumber;
  }

  lemma EvenNumber(x: bv32)
    requires x < 0x8000_0000
    ensures HashNumber(x << 1) == 2 * HashNumber(x)
  {
  }

  lemma OddNumber(x: bv32)
    requires x < 0x8000_0000
    ensures HashNumber((x << 1) | 1) == 2 * HashNumber(x) + 1
  {
  }

  lemma TopBit(x: bv32)
    ensures HashNumber(x) < 0x8000_0000 ==> x < 0x8000_0000
    ensures HashNumber(0) == 0
  {
  }

  /** As a number the mask is one less than the table size. */
  lemma {:induction false} MaskIsOneLess(k: nat)
    requires Pow2(k) <= 0x8000_0000
    ensures HashNumber(Mask(k)) == Pow2(k) - 1
  {
    hide HashNumber, Shifted;
    TopBit(0);
    if k > 0 {
      MaskIsOneLess(k - 1);
      TopBit(Mask(k - 1));
      ShiftedNumber(Mask(k - 1), true);
    }
  }

  lemma RemainderDoubles(x: nat, bit: nat, m: nat)
    requires m > 0 && bit <= 1
    ensures Remainder(2 * x + bit, 2 * m) == 2 * Remainder(x, m) + bit
  {
    var q, r := x / m, x % m;
    assert 2 * x + bit == 2 * m * q + (2 * r + bit) by { assert x == m * q + r; }
    RemainderIs(2 * x + bit, 2 * m, q, 2 * r + bit);
  }

  /** `val & hash_mask` is the remainder by the table size. */
  lemma {:induction false} MaskIsRemainder(val: bv32, k: nat)
    ensures HashNumber(And(val, Mask(k))) == Remainder(HashNumber(val), Pow2(k))
    decreases k
  {
    hide HashNumber, Shifted, Half, Odd, And;
    if k == 0 {
      MaskNothing(val);
    } else {
      var x, mask := Half(val), Mask(k - 1);
      MaskIsRemainder(x, k - 1);
      ShiftedBits(val, mask);
      ShiftedNumber(x, Odd(val));
      ShiftedNumber(And(x, mask), Odd(val));
      RemainderDoubles(HashNumber(x), if Odd(val) then 1 else 0, Pow2(k - 1));
      hide Remainder;
    }
  }

  lemma MaskNothing(val: bv32)
    ensures HashNumber(And(val, 0)) == 0
  {
  }
}
