/**
 The rolling hash of `delta.c`. Tables T and U are XOR-linear, so each is given here by
 its eight power-of-two entries; the facts the encoder rests on are proved from them.
 */
module RabinHash {
  import opened Common

  const WINDOW := 16  // RABIN_WINDOW

  // ------------------------------------------------------------ the two tables

  function Xor(a: bv32, b: bv32): bv32 {
    a ^ b
  }

  function Bit(k: bv32, mask: bv32, entry: bv32): bv32 {
    if k & mask == 0 then 0 else entry
  }

  function Quad(k: bv32, mask: bv32, e0: bv32, e1: bv32, e2: bv32, e3: bv32): bv32 {
    Xor(Xor(Bit(k, mask, e0), Bit(k, mask << 1, e1)), Xor(Bit(k, mask << 2, e2), Bit(k, mask << 3, e3)))
  }

  /** Table T, one entry for each value of `val >> RABIN_SHIFT`. */
  function T(k: bv32): bv32
    requires k < 0x100
  {
    Xor(Quad(k, 0x01, 0xab59b4d1, 0x56b369a2, 0x063f6795, 0x0c7ecf2a),
        Quad(k, 0x10, 0x18fd9e54, 0x31fb3ca8, 0x63f67950, 0x6cb54671))
  }

  /** Table U, one entry for each value of the byte leaving the window. */
  function U(k: bv32): bv32
    requires k < 0x100
  {
    Xor(Quad(k, 0x01, 0x7eb5200d, 0x5633f4cb, 0x073e5d47, 0x0e7cba8e),
        Quad(k, 0x10, 0x1cf9751c, 0x39f2ea38, 0x73e5d470, 0x4c921c31))
  }

  lemma XorAssociates(a: bv32, b: bv32, c: bv32)
    ensures Xor(Xor(a, b), c) == Xor(a, Xor(b, c))
  {
  }

  lemma XorCommutes(a: bv32, b: bv32)
    ensures Xor(a, b) == Xor(b, a)
  {
  }

  lemma Swap(a: bv32, b: bv32, c: bv32, d: bv32)
    ensures Xor(Xor(a, b), Xor(c, d)) == Xor(Xor(a, c), Xor(b, d))
  {
    hide Xor;
    XorAssociates(a, b, Xor(c, d));
    XorAssociates(b, c, d);
    XorCommutes(b, c);
    XorAssociates(c, b, d);
    XorAssociates(a, c, Xor(b, d));
  }

  predicate IsByteBit(mask: bv32) {
    || mask == 0x01 || mask == 0x02 || mask == 0x04 || mask == 0x08
    || mask == 0x10 || mask == 0x20 || mask == 0x40 || mask == 0x80
  }

  lemma SingleBit(a: bv32, mask: bv32)
    requires IsByteBit(mask)
    ensures a & mask == 0 || a & mask == mask
  {
  }

  lemma MaskLinear(a: bv32, b: bv32, mask: bv32)
    ensures (a ^ b) & mask == (a & mask) ^ (b & mask)
  {
  }

  lemma XorUnits(v: bv32)
    ensures Xor(0, v) == v && Xor(v, 0) == v && Xor(v, v) == 0
  {
  }

  lemma MaskXor(a: bv32, b: bv32, mask: bv32)
    requires IsByteBit(mask)
    ensures Xor(a, b) & mask == 0 <==> ((a & mask == 0) <==> (b & mask == 0))
  {
    SingleBit(a, mask);
    SingleBit(b, mask);
    MaskLinear(a, b, mask);
    assert mask ^ mask == 0;
  }

  lemma BitLinear(a: bv32, b: bv32, mask: bv32, entry: bv32)
    requires IsByteBit(mask)
    ensures Bit(Xor(a, b), mask, entry) == Xor(Bit(a, mask, entry), Bit(b, mask, entry))
  {
    MaskXor(a, b, mask);
    XorUnits(entry);
    XorUnits(0);
    if a & mask == 0 {
      assert Bit(a, mask, entry) == 0;
    } else if b & mask == 0 {
      assert Bit(b, mask, entry) == 0;
    } else {
      assert Xor(a, b) & mask == 0;
    }
  }

  lemma QuadLinear(a: bv32, b: bv32, mask: bv32, e0: bv32, e1: bv32, e2: bv32, e3: bv32)
    requires mask == 0x01 || mask == 0x10
    ensures Quad(Xor(a, b), mask, e0, e1, e2, e3) == Xor(Quad(a, mask, e0, e1, e2, e3), Quad(b, mask, e0, e1, e2, e3))
  {
    BitLinear(a, b, mask, e0);
    BitLinear(a, b, mask << 1, e1);
    BitLinear(a, b, mask << 2, e2);
    BitLinear(a, b, mask << 3, e3);
    hide Bit, Xor;
    var a0, a1, a2, a3 := Bit(a, mask, e0), Bit(a, mask << 1, e1), Bit(a, mask << 2, e2), Bit(a, mask << 3, e3);
    var b0, b1, b2, b3 := Bit(b, mask, e0), Bit(b, mask << 1, e1), Bit(b, mask << 2, e2), Bit(b, mask << 3, e3);
    Swap(a0, b0, a1, b1);
    Swap(a2, b2, a3, b3);
    Swap(Xor(a0, a1), Xor(b0, b1), Xor(a2, a3), Xor(b2, b3));
  }

  lemma TLinear(a: bv32, b: bv32)
    requires a < 0x100 && b < 0x100
    ensures Xor(a, b) < 0x100 && T(Xor(a, b)) == Xor(T(a), T(b))
  {
    assert Xor(a, b) < 0x100;
    QuadLinear(a, b, 0x01, 0xab59b4d1, 0x56b369a2, 0x063f6795, 0x0c7ecf2a);
    QuadLinear(a, b, 0x10, 0x18fd9e54, 0x31fb3ca8, 0x63f67950, 0x6cb54671);
    hide Quad, Xor;
    Swap(Quad(a, 0x01, 0xab59b4d1, 0x56b369a2, 0x063f6795, 0x0c7ecf2a),
         Quad(b, 0x01, 0xab59b4d1, 0x56b369a2, 0x063f6795, 0x0c7ecf2a),
         Quad(a, 0x10, 0x18fd9e54, 0x31fb3ca8, 0x63f67950, 0x6cb54671),
         Quad(b, 0x10, 0x18fd9e54, 0x31fb3ca8, 0x63f67950, 0x6cb54671));
  }

  // ---------------------------------------------------------------- one step

  /** A hash value: bit 31 is clear, so `val >> 23` indexes table T in range. */
  type Hash = v: bv32 | v < 0x8000_0000

  type Octet = b: bv32 | b < 0x100

  function ToOctet(b: byte): Octet {
    b as bv32
  }

  /** One step of the hash: shifted by a byte, with the entry of T for the bits shifted out. */
  function Push(v: Hash, b: Octet): Hash {
    PushStays31(v, b);
    Xor((v << 8) | b, T(v >> 23))
  }

  /** Bit 31 of T[k] equals bit 0 of k, so the bit shifted out at the top is cancelled. */
  lemma PushStays31(v: Hash, b: Octet)
    ensures v >> 23 < 0x100
    ensures Xor((v << 8) | b, T(v >> 23)) < 0x8000_0000
  {
  }

  lemma ShiftRightLinear(v: bv32, w: bv32)
    ensures Xor(v, w) >> 23 == Xor(v >> 23, w >> 23)
  {
  }

  lemma ShiftLeftLinear(v: bv32, w: bv32, a: Octet, b: Octet)
    ensures (Xor(v, w) << 8) | Xor(a, b) == Xor((v << 8) | a, (w << 8) | b)
  {
  }

  lemma Ranges(v: Hash, w: Hash, a: Octet, b: Octet)
    ensures Xor(v, w) < 0x8000_0000 && Xor(a, b) < 0x100
    ensures v >> 23 < 0x100 && w >> 23 < 0x100
  {
  }

  lemma PushLinear(v: Hash, w: Hash, a: Octet, b: Octet)
    ensures Xor(v, w) < 0x8000_0000 && Xor(a, b) < 0x100
    ensures Push(Xor(v, w), Xor(a, b)) == Xor(Push(v, a), Push(w, b))
  {
    Ranges(v, w, a, b);
    ShiftRightLinear(v, w);
    ShiftLeftLinear(v, w, a, b);
    TLinear(v >> 23, w >> 23);
    hide T, Xor;
    Swap((v << 8) | a, (w << 8) | b, T(v >> 23), T(w >> 23));
  }

  // ---------------------------------------------------------------- windows

  /** The hash of `s` pushed byte by byte onto `v`. */
  function Fold(v: Hash, s: seq<byte>): Hash
    decreases |s|
  {
    if s == [] then v else Fold(Push(v, ToOctet(s[0])), s[1..])
  }

  lemma {:induction false} FoldAppend(v: Hash, s: seq<byte>, b: byte)
    ensures Fold(v, s + [b]) == Push(Fold(v, s), ToOctet(b))
    decreases |s|
  {
    hide Push, ToOctet;
    if s == [] {
      assert s + [b] == [b];
      assert Fold(Push(v, ToOctet(b)), []) == Push(v, ToOctet(b));
    } else {
      assert (s + [b])[1..] == s[1..] + [b];
      FoldAppend(Push(v, ToOctet(s[0])), s[1..], b);
    }
  }

  /** `n` steps with zero bytes: what is left of `v` after `n` further bytes. */
  function Fade(v: Hash, n: nat): Hash
    decreases n
  {
    if n == 0 then v else Fade(Push(v, 0), n - 1)
  }

  lemma XorIsHash(v: Hash, w: Hash)
    ensures Xor(v, w) < 0x8000_0000
  {
  }

  /** Folding splits into the faded start value and the bytes on their own. */
  lemma {:induction false} FoldLinear(v: Hash, w: Hash, s: seq<byte>)
    ensures Xor(v, w) < 0x8000_0000
    ensures Fold(Xor(v, w), s) == Xor(Fade(v, |s|), Fold(w, s))
    decreases |s|
  {
    XorIsHash(v, w);
    hide Push, ToOctet, Xor;
    if s == [] {
    } else {
      var b := ToOctet(s[0]);
      XorUnits(b);
      PushLinear(v, w, 0, b);
      FoldLinear(Push(v, 0), Push(w, b), s[1..]);
    }
  }

  // Table U: each entry is its index pushed through fifteen zero bytes.

  function Push3(v: Hash): Hash {
    Push(Push(Push(v, 0), 0), 0)
  }

  lemma Fade3(v: Hash, n: nat)
    ensures Fade(v, n + 3) == Fade(Push3(v), n)
  {
    hide Push;
    assert Fade(v, n + 3) == Fade(Push(v, 0), n + 2);
    assert Fade(Push(v, 0), n + 2) == Fade(Push(Push(v, 0), 0), n + 1);
  }

  lemma FadeNone(v: Hash)
    ensures Fade(v, 0) == v
  {
  }

  lemma Fade15(v: Hash)
    ensures Fade(v, 15) == Push3(Push3(Push3(Push3(Push3(v)))))
  {
    FadeNone(Push3(Push3(Push3(Push3(Push3(v))))));
    hide Push3, Fade;
    Fade3(v, 12);
    Fade3(Push3(v), 9);
    Fade3(Push3(Push3(v)), 6);
    Fade3(Push3(Push3(Push3(v))), 3);
    Fade3(Push3(Push3(Push3(Push3(v)))), 0);
  }

  lemma UAtBit0()
    ensures Fade(0x01, 15) == 0x7eb5200d
  {
    hide Fade;
    assert Push3(0x1) == 0x1000000;
    assert Push3(0x1000000) == 0x177eae38;
    assert Push3(0x177eae38) == 0xd19fd2c;
    assert Push3(0xd19fd2c) == 0x1cb666be;
    assert Push3(0x1cb666be) == 0x7eb5200d;
    hide Push3;
    Fade15(0x01);
  }

  lemma UAtBit1()
    ensures Fade(0x02, 15) == 0x5633f4cb
  {
    hide Fade;
    assert Push3(0x2) == 0x2000000;
    assert Push3(0x2000000) == 0x2efd5c70;
    assert Push3(0x2efd5c70) == 0x1a33fa58;
    assert Push3(0x1a33fa58) == 0x396ccd7c;
    assert Push3(0x396ccd7c) == 0x5633f4cb;
    hide Push3;
    Fade15(0x02);
  }

  lemma UAtBit2()
    ensures Fade(0x04, 15) == 0x073e5d47
  {
    hide Fade;
    assert Push3(0x4) == 0x4000000;
    assert Push3(0x4000000) == 0x5dfab8e0;
    assert Push3(0x5dfab8e0) == 0x3467f4b0;
    assert Push3(0x3467f4b0) == 0x72d99af8;
    assert Push3(0x72d99af8) == 0x73e5d47;
    hide Push3;
    Fade15(0x04);
  }

  lemma UAtBit3()
    ensures Fade(0x08, 15) == 0x0e7cba8e
  {
    hide Fade;
    assert Push3(0x8) == 0x8000000;
    assert Push3(0x8000000) == 0x10acc511;
    assert Push3(0x10acc511) == 0x68cfe960;
    assert Push3(0x68cfe960) == 0x4eea8121;
    assert Push3(0x4eea8121) == 0xe7cba8e;
    hide Push3;
    Fade15(0x08);
  }

  lemma UAtBit4()
    ensures Fade(0x10, 15) == 0x1cf9751c
  {
    hide Fade;
    assert Push3(0x10) == 0x10000000;
    assert Push3(0x10000000) == 0x21598a22;
    assert Push3(0x21598a22) == 0x7ac66611;
    assert Push3(0x7ac66611) == 0x368cb693;
    assert Push3(0x368cb693) == 0x1cf9751c;
    hide Push3;
    Fade15(0x10);
  }

  lemma UAtBit5()
    ensures Fade(0x20, 15) == 0x39f2ea38
  {
    hide Fade;
    assert Push3(0x20) == 0x20000000;
    assert Push3(0x20000000) == 0x42b31444;
    assert Push3(0x42b31444) == 0x5ed578f3;
    assert Push3(0x5ed578f3) == 0x6d196d26;
    assert Push3(0x6d196d26) == 0x39f2ea38;
    hide Push3;
    Fade15(0x20);
  }

  lemma UAtBit6()
    ensures Fade(0x40, 15) == 0x73e5d470
  {
    hide Fade;
    assert Push3(0x40) == 0x40000000;
    assert Push3(0x40000000) == 0x2e3f9c59;
    assert Push3(0x2e3f9c59) == 0x16f34537;
    assert Push3(0x16f34537) == 0x716b6e9d;
    assert Push3(0x716b6e9d) == 0x73e5d470;
    hide Push3;
    Fade15(0x40);
  }

  lemma UAtBit7()
    ensures Fade(0x80, 15) == 0x4c921c31
  {
    hide Fade;
    assert Push3(0x80) == 0x2b59b4d1;
    assert Push3(0x2b59b4d1) == 0x5c7f38b2;
    assert Push3(0x5c7f38b2) == 0x2de68a6e;
    assert Push3(0x2de68a6e) == 0x498f69eb;
    assert Push3(0x498f69eb) == 0x4c921c31;
    hide Push3;
    Fade15(0x80);
  }

  lemma UEntries()
    ensures U(0x01) == 0x7eb5200d && U(0x02) == 0x5633f4cb && U(0x04) == 0x073e5d47 && U(0x08) == 0x0e7cba8e
    ensures U(0x10) == 0x1cf9751c && U(0x20) == 0x39f2ea38 && U(0x40) == 0x73e5d470 && U(0x80) == 0x4c921c31
  {
  }

  lemma UAtBit(mask: bv32)
    requires IsByteBit(mask)
    ensures Fade(mask, 15) == U(mask)
  {
    hide U, Push, Fade;
    UEntries();
    if mask == 0x01 {
      UAtBit0();
    } else if mask == 0x02 {
      UAtBit1();
    } else if mask == 0x04 {
      UAtBit2();
    } else if mask == 0x08 {
      UAtBit3();
    } else if mask == 0x10 {
      UAtBit4();
    } else if mask == 0x20 {
      UAtBit5();
    } else if mask == 0x40 {
      UAtBit6();
    } else {
      UAtBit7();
    }
  }

  lemma ULinear(a: bv32, b: bv32)
    requires a < 0x100 && b < 0x100
    ensures Xor(a, b) < 0x100 && U(Xor(a, b)) == Xor(U(a), U(b))
  {
    assert Xor(a, b) < 0x100;
    QuadLinear(a, b, 0x01, 0x7eb5200d, 0x5633f4cb, 0x073e5d47, 0x0e7cba8e);
    QuadLinear(a, b, 0x10, 0x1cf9751c, 0x39f2ea38, 0x73e5d470, 0x4c921c31);
    hide Quad, Xor;
    Swap(Quad(a, 0x01, 0x7eb5200d, 0x5633f4cb, 0x073e5d47, 0x0e7cba8e),
         Quad(b, 0x01, 0x7eb5200d, 0x5633f4cb, 0x073e5d47, 0x0e7cba8e),
         Quad(a, 0x10, 0x1cf9751c, 0x39f2ea38, 0x73e5d470, 0x4c921c31),
         Quad(b, 0x10, 0x1cf9751c, 0x39f2ea38, 0x73e5d470, 0x4c921c31));
  }

  lemma {:induction false} FadeLinear(v: Hash, w: Hash, n: nat)
    ensures Xor(v, w) < 0x8000_0000
    ensures Fade(Xor(v, w), n) == Xor(Fade(v, n), Fade(w, n))
    decreases n
  {
    XorIsHash(v, w);
    hide Push, Xor;
    if n == 0 {
    } else {
      XorUnits(0);
      PushLinear(v, w, 0, 0);
      FadeLinear(Push(v, 0), Push(w, 0), n - 1);
    }
  }

  lemma FadeZero(n: nat)
    ensures Fade(0, n) == 0 && U(0) == 0
    decreases n
  {
  }

  /** The table is what it is meant to be, for every byte: split off the top set bit. */
  lemma {:induction false} UIsFade(k: Octet, top: bv32)
    requires top == 0x100 || IsByteBit(top)
    requires k < top
    ensures Fade(k, 15) == U(k)
    decreases top
  {
    hide U, Fade, Push, Xor;
    if k == 0 {
      FadeZero(15);
    } else {
      var mask := top >> 1;
      HalfBit(k, top);
      if k & mask == 0 {
        UIsFade(k, mask);
      } else {
        var rest := k ^ mask;
        UIsFade(rest, mask);
        UAtBit(mask);
        ULinear(rest, mask);
        FadeLinear(rest, mask, 15);
      }
    }
  }

  lemma HalfBit(k: Octet, top: bv32)
    requires top == 0x100 || IsByteBit(top)
    requires 0 < k < top
    ensures IsByteBit(top >> 1)
    ensures k & (top >> 1) == 0 ==> k < (top >> 1)
    ensures k & (top >> 1) != 0 ==> k ^ (top >> 1) < (top >> 1) && Xor(k ^ (top >> 1), top >> 1) == k
  {
  }

  // ------------------------------------------------------------ the slide

  /** The hash of a window from scratch, as the initialisation loops compute it. */
  function WindowHash(w: seq<byte>): Hash {
    Fold(0, w)
  }

  /** The leaving byte's entry of U taken out, then one step: the window moves on by one byte. */
  function Slide(v: Hash, leaving: Octet, entering: Octet): Hash {
    UIsHash(v, leaving);
    Push(Xor(v, U(leaving)), entering)
  }

  lemma UIsHash(v: Hash, leaving: Octet)
    ensures Xor(v, U(leaving)) < 0x8000_0000
  {
    QuadIsHash(leaving, 0x01, 0x7eb5200d, 0x5633f4cb, 0x073e5d47, 0x0e7cba8e);
    QuadIsHash(leaving, 0x10, 0x1cf9751c, 0x39f2ea38, 0x73e5d470, 0x4c921c31);
    hide Quad, Xor;
    XorIsHash(Quad(leaving, 0x01, 0x7eb5200d, 0x5633f4cb, 0x073e5d47, 0x0e7cba8e),
              Quad(leaving, 0x10, 0x1cf9751c, 0x39f2ea38, 0x73e5d470, 0x4c921c31));
    XorIsHash(v, U(leaving));
  }

  lemma BitIsHash(k: bv32, mask: bv32, entry: Hash)
    ensures Bit(k, mask, entry) < 0x8000_0000
  {
  }

  lemma QuadIsHash(k: bv32, mask: bv32, e0: Hash, e1: Hash, e2: Hash, e3: Hash)
    ensures Quad(k, mask, e0, e1, e2, e3) < 0x8000_0000
  {
    BitIsHash(k, mask, e0);
    BitIsHash(k, mask << 1, e1);
    BitIsHash(k, mask << 2, e2);
    BitIsHash(k, mask << 3, e3);
    hide Bit, Xor;
    var b0, b1, b2, b3 := Bit(k, mask, e0), Bit(k, mask << 1, e1), Bit(k, mask << 2, e2), Bit(k, mask << 3, e3);
    XorIsHash(b0, b1);
    XorIsHash(b2, b3);
    XorIsHash(Xor(b0, b1), Xor(b2, b3));
  }

  /** Sliding gives the hash the new window has from scratch. */
  lemma SlideIsExact(w: seq<byte>, b: byte)
    requires |w| == WINDOW
    ensures Slide(WindowHash(w), ToOctet(w[0]), ToOctet(b)) == WindowHash(w[1..] + [b])
  {
    var first := ToOctet(w[0]);
    var tail := Fold(0, w[1..]);
    assert Push(0, first) == first;
    FoldLinear(first, 0, w[1..]);
    XorUnits(first);
    UIsFade(first, 0x100);
    UIsHash(WindowHash(w), first);
    hide Push, U, Fade, Xor;
    assert WindowHash(w) == Xor(U(first), tail);
    XorCommutes(U(first), tail);
    XorAssociates(tail, U(first), U(first));
    XorUnits(U(first));
    XorUnits(tail);
    FoldAppend(0, w[1..], b);
  }
}
