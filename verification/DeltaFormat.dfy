/**
 The delta format itself, independent of the encoder's and the decoder's loops:
 a header of two base-128 numbers followed by copy and insert instructions.
 `Interpret` is the reference meaning both loops are proved against.
 */
module DeltaFormat {
  import opened Common

  // ---------------------------------------------------------------- varints

  function EncodeVarint(n: nat): seq<byte> {
    if n < 0x80 then [n] else [n % 0x80 + 0x80] + EncodeVarint(n / 0x80)
  }

  /** The number at the head of `d` and how many bytes it takes. */
  function DecodeVarint(d: seq<byte>): (r: Option<(nat, nat)>)
    ensures r.Some? ==> 1 <= r.value.1 <= |d|
  {
    if d == [] then None
    else if d[0] < 0x80 then Some((d[0], 1))
    else match DecodeVarint(d[1..])
      case None => None
      case Some((v, used)) => Some((d[0] % 0x80 + 0x80 * v, used + 1))
  }

  lemma {:induction false} VarintRoundTrip(n: nat, rest: seq<byte>)
    ensures DecodeVarint(EncodeVarint(n) + rest) == Some((n, |EncodeVarint(n)|))
  {
    var d := EncodeVarint(n) + rest;
    if n < 0x80 {
    } else {
      VarintRoundTrip(n / 0x80, rest);
      assert d[1..] == EncodeVarint(n / 0x80) + rest;
      assert d[0] == n % 0x80 + 0x80;
    }
  }

  /** A 31-bit number takes at most five bytes. */
  lemma VarintLength(n: nat)
    requires n < 0x8000_0000
    ensures 1 <= |EncodeVarint(n)| <= 5
  {
    var n1 := n / 0x80;
    var n2 := n1 / 0x80;
    var n3 := n2 / 0x80;
    var n4 := n3 / 0x80;
    assert n4 < 0x80;
    assert |EncodeVarint(n4)| == 1;
    assert |EncodeVarint(n3)| <= 2;
    assert |EncodeVarint(n2)| <= 3;
    assert |EncodeVarint(n1)| <= 4;
  }

  // ------------------------------------------------- sparse little-endian numbers

  /** A number whose zero bytes are left out, with one presence flag a byte. */
  datatype Field = Field(flags: nat, bytes: seq<byte>)

  /** The flags and bytes of the `width` low bytes of `v`. */
  function EncodeField(v: nat, width: nat): (f: Field)
    ensures |f.bytes| <= width
  {
    if width == 0 then Field(0, [])
    else
      var high := EncodeField(v / 0x100, width - 1);
      if v % 0x100 == 0 then Field(2 * high.flags, high.bytes)
      else Field(2 * high.flags + 1, [v % 0x100] + high.bytes)
  }

  /** Reads up to `width` flagged bytes: the value and how many bytes were taken. */
  function DecodeField(flags: nat, width: nat, d: seq<byte>): (r: Option<(nat, nat)>)
    ensures r.Some? ==> r.value.1 <= |d| && r.value.1 <= width
  {
    if width == 0 then Some((0, 0))
    else if flags % 2 == 0 then
      match DecodeField(flags / 2, width - 1, d)
      case None => None
      case Some((v, used)) => Some((0x100 * v, used))
    else if d == [] then None
    else
      match DecodeField(flags / 2, width - 1, d[1..])
      case None => None
      case Some((v, used)) => Some((d[0] + 0x100 * v, used + 1))
  }

  predicate Fits(v: nat, width: nat) {
    if width == 0 then v == 0 else Fits(v / 0x100, width - 1)
  }

  lemma {:induction false} FlagsFit(v: nat, width: nat)
    ensures EncodeField(v, width).flags < Pow2(width)
  {
    if width > 0 {
      FlagsFit(v / 0x100, width - 1);
    }
  }

  lemma {:induction false} FieldRoundTrip(v: nat, width: nat, rest: seq<byte>)
    requires Fits(v, width)
    ensures DecodeField(EncodeField(v, width).flags, width, EncodeField(v, width).bytes + rest)
         == Some((v, |EncodeField(v, width).bytes|))
  {
    if width > 0 {
      var high, f := EncodeField(v / 0x100, width - 1), EncodeField(v, width);
      FieldRoundTrip(v / 0x100, width - 1, rest);
      EncodeLowByte(v, width);
      DecodeLowByte(f.flags, width, f.bytes + rest);
      hide EncodeField, DecodeField, Fits;
      assert f.flags / 2 == high.flags;
      if v % 0x100 != 0 {
        assert (f.bytes + rest)[0] == v % 0x100;
        assert (f.bytes + rest)[1..] == high.bytes + rest;
      }
    }
  }

  lemma EncodeLowByte(v: nat, width: nat)
    requires width > 0
    ensures var high, f := EncodeField(v / 0x100, width - 1), EncodeField(v, width);
            if v % 0x100 == 0 then f == Field(2 * high.flags, high.bytes)
            else f == Field(2 * high.flags + 1, [v % 0x100] + high.bytes)
  {
  }

  lemma DecodeLowByte(flags: nat, width: nat, d: seq<byte>)
    requires width > 0 && (flags % 2 == 1 ==> d != [])
    ensures var high := DecodeField(flags / 2, width - 1, if flags % 2 == 0 then d else d[1..]);
            DecodeField(flags, width, d) ==
            if high.None? then None
            else if flags % 2 == 0 then Some((0x100 * high.value.0, high.value.1))
            else Some((d[0] + 0x100 * high.value.0, high.value.1 + 1))
  {
  }

  // ------------------------------------------------------------ instructions

  datatype Instruction = Copy(offset: nat, length: nat) | Insert(data: seq<byte>)

  /**
   The instruction at the head of `d` and the bytes it takes. A copy length field of
   zero stands for 0x10000, a zero command byte is reserved, and an instruction whose
   operands run past the end of `d` is malformed.
   */
  function ReadInstruction(d: seq<byte>): (r: Option<(Instruction, nat)>)
    requires d != []
    ensures r.Some? ==> 1 <= r.value.1 <= |d|
  {
    var cmd := d[0];
    if cmd >= 0x80 then
      match DecodeField(cmd % 0x10, 4, d[1..])
      case None => None
      case Some((offset, used)) =>
        match DecodeField(cmd / 0x10 % 8, 3, d[1 + used..])
        case None => None
        case Some((length, used')) =>
          Some((Copy(offset, if length == 0 then 0x10000 else length), 1 + used + used'))
    else if 0 < cmd && cmd < |d| then Some((Insert(d[1..1 + cmd]), 1 + cmd))
    else None
  }

  /** What one instruction contributes to the result, if it stays inside the base. */
  function Contribution(base: seq<byte>, op: Instruction): Option<seq<byte>> {
    match op
    case Copy(offset, length) =>
      if offset + length <= |base| then Some(base[offset..offset + length]) else None
    case Insert(data) => Some(data)
  }

  /** The meaning of an instruction stream over `base`. */
  function Interpret(base: seq<byte>, d: seq<byte>): Option<seq<byte>>
    decreases |d|
  {
    if d == [] then Some([])
    else match ReadInstruction(d)
      case None => None
      case Some((op, used)) =>
        match (Contribution(base, op), Interpret(base, d[used..]))
        case (Some(piece), Some(rest)) => Some(piece + rest)
        case _ => None
  }

  /** The meaning of a whole delta: both headers must agree with the facts. */
  function ApplySpec(base: seq<byte>, delta: seq<byte>): Option<seq<byte>> {
    match DecodeVarint(delta)
    case None => None
    case Some((baseSize, used)) =>
      if baseSize != |base| then None
      else match DecodeVarint(delta[used..])
        case None => None
        case Some((resultSize, used')) =>
          match Interpret(base, delta[used + used'..])
          case None => None
          case Some(result) => if |result| == resultSize then Some(result) else None
  }

  // ------------------------------------- the format, byte by byte

  /** The operand byte at `at`, which is there only if the flag is set. */
  function OperandAt(flag: nat, d: seq<byte>, at: nat): nat {
    if flag == 1 && at < |d| then d[at] else 0
  }

  /** One flag and its byte, whichever it is. */
  lemma DecodeDigit(flags: nat, width: nat, d: seq<byte>, at: nat)
    requires width > 0 && at <= |d|
    ensures var flag := flags % 2;
            if |d| < at + flag then DecodeField(flags, width, d[at..]).None?
            else
              var high := DecodeField(flags / 2, width - 1, d[at + flag..]);
              if high.None? then DecodeField(flags, width, d[at..]).None?
              else DecodeField(flags, width, d[at..])
                   == Some((OperandAt(flag, d, at) + 0x100 * high.value.0, flag + high.value.1))
  {
    hide DecodeField;
    if flags % 2 == 0 {
      DecodeLowByte(flags, width, d[at..]);
    } else if at == |d| {
      assert d[at..] == [];
      MissingByte(flags, width);
    } else {
      DecodeLowByte(flags, width, d[at..]);
      assert d[at..][0] == d[at] && d[at..][1..] == d[at + 1..];
    }
  }

  lemma MissingByte(flags: nat, width: nat)
    requires width > 0 && flags % 2 == 1
    ensures DecodeField(flags, width, []).None?
  {
  }

  lemma NoDigits(flags: nat, d: seq<byte>)
    ensures DecodeField(flags, 0, d) == Some((0, 0))
  {
  }

  /** The three low flags of a field of three or, with `fourth`, of the digits above the lowest of four. */
  lemma ThreeDigits(flags: nat, d: seq<byte>, at: nat)
    requires at <= |d|
    ensures var f0, f1, f2 := flags % 2, flags / 2 % 2, flags / 4 % 2;
            var r := DecodeField(flags, 3, d[at..]);
            if |d| < at + f0 + f1 + f2 then r.None?
            else r == Some((OperandAt(f0, d, at) + 0x100 * OperandAt(f1, d, at + f0)
                            + 0x1_0000 * OperandAt(f2, d, at + f0 + f1), f0 + f1 + f2))
  {
    hide DecodeField, OperandAt;
    var f0, f1, f2 := flags % 2, flags / 2 % 2, flags / 4 % 2;
    assert flags / 2 / 2 == flags / 4;
    DecodeDigit(flags, 3, d, at);
    if at + f0 <= |d| {
      DecodeDigit(flags / 2, 2, d, at + f0);
      if at + f0 + f1 <= |d| {
        DecodeDigit(flags / 4, 1, d, at + f0 + f1);
        if at + f0 + f1 + f2 <= |d| {
          NoDigits(flags / 4 / 2, d[at + f0 + f1 + f2..]);
        }
      }
    }
  }

  lemma FourDigits(flags: nat, d: seq<byte>, at: nat)
    requires at <= |d|
    ensures var f0, f1, f2, f3 := flags % 2, flags / 2 % 2, flags / 4 % 2, flags / 8 % 2;
            var r := DecodeField(flags, 4, d[at..]);
            if |d| < at + f0 + f1 + f2 + f3 then r.None?
            else r == Some((OperandAt(f0, d, at) + 0x100 * OperandAt(f1, d, at + f0)
                            + 0x1_0000 * OperandAt(f2, d, at + f0 + f1)
                            + 0x100_0000 * OperandAt(f3, d, at + f0 + f1 + f2), f0 + f1 + f2 + f3))
  {
    hide DecodeField, OperandAt;
    Quarters(flags);
    DecodeDigit(flags, 4, d, at);
    if at + flags % 2 <= |d| {
      ThreeDigits(flags / 2, d, at + flags % 2);
    }
  }

  /**
   What a copy command with its operands says: seven flags, four for the bytes of the offset
   and three for those of the length, low byte first, a missing byte being zero and a length
   of zero standing for 0x10000. It is malformed exactly if the operands are not all there.
   */
  lemma CopyOperands(cmd: byte, d: seq<byte>)
    requires cmd >= 0x80
    ensures var o0, o1, o2, o3 := cmd % 2, cmd / 2 % 2, cmd / 4 % 2, cmd / 8 % 2;
            var l0, l1, l2 := cmd / 0x10 % 2, cmd / 0x20 % 2, cmd / 0x40 % 2;
            var n := o0 + o1 + o2 + o3;
            var offset := OperandAt(o0, d, 0) + 0x100 * OperandAt(o1, d, o0) + 0x1_0000 * OperandAt(o2, d, o0 + o1)
                          + 0x100_0000 * OperandAt(o3, d, o0 + o1 + o2);
            var length := OperandAt(l0, d, n) + 0x100 * OperandAt(l1, d, n + l0)
                          + 0x1_0000 * OperandAt(l2, d, n + l0 + l1);
            ReadInstruction([cmd] + d) ==
            if |d| < n + l0 + l1 + l2 then None
            else Some((Copy(offset, if length == 0 then 0x10000 else length), 1 + n + l0 + l1 + l2))
  {
    hide DecodeField, OperandAt, ReadInstruction;
    CommandBits(cmd);
    ReadFields(cmd, d);
    assert d[0..] == d;
    FourDigits(cmd % 0x10, d, 0);
    var n := cmd % 2 + cmd / 2 % 2 + cmd / 4 % 2 + cmd / 8 % 2;
    if n <= |d| {
      ThreeDigits(cmd / 0x10 % 8, d, n);
    }
  }

  lemma ReadFields(cmd: byte, d: seq<byte>)
    requires cmd >= 0x80
    ensures var o := DecodeField(cmd % 0x10, 4, d);
            if o.None? then ReadInstruction([cmd] + d).None?
            else
              var (offset, n) := o.value;
              var l := DecodeField(cmd / 0x10 % 8, 3, d[n..]);
              if l.None? then ReadInstruction([cmd] + d).None?
              else ReadInstruction([cmd] + d)
                   == Some((Copy(offset, if l.value.0 == 0 then 0x10000 else l.value.0), 1 + n + l.value.1))
  {
    hide DecodeField;
    var i, o := [cmd] + d, DecodeField(cmd % 0x10, 4, d);
    assert i[1..] == d;
    if o.Some? {
      assert i[1 + o.value.1..] == d[o.value.1..];
    }
  }

  lemma CommandBits(cmd: byte)
    ensures cmd % 0x10 % 2 == cmd % 2 && cmd % 0x10 / 2 % 2 == cmd / 2 % 2
    ensures cmd % 0x10 / 4 % 2 == cmd / 4 % 2 && cmd % 0x10 / 8 % 2 == cmd / 8 % 2
    ensures cmd / 0x10 % 8 % 2 == cmd / 0x10 % 2 && cmd / 0x10 % 8 / 2 % 2 == cmd / 0x20 % 2
    ensures cmd / 0x10 % 8 / 4 % 2 == cmd / 0x40 % 2
  {
    LowBits(cmd);
    LowBits(cmd / 0x10);
    assert cmd / 0x10 / 2 == cmd / 0x20 && cmd / 0x10 / 4 == cmd / 0x40;
  }

  /** The low bits of a number are those of its remainder. */
  lemma LowBits(x: nat)
    ensures x % 0x10 % 2 == x % 2 && x % 0x10 / 2 % 2 == x / 2 % 2
    ensures x % 0x10 / 4 % 2 == x / 4 % 2 && x % 0x10 / 8 % 2 == x / 8 % 2
    ensures x % 8 % 2 == x % 2 && x % 8 / 2 % 2 == x / 2 % 2 && x % 8 / 4 % 2 == x / 4 % 2
  {
    Halve16(x);
    LowBits8(x);
    LowBits8(x / 2);
    Quarters(x);
    Quarters(x % 0x10);
  }

  lemma Quarters(x: nat)
    ensures x / 2 / 2 == x / 4 && x / 2 / 4 == x / 8
  {
  }

  lemma LowBits8(x: nat)
    ensures x % 8 % 2 == x % 2 && x % 8 / 2 % 2 == x / 2 % 2 && x % 8 / 4 % 2 == x / 4 % 2
  {
    Halve8(x);
    Halve4(x / 2);
    Quarters(x);
    Quarters(x % 8);
  }

  lemma Halve16(x: nat)
    ensures x % 0x10 / 2 == x / 2 % 8 && x % 0x10 % 2 == x % 2
  {
  }

  lemma Halve8(x: nat)
    ensures x % 8 / 2 == x / 2 % 4 && x % 8 % 2 == x % 2
  {
  }

  lemma Halve4(x: nat)
    ensures x % 4 / 2 == x / 2 % 2 && x % 4 % 2 == x % 2
  {
  }

  /** An insert is its count and that many bytes; a count of zero and missing bytes are malformed. */
  lemma InsertOperands(cmd: byte, d: seq<byte>)
    requires cmd < 0x80
    ensures ReadInstruction([cmd] + d) ==
            if cmd == 0 || |d| < cmd then None else Some((Insert(d[..cmd]), 1 + cmd))
  {
    var i := [cmd] + d;
    if cmd <= |d| {
      assert i[1..1 + cmd] == d[..cmd];
    }
  }

  /** A copy that reaches beyond the base makes the whole stream mean nothing. */
  lemma OutOfRangeIsRefused(base: seq<byte>, offset: nat, length: nat, rest: seq<byte>)
    requires offset < 0x1_0000_0000 && 0 < length <= 0x10000 && |base| < offset + length
    ensures Interpret(base, EncodeCopy(offset, length) + rest).None?
  {
    hide ReadInstruction, EncodeCopy, Interpret;
    EncodedIsSomething(offset, length);
    CopyReadsBack(offset, length, rest);
    InterpretFirst(base, EncodeCopy(offset, length) + rest);
  }

  /** A size is read from the bytes up to the first one below 0x80, seven bits of each, low ones first. */
  lemma {:induction false} VarintExactly(d: seq<byte>, n: nat)
    requires n <= |d| && forall i :: 0 <= i < n ==> d[i] >= 0x80
    ensures n == |d| ==> DecodeVarint(d).None?
    ensures n < |d| && d[n] < 0x80 ==> DecodeVarint(d) == Some((SevenBits(d[..n + 1]), n + 1))
    decreases n
  {
    if 0 < n {
      VarintExactly(d[1..], n - 1);
      if n < |d| {
        assert d[1..][..n] == d[..n + 1][1..];
        SevenBitsFirst(d[..n + 1]);
      }
    } else if d != [] {
      assert d[..1] == [d[0]];
      SevenBitsFirst(d[..1]);
    }
  }

  /** The number whose digits to the base 0x80 are the low seven bits of the bytes, the last one highest. */
  function SevenBits(d: seq<byte>): nat {
    if d == [] then 0 else SevenBits(d[..|d| - 1]) + d[|d| - 1] % 0x80 * Pow2(7 * (|d| - 1))
  }

  lemma {:induction false} SevenBitsFirst(d: seq<byte>)
    requires d != []
    ensures SevenBits(d) == d[0] % 0x80 + 0x80 * SevenBits(d[1..])
    decreases |d|
  {
    var front, last := d[..|d| - 1], d[|d| - 1];
    if |d| == 1 {
      assert front == [] && d[1..] == [];
      assert Pow2(0) == 1;
    } else {
      SevenBitsFirst(front);
      assert front[1..] == d[1..][..|d| - 2] && d[1..][|d| - 2] == last;
      ScaleBySeven(7 * (|d| - 2));
      assert 7 * (|d| - 2) + 7 == 7 * (|d| - 1);
      Distribute(last % 0x80, Pow2(7 * (|d| - 2)));
    }
  }

  lemma ScaleBySeven(k: nat)
    ensures Pow2(k + 7) == 0x80 * Pow2(k)
  {
    assert Pow2(k + 2) == 4 * Pow2(k);
    assert Pow2(k + 4) == 0x10 * Pow2(k);
    assert Pow2(k + 6) == 0x40 * Pow2(k);
  }

  lemma Distribute(digit: nat, scale: nat)
    ensures digit * (0x80 * scale) == 0x80 * (digit * scale)
  {
  }

  /** A delta made for a base of another size means nothing. */
  lemma OtherBaseIsRefused(base: seq<byte>, size: nat, rest: seq<byte>)
    requires size != |base|
    ensures ApplySpec(base, EncodeVarint(size) + rest).None?
  {
    VarintRoundTrip(size, rest);
  }

  // -------------------------------------------------- writing instructions

  /** The copy instruction as the encoder lays it out; 0x10000 has no size bytes. */
  function EncodeCopy(offset: nat, length: nat): seq<byte>
    requires offset < 0x1_0000_0000 && 0 < length <= 0x10000
  {
    var o := EncodeField(offset, 4);
    var l := EncodeField(length % 0x10000, 3);
    FlagsFit(offset, 4);
    FlagsFit(length % 0x10000, 3);
    assert Pow2(4) == 16 && Pow2(3) == 8;
    [0x80 + o.flags + 0x10 * l.flags] + o.bytes + l.bytes
  }

  lemma CopyFits(offset: nat, length: nat)
    requires offset < 0x1_0000_0000 && 0 < length <= 0x10000
    ensures Fits(offset, 4) && Fits(length % 0x10000, 3)
  {
    FitsByDigits(offset);
    var l := length % 0x10000;
    assert l / 0x100 < 0x100;
    assert Fits(l / 0x100, 2) by { assert Fits(l / 0x100 / 0x100, 1); }
  }

  lemma FitsByDigits(v: nat)
    requires v < 0x1_0000_0000
    ensures Fits(v, 4)
  {
    var v1 := v / 0x100;
    var v2 := v1 / 0x100;
    var v3 := v2 / 0x100;
    assert v3 < 0x100;
    assert Fits(v3, 1);
    assert Fits(v2, 2);
    assert Fits(v1, 3);
  }

  /** A command byte followed by the two operand fields it announces. */
  lemma ReadCopy(o: Field, l: Field, offset: nat, length: nat, rest: seq<byte>)
    requires o.flags < 0x10 && l.flags < 8
    requires DecodeField(o.flags, 4, o.bytes + (l.bytes + rest)) == Some((offset, |o.bytes|))
    requires DecodeField(l.flags, 3, l.bytes + rest) == Some((length, |l.bytes|))
    ensures ReadInstruction([0x80 + o.flags + 0x10 * l.flags] + o.bytes + l.bytes + rest)
         == Some((Copy(offset, if length == 0 then 0x10000 else length), 1 + |o.bytes| + |l.bytes|))
  {
    hide DecodeField;
    var command := 0x80 + o.flags + 0x10 * l.flags;
    var d := [command] + o.bytes + l.bytes + rest;
    CommandFlags(o.flags, l.flags);
    OperandsOf(command, o.bytes, l.bytes, rest);
    assert d[0] == command;
  }

  lemma CommandFlags(offsetFlags: nat, lengthFlags: nat)
    requires offsetFlags < 0x10 && lengthFlags < 8
    ensures var command := 0x80 + offsetFlags + 0x10 * lengthFlags;
            command % 0x10 == offsetFlags && command / 0x10 % 8 == lengthFlags && command < 0x100
  {
  }

  lemma OperandsOf(command: byte, a: seq<byte>, b: seq<byte>, rest: seq<byte>)
    ensures var d := [command] + a + b + rest;
            d[1..] == a + (b + rest) && d[1 + |a|..] == b + rest
  {
  }

  lemma CopyReadsBack(offset: nat, length: nat, rest: seq<byte>)
    requires offset < 0x1_0000_0000 && 0 < length <= 0x10000
    ensures ReadInstruction(EncodeCopy(offset, length) + rest)
         == Some((Copy(offset, length), |EncodeCopy(offset, length)|))
  {
    hide ReadInstruction, EncodeField, DecodeField;
    var o := EncodeField(offset, 4);
    var l := EncodeField(length % 0x10000, 3);
    CopyFits(offset, length);
    FlagsFit(offset, 4);
    FlagsFit(length % 0x10000, 3);
    FieldRoundTrip(offset, 4, l.bytes + rest);
    FieldRoundTrip(length % 0x10000, 3, rest);
    assert Pow2(4) == 16 && Pow2(3) == 8;
    ReadCopy(o, l, offset, length % 0x10000, rest);
  }

  // ---------------------------------------------------- composing streams

  /** Reading an instruction does not look past its own bytes. */
  lemma ReadIsLocal(d: seq<byte>, rest: seq<byte>)
    requires d != [] && ReadInstruction(d).Some?
    ensures ReadInstruction(d + rest) == ReadInstruction(d)
  {
    hide DecodeField;
    var e := d + rest;
    var cmd := d[0];
    if cmd >= 0x80 {
      assert e[1..] == d[1..] + rest;
      FieldIsLocal(cmd % 0x10, 4, d[1..], rest);
      var used := DecodeField(cmd % 0x10, 4, d[1..]).value.1;
      assert e[1 + used..] == d[1 + used..] + rest;
      FieldIsLocal(cmd / 0x10 % 8, 3, d[1 + used..], rest);
    } else {
      assert e[1..1 + cmd] == d[1..1 + cmd];
    }
  }

  lemma {:induction false} FieldIsLocal(flags: nat, width: nat, d: seq<byte>, rest: seq<byte>)
    requires DecodeField(flags, width, d).Some?
    ensures DecodeField(flags, width, d + rest) == DecodeField(flags, width, d)
  {
    if width == 0 {
    } else if flags % 2 == 0 {
      FieldIsLocal(flags / 2, width - 1, d, rest);
    } else {
      assert (d + rest)[1..] == d[1..] + rest;
      FieldIsLocal(flags / 2, width - 1, d[1..], rest);
    }
  }

  /** One instruction in front of a stream puts its contribution in front of the result. */
  lemma InterpretFirst(base: seq<byte>, d: seq<byte>)
    requires d != [] && ReadInstruction(d).Some?
    ensures var (op, used) := ReadInstruction(d).value;
            var piece, rest := Contribution(base, op), Interpret(base, d[used..]);
            Interpret(base, d) == if piece.Some? && rest.Some? then Some(piece.value + rest.value) else None
  {
  }

  /** A complete stream followed by another one means the two results in a row. */
  lemma {:induction false} InterpretConcat(base: seq<byte>, d: seq<byte>, e: seq<byte>)
    requires Interpret(base, d).Some?
    ensures Interpret(base, d + e) == if Interpret(base, e).Some?
              then Some(Interpret(base, d).value + Interpret(base, e).value) else None
    decreases |d|
  {
    if d == [] {
      assert d + e == e;
      if Interpret(base, e).Some? {
        assert [] + Interpret(base, e).value == Interpret(base, e).value;
      }
    } else {
      var used := ReadInstruction(d).value.1;
      InterpretConcat(base, d[used..], e);
      PrependInstruction(base, d, e);
    }
  }

  /** The step of `InterpretConcat`: the first instruction of `d` is also that of `d + e`. */
  lemma PrependInstruction(base: seq<byte>, d: seq<byte>, e: seq<byte>)
    requires d != [] && ReadInstruction(d).Some? && Interpret(base, d).Some?
    requires var tail := d[ReadInstruction(d).value.1..];
             Interpret(base, tail + e) == if Interpret(base, e).Some?
               then Some(Interpret(base, tail).value + Interpret(base, e).value) else None
    ensures Interpret(base, d + e) == if Interpret(base, e).Some?
              then Some(Interpret(base, d).value + Interpret(base, e).value) else None
  {
    hide ReadInstruction, Interpret;
    var (op, used) := ReadInstruction(d).value;
    ReadIsLocal(d, e);
    assert (d + e)[used..] == d[used..] + e;
    InterpretFirst(base, d);
    InterpretFirst(base, d + e);
    if Interpret(base, e).Some? {
      var x, y := Interpret(base, d[used..]).value, Interpret(base, e).value;
      assert Contribution(base, op).value + x + y == Contribution(base, op).value + (x + y);
    }
  }

  lemma InterpretCopy(base: seq<byte>, offset: nat, length: nat)
    requires offset < 0x1_0000_0000 && 0 < length <= 0x10000 && offset + length <= |base|
    ensures Interpret(base, EncodeCopy(offset, length)) == Some(base[offset..offset + length])
  {
    hide ReadInstruction, EncodeCopy, Interpret;
    var d := EncodeCopy(offset, length);
    CopyReadsBack(offset, length, []);
    assert d + [] == d;
    EncodedIsSomething(offset, length);
    InterpretFirst(base, d);
    InterpretNothing(base);
    assert d[|d|..] == [];
    assert base[offset..offset + length] + [] == base[offset..offset + length];
  }

  lemma EncodedIsSomething(offset: nat, length: nat)
    requires offset < 0x1_0000_0000 && 0 < length <= 0x10000
    ensures EncodeCopy(offset, length) != []
  {
  }

  lemma InterpretNothing(base: seq<byte>)
    ensures Interpret(base, []) == Some([])
  {
  }

  lemma InterpretInsert(base: seq<byte>, data: seq<byte>)
    requires 0 < |data| < 0x80
    ensures Interpret(base, [|data|] + data) == Some(data)
  {
    var d := [|data|] + data;
    assert d[1..1 + |data|] == data;
    assert d[1 + |data|..] == [];
    assert Interpret(base, d[1 + |data|..]) == Some([]);
    assert data + [] == data;
  }
}
