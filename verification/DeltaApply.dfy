/**
 The delta decoder, `delta-apply.c`: pointer-walking loops over the delta that fill a
 result buffer in place, each proved equal to the reference meaning in `DeltaFormat`.
 */
module DeltaApply {
  import opened Common
  import opened DeltaFormat

  /** `hdr_sz`: reads a base-128 number from `delta[at..]`; `scale` is 1 << shift. */
  method HdrSz(delta: seq<byte>, at: nat) returns (ok: bool, size: nat, next: nat)
    requires at <= |delta|
    ensures ok == DecodeVarint(delta[at..]).Some?
    ensures ok ==> DecodeVarint(delta[at..]) == Some((size, next - at)) && at <= next <= |delta|
  {
    hide DecodeVarint;
    EndOfHeader();
    next, size := at, 0;
    var scale: nat := 1;
    ok := true;
    while true
      invariant at <= next <= |delta|
      invariant DecodeVarint(delta[at..]) == Shifted(DecodeVarint(delta[next..]), size, scale, next - at)
      decreases |delta| - next
    {
      if next == |delta| {
        return false, 0, at;
      }
      var c: nat := delta[next];
      assert delta[next..][1..] == delta[next + 1..];
      HeaderStep(delta, next, size, scale, next - at);
      next, size, scale := next + 1, size + c % 0x80 * scale, scale * 0x80;
      if c < 0x80 {
        return;
      }
    }
  }

  /** The number still to be read, seen from where reading started. */
  ghost function Shifted(rest: Option<(nat, nat)>, size: nat, scale: nat, used: nat): Option<(nat, nat)> {
    match rest
    case None => None
    case Some((v, u)) => Some((size + scale * v, used + u))
  }

  lemma EndOfHeader()
    ensures DecodeVarint([]).None?
  {
  }

  lemma HeaderStep(delta: seq<byte>, at: nat, size: nat, scale: nat, used: nat)
    requires at < |delta|
    ensures var c: nat := delta[at];
            Shifted(DecodeVarint(delta[at..]), size, scale, used) ==
            if c < 0x80 then Some((size + c % 0x80 * scale, used + 1))
            else Shifted(DecodeVarint(delta[at + 1..]), size + c % 0x80 * scale, scale * 0x80, used + 1)
  {
    var c: nat, tail := delta[at], DecodeVarint(delta[at + 1..]);
    FirstDigit(delta, at);
    hide DecodeVarint;
    ScaleStep(scale, c % 0x80, if tail.Some? then tail.value.0 else 0);
  }

  lemma FirstDigit(delta: seq<byte>, at: nat)
    requires at < |delta|
    ensures var c: nat, tail := delta[at], DecodeVarint(delta[at + 1..]);
            DecodeVarint(delta[at..]) ==
            if c < 0x80 then Some((c, 1))
            else if tail.None? then None
            else Some((c % 0x80 + 0x80 * tail.value.0, tail.value.1 + 1))
  {
    assert delta[at..][1..] == delta[at + 1..];
  }

  lemma ScaleStep(scale: nat, digit: nat, v: nat)
    ensures scale * (digit + 0x80 * v) == digit * scale + scale * 0x80 * v
    ensures scale * digit == digit * scale
  {
  }

  /** `git__delta_read_header`. */
  method ReadHeader(delta: seq<byte>) returns (ok: bool, baseSize: nat, resultSize: nat)
    ensures ok <==> DecodeVarint(delta).Some? && DecodeVarint(delta[DecodeVarint(delta).value.1..]).Some?
    ensures ok ==> baseSize == DecodeVarint(delta).value.0
    ensures ok ==> resultSize == DecodeVarint(delta[DecodeVarint(delta).value.1..]).value.0
  {
    assert delta[0..] == delta;
    var next;
    ok, baseSize, next := HdrSz(delta, 0);
    resultSize := 0;
    if ok {
      ok, resultSize, next := HdrSz(delta, next);
    }
  }

  /** One optional operand byte: present exactly when its flag is set. */
  method Operand(flag: bool, delta: seq<byte>, at: nat) returns (ok: bool, value: byte, next: nat)
    requires at <= |delta|
    ensures ok == (!flag || at < |delta|)
    ensures ok ==> next == (if flag then at + 1 else at) && value == (if flag then delta[at] else 0)
  {
    if !flag {
      return true, 0, at;
    }
    if at == |delta| {
      return false, 0, at;
    }
    return true, delta[at], at + 1;
  }

  /** What `DecodeField` yields from position `at`, in absolute positions. */
  ghost function FieldAt(flags: nat, width: nat, delta: seq<byte>, at: nat): (r: Option<(nat, nat)>)
    requires at <= |delta|
    ensures r.Some? ==> at <= r.value.1 <= |delta|
  {
    match DecodeField(flags, width, delta[at..])
    case None => None
    case Some((v, used)) => Some((v, at + used))
  }

  lemma FieldAtStep(flags: nat, width: nat, delta: seq<byte>, at: nat)
    requires at <= |delta|
    ensures FieldAt(flags, 0, delta, at) == Some((0, at))
    ensures width > 0 && flags % 2 == 0 ==>
              FieldAt(flags, width, delta, at) ==
              match FieldAt(flags / 2, width - 1, delta, at)
              case None => None
              case Some((v, next)) => Some((0x100 * v, next))
    ensures width > 0 && flags % 2 == 1 && at == |delta| ==> FieldAt(flags, width, delta, at) == None
    ensures width > 0 && flags % 2 == 1 && at < |delta| ==>
              FieldAt(flags, width, delta, at) ==
              match FieldAt(flags / 2, width - 1, delta, at + 1)
              case None => None
              case Some((v, next)) => Some((delta[at] + 0x100 * v, next))
  {
  }

  /** The three operand bytes of a copy length, flags 0x10, 0x20 and 0x40. */
  method LengthOperands(flags: nat, delta: seq<byte>, at: nat) returns (ok: bool, len: nat, next: nat)
    requires flags < 8 && at <= |delta|
    ensures ok == FieldAt(flags, 3, delta, at).Some?
    ensures ok ==> FieldAt(flags, 3, delta, at) == Some((len, next))
  {
    hide FieldAt;
    FieldAtStep(flags, 3, delta, at);
    len, next := 0, at;
    var b0: nat, b1: nat, b2: nat;
    ok, b0, next := Operand(flags % 2 == 1, delta, next);
    if !ok { return; }
    FieldAtStep(flags / 2, 2, delta, next);
    ok, b1, next := Operand(flags / 2 % 2 == 1, delta, next);
    if !ok { return; }
    FieldAtStep(flags / 2 / 2, 1, delta, next);
    ok, b2, next := Operand(flags / 4 % 2 == 1, delta, next);
    if !ok { return; }
    FieldAtStep(flags / 2 / 2 / 2, 0, delta, next);
    len := b0 + b1 * 0x100 + b2 * 0x1_0000;
  }

  /** The four operand bytes of a copy offset, flags 0x01, 0x02, 0x04 and 0x08. */
  method OffsetOperands(flags: nat, delta: seq<byte>, at: nat) returns (ok: bool, off: nat, next: nat)
    requires flags < 0x10 && at <= |delta|
    ensures ok == FieldAt(flags, 4, delta, at).Some?
    ensures ok ==> FieldAt(flags, 4, delta, at) == Some((off, next))
  {
    hide FieldAt;
    FieldAtStep(flags, 4, delta, at);
    off, next := 0, at;
    var b0: nat, upper: nat;
    ok, b0, next := Operand(flags % 2 == 1, delta, next);
    if !ok { return; }
    ok, upper, next := LengthOperands(flags / 2, delta, next);
    if !ok { return; }
    off := b0 + 0x100 * upper;
  }

  /** What the decoder has produced so far, followed by what the rest of the stream means. */
  ghost predicate Progress(base: seq<byte>, delta: seq<byte>, start: nat, at: nat, produced: seq<byte>)
    requires start <= at <= |delta|
  {
    Interpret(base, delta[start..]) ==
    match Interpret(base, delta[at..])
    case None => None
    case Some(rest) => Some(produced + rest)
  }

  lemma ProgressStep(base: seq<byte>, delta: seq<byte>, start: nat, at: nat, next: nat,
                     op: Instruction, produced: seq<byte>)
    requires start <= at < next <= |delta| && Progress(base, delta, start, at, produced)
    requires ReadInstruction(delta[at..]) == Some((op, next - at))
    ensures Contribution(base, op).None? ==> Interpret(base, delta[start..]).None?
    ensures Contribution(base, op).Some? ==>
              Progress(base, delta, start, next, produced + Contribution(base, op).value)
  {
    hide ReadInstruction, Interpret, Contribution;
    assert delta[at..][next - at..] == delta[next..];
    InterpretFirst(base, delta[at..]);
    if Contribution(base, op).Some? && Interpret(base, delta[next..]).Some? {
      var piece, rest := Contribution(base, op).value, Interpret(base, delta[next..]).value;
      assert produced + (piece + rest) == produced + piece + rest;
    }
  }

  /** The result is a given string only if what was produced so far is a prefix of it. */
  lemma ProgressBounds(base: seq<byte>, delta: seq<byte>, start: nat, at: nat, produced: seq<byte>)
    requires start <= at <= |delta| && Progress(base, delta, start, at, produced)
    ensures Interpret(base, delta[start..]).Some? ==> |produced| <= |Interpret(base, delta[start..]).value|
    ensures at == |delta| ==> Interpret(base, delta[start..]) == Some(produced)
  {
    hide Interpret;
    if at == |delta| {
      InterpretNothing(base);
      assert delta[at..] == [] && produced + [] == produced;
    }
  }

  /** Decodes the instruction at `delta[at]`: the copied range or the literal bytes. */
  method ReadOp(delta: seq<byte>, at: nat) returns (ok: bool, op: Instruction, next: nat)
    requires at < |delta|
    ensures ok == ReadInstruction(delta[at..]).Some?
    ensures ok ==> ReadInstruction(delta[at..]) == Some((op, next - at)) && at < next <= |delta|
  {
    hide DecodeField;
    var cmd := delta[at];
    op, next := Insert([]), at;
    ghost var d := delta[at..];
    assert d[1..] == delta[at + 1..];
    if cmd >= 0x80 {
      var off, len;
      ok, off, next := OffsetOperands(cmd % 0x10, delta, at + 1);
      if !ok { return; }
      assert d[next - at..] == delta[next..];
      ok, len, next := LengthOperands(cmd / 0x10 % 8, delta, next);
      if !ok { return; }
      if len == 0 {
        len := 0x10000;
      }
      op := Copy(off, len);
    } else if cmd != 0 {
      if |delta| - (at + 1) < cmd {
        return false, op, at;
      }
      assert d[1..1 + cmd] == delta[at + 1..at + 1 + cmd];
      ok, op, next := true, Insert(delta[at + 1..at + 1 + cmd]), at + 1 + cmd;
    } else {
      ok := false;
    }
  }

  /** Copies `piece` to position `dp` of the result. */
  method CopyInto(res: array<byte>, dp: nat, piece: seq<byte>)
    requires dp + |piece| <= res.Length
    modifies res
    ensures res[..dp + |piece|] == old(res[..dp]) + piece
    ensures res[dp + |piece|..] == old(res[dp + |piece|..])
  {
    forall i | 0 <= i < |piece| {
      res[dp + i] := piece[i];
    }
  }

  /**
   `git__delta_apply`. A null result is the error return: a header is incomplete, the first
   one is not the size of the base, or the instructions do not yield exactly the number of
   bytes that the second one announces. Otherwise the buffer holds these bytes and a NUL.
   */
  method Apply(base: seq<byte>, delta: seq<byte>) returns (res: array?<byte>)
    ensures res == null <==> ApplySpec(base, delta).None?
    ensures res != null ==> res[..] == ApplySpec(base, delta).value + [0]
    ensures res != null <==>
              && DecodeVarint(delta).Some? && DecodeVarint(delta).value.0 == |base|
              && var rest := delta[DecodeVarint(delta).value.1..];
                 DecodeVarint(rest).Some?
                 && var result := Interpret(base, rest[DecodeVarint(rest).value.1..]);
                    result.Some? && |result.value| == DecodeVarint(rest).value.0
    ensures res != null ==>
              var rest := delta[DecodeVarint(delta).value.1..];
              res[..] == Interpret(base, rest[DecodeVarint(rest).value.1..]).value + [0]
  {
    hide Interpret, ReadInstruction, DecodeVarint;
    assert delta[0..] == delta;
    var ok, baseSize, next := HdrSz(delta, 0);
    if !ok || baseSize != |base| {
      return null;
    }
    var resSz, at;
    ok, resSz, at := HdrSz(delta, next);
    if !ok {
      return null;
    }
    res := ApplyOps(base, delta, at, resSz);
  }

  /** The command loop of `git__delta_apply`. */
  method ApplyOps(base: seq<byte>, delta: seq<byte>, start: nat, resSz: nat) returns (res: array?<byte>)
    requires start <= |delta|
    ensures res != null <==> Interpret(base, delta[start..]).Some? && |Interpret(base, delta[start..]).value| == resSz
    ensures res != null ==> res[..] == Interpret(base, delta[start..]).value + [0]
  {
    hide Interpret, ReadInstruction;
    var buffer := new byte[resSz + 1];
    buffer[resSz] := 0;
    var at, dp := start, 0;
    ProgressStart(base, delta, start);
    while at < |delta|
      invariant start <= at <= |delta|
      invariant 0 <= dp <= resSz && buffer[resSz] == 0
      invariant Progress(base, delta, start, at, buffer[..dp])
      decreases |delta| - at
    {
      var ok, op, next := ReadOp(delta, at);
      if !ok {
        MalformedStream(base, delta, at);
        return null;
      }
      ProgressStep(base, delta, start, at, next, op, buffer[..dp]);
      if op.Copy? && |base| < op.offset + op.length {
        return null;
      }
      var piece := if op.Copy? then base[op.offset..op.offset + op.length] else op.data;
      if resSz - dp < |piece| {
        ProgressBounds(base, delta, start, next, buffer[..dp] + piece);
        return null;
      }
      ghost var tail := buffer[dp + |piece|..];
      CopyInto(buffer, dp, piece);
      assert buffer[resSz] == tail[resSz - dp - |piece|];
      at, dp := next, dp + |piece|;
    }
    ProgressBounds(base, delta, start, at, buffer[..dp]);
    if dp != resSz {
      return null;
    }
    assert buffer[..] == buffer[..dp] + [0];
    res := buffer;
  }

  lemma ProgressStart(base: seq<byte>, delta: seq<byte>, start: nat)
    requires start <= |delta|
    ensures Progress(base, delta, start, start, [])
  {
    if Interpret(base, delta[start..]).Some? {
      assert [] + Interpret(base, delta[start..]).value == Interpret(base, delta[start..]).value;
    }
  }

  lemma MalformedStream(base: seq<byte>, delta: seq<byte>, at: nat)
    requires at < |delta| && ReadInstruction(delta[at..]).None?
    ensures Interpret(base, delta[at..]).None?
  {
  }
}
