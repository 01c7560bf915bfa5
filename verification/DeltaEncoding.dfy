/**
 What the encoder's output buffer means at every moment: finished instructions that
 decode to a prefix of the target, then possibly a pending literal run whose count
 slot is not filled in yet. One lemma for each way the encoder changes the buffer.
 */
module DeltaEncoding {
  import opened Common
  import opened DeltaFormat

  function Header(base: seq<byte>, target: seq<byte>): seq<byte> {
    EncodeVarint(|base|) + EncodeVarint(|target|)
  }

  /** `o` is complete but for `ins` pending literals and stands for `target[..pos]`. */
  ghost predicate Encoded(base: seq<byte>, target: seq<byte>, o: seq<byte>, pos: nat, ins: nat) {
    var hdr := |Header(base, target)|;
    && hdr <= |o| && o[..hdr] == Header(base, target)
    && ins <= pos <= |target|
    && if ins == 0 then
         Interpret(base, o[hdr..]) == Some(target[..pos])
       else
         && hdr + 1 + ins <= |o|
         && Interpret(base, o[hdr..|o| - ins - 1]) == Some(target[..pos - ins])
         && o[|o| - ins..] == target[pos - ins..pos]
  }

  /** `base[moff..]` and `target[pos..]` agree on `msize` bytes. */
  ghost predicate Match(base: seq<byte>, target: seq<byte>, moff: nat, pos: nat, msize: nat) {
    && moff + msize <= |base| && pos + msize <= |target|
    && base[moff..moff + msize] == target[pos..pos + msize]
  }

  lemma EncodedBounds(base: seq<byte>, target: seq<byte>, o: seq<byte>, pos: nat, ins: nat)
    requires Encoded(base, target, o, pos, ins)
    ensures |Header(base, target)| + (if ins == 0 then 0 else ins + 1) <= |o|
    ensures ins <= pos <= |target|
  {
  }

  lemma StartEncoded(base: seq<byte>, target: seq<byte>)
    ensures Encoded(base, target, Header(base, target), 0, 0)
  {
  }

  /** A literal that opens a run: a count slot with any content, then the byte. */
  lemma OpenRun(base: seq<byte>, target: seq<byte>, o: seq<byte>, pos: nat, slot: byte)
    requires Encoded(base, target, o, pos, 0) && pos < |target|
    ensures Encoded(base, target, o + [slot] + [target[pos]], pos + 1, 1)
  {
    hide Interpret, Header;
    var hdr := |Header(base, target)|;
    var o' := o + [slot] + [target[pos]];
    assert o'[..hdr] == o[..hdr];
    assert o'[hdr..|o'| - 2] == o[hdr..];
    assert o'[|o'| - 1..] == target[pos..pos + 1];
  }

  lemma ExtendRun(base: seq<byte>, target: seq<byte>, o: seq<byte>, pos: nat, ins: nat)
    requires Encoded(base, target, o, pos, ins) && 0 < ins && pos < |target|
    ensures Encoded(base, target, o + [target[pos]], pos + 1, ins + 1)
  {
    hide Interpret, Header;
    var hdr := |Header(base, target)|;
    var o' := o + [target[pos]];
    assert o'[..hdr] == o[..hdr];
    assert o'[hdr..|o'| - (ins + 1) - 1] == o[hdr..|o| - ins - 1];
    assert o'[|o'| - (ins + 1)..] == o[|o| - ins..] + [target[pos]];
    assert target[pos - ins..pos] + [target[pos]] == target[pos - ins..pos + 1];
  }

  /** Filling in the count slot turns the run into an insert instruction. */
  lemma CloseRun(base: seq<byte>, target: seq<byte>, o: seq<byte>, pos: nat, ins: nat)
    requires Encoded(base, target, o, pos, ins) && 0 < ins < 0x80
    ensures Encoded(base, target, o[|o| - ins - 1 := ins], pos, 0)
  {
    hide Header, Interpret;
    var hdr := |Header(base, target)|;
    var o' := o[|o| - ins - 1 := ins];
    var lit := target[pos - ins..pos];
    var done := o[hdr..|o| - ins - 1];
    InterpretInsert(base, lit);
    InterpretConcat(base, done, [ins] + lit);
    SlotFilled(o, hdr, ins, lit);
    assert target[..pos - ins] + lit == target[..pos];
  }

  lemma SlotFilled(o: seq<byte>, hdr: nat, ins: byte, lit: seq<byte>)
    requires hdr + 1 + ins <= |o| && |lit| == ins && o[|o| - ins..] == lit
    ensures var o' := o[|o| - ins - 1 := ins];
            o'[..hdr] == o[..hdr] && o'[hdr..] == o[hdr..|o| - ins - 1] + ([ins] + lit)
  {
    var o', cut := o[|o| - ins - 1 := ins], |o| - ins - 1;
    assert o'[hdr..] == o'[hdr..cut] + [o'[cut]] + o'[cut + 1..];
    assert o'[cut + 1..] == o[cut + 1..];
  }

  /** Dropping the last pending literal from the buffer. */
  lemma UnwriteLiteral(base: seq<byte>, target: seq<byte>, o: seq<byte>, pos: nat, ins: nat)
    requires Encoded(base, target, o, pos, ins) && 1 < ins
    ensures Encoded(base, target, o[..|o| - 1], pos - 1, ins - 1)
  {
    hide Interpret, Header;
    var hdr := |Header(base, target)|;
    var o' := o[..|o| - 1];
    assert o'[..hdr] == o[..hdr];
    assert o'[hdr..|o'| - (ins - 1) - 1] == o[hdr..|o| - ins - 1];
    assert o'[|o'| - (ins - 1)..] == o[|o| - ins..][..ins - 1];
    assert target[pos - ins..pos][..ins - 1] == target[pos - ins..pos - 1];
  }

  /** Dropping the only pending literal together with its count slot. */
  lemma UnwriteRun(base: seq<byte>, target: seq<byte>, o: seq<byte>, pos: nat)
    requires Encoded(base, target, o, pos, 1)
    ensures |o| >= 2 && Encoded(base, target, o[..|o| - 2], pos - 1, 0)
  {
  }

  lemma AppendCopy(base: seq<byte>, target: seq<byte>, o: seq<byte>, pos: nat, moff: nat, msize: nat)
    requires Encoded(base, target, o, pos, 0) && Match(base, target, moff, pos, msize)
    requires moff < 0x1_0000_0000 && 0 < msize <= 0x10000
    ensures Encoded(base, target, o + EncodeCopy(moff, msize), pos + msize, 0)
  {
    hide Header, EncodeCopy, Interpret;
    var hdr := |Header(base, target)|;
    var op := EncodeCopy(moff, msize);
    InterpretCopy(base, moff, msize);
    InterpretConcat(base, o[hdr..], op);
    assert (o + op)[..hdr] == o[..hdr];
    assert (o + op)[hdr..] == o[hdr..] + op;
    assert target[..pos] + target[pos..pos + msize] == target[..pos + msize];
  }

  /** A finished buffer decodes to the target. */
  lemma FinishedDecodes(base: seq<byte>, target: seq<byte>, o: seq<byte>)
    requires Encoded(base, target, o, |target|, 0)
    ensures ApplySpec(base, o) == Some(target)
  {
    hide Interpret, EncodeVarint, DecodeVarint;
    var b, t := EncodeVarint(|base|), EncodeVarint(|target|);
    var ops := o[|Header(base, target)|..];
    assert o == b + (t + ops);
    VarintRoundTrip(|base|, t + ops);
    VarintRoundTrip(|target|, ops);
    assert o[|b|..] == t + ops;
    assert o[|b| + |t|..] == ops;
    assert target[..|target|] == target;
  }

  /**
   The buffer after the last `k` of `ins` pending literals are dropped and the rest of the
   run is closed; with no literal left the count slot goes too.
   */
  function Shortened(o: seq<byte>, ins: nat, k: nat): seq<byte>
    requires k <= ins < 0x80 && (ins > 0 ==> ins < |o|)
  {
    if ins == 0 then o
    else if k == ins then o[..|o| - ins - 1]
    else o[..|o| - k][|o| - ins - 1 := ins - k]
  }

  // -------------------------------------------------------------- matches

  /** The length of the common prefix of `base[p..]` and `target[q..]`. */
  function MatchLength(base: seq<byte>, p: nat, target: seq<byte>, q: nat): (n: nat)
    requires p <= |base| && q <= |target|
    ensures p + n <= |base| && q + n <= |target|
    decreases |base| - p
  {
    if p < |base| && q < |target| && base[p] == target[q] then 1 + MatchLength(base, p + 1, target, q + 1) else 0
  }

  lemma {:induction false} MatchLengthMatches(base: seq<byte>, p: nat, target: seq<byte>, q: nat)
    requires p <= |base| && q <= |target|
    ensures Match(base, target, p, q, MatchLength(base, p, target, q))
    decreases |base| - p
  {
    var n := MatchLength(base, p, target, q);
    if n > 0 {
      MatchLengthMatches(base, p + 1, target, q + 1);
      assert base[p..p + n] == [base[p]] + base[p + 1..p + n];
      assert target[q..q + n] == [target[q]] + target[q + 1..q + n];
    }
  }

  /** No match is longer than that. */
  lemma {:induction false} MatchIsNoLonger(base: seq<byte>, q: nat, target: seq<byte>, p: nat, n: nat)
    requires Match(base, target, q, p, n)
    ensures n <= MatchLength(base, q, target, p)
    decreases n
  {
    if n > 0 {
      assert base[q] == base[q..q + n][0] == target[p..p + n][0];
      assert base[q + 1..q + n] == base[q..q + n][1..];
      assert target[p + 1..p + n] == target[p..p + n][1..];
      MatchIsNoLonger(base, q + 1, target, p + 1, n - 1);
    }
  }

  /** How many of the last `limit` bytes of `base[..p]` and `target[..q]` agree, counted from the end. */
  function CommonSuffix(base: seq<byte>, p: nat, target: seq<byte>, q: nat, limit: nat): (k: nat)
    requires p <= |base| && q <= |target|
    ensures k <= limit && k <= p && k <= q
    decreases limit
  {
    if limit > 0 && p > 0 && q > 0 && base[p - 1] == target[q - 1]
    then 1 + CommonSuffix(base, p - 1, target, q - 1, limit - 1) else 0
  }

  lemma CommonSuffixStep(base: seq<byte>, p: nat, target: seq<byte>, q: nat, limit: nat)
    requires 0 < p <= |base| && 0 < q <= |target| && 0 < limit && base[p - 1] == target[q - 1]
    ensures CommonSuffix(base, p, target, q, limit) == 1 + CommonSuffix(base, p - 1, target, q - 1, limit - 1)
  {
  }

  lemma CommonSuffixEnds(base: seq<byte>, p: nat, target: seq<byte>, q: nat, limit: nat)
    requires p <= |base| && q <= |target|
    requires limit == 0 || p == 0 || q == 0 || base[p - 1] != target[q - 1]
    ensures CommonSuffix(base, p, target, q, limit) == 0
  {
  }

  lemma OneByteOn(s: seq<byte>, from: nat, to: nat)
    requires from <= to < |s|
    ensures s[from..to + 1] == s[from..to] + [s[to]]
  {
  }

  /** These bytes agree, and one more would not, be it different, missing or beyond the limit. */
  lemma {:induction false} CommonSuffixIsLongest(base: seq<byte>, p: nat, target: seq<byte>, q: nat, limit: nat)
    requires p <= |base| && q <= |target|
    ensures var k := CommonSuffix(base, p, target, q, limit);
            && base[p - k..p] == target[q - k..q]
            && (k == limit || k == p || k == q || base[p - k - 1] != target[q - k - 1])
    decreases limit
  {
    hide CommonSuffix;
    if limit > 0 && p > 0 && q > 0 && base[p - 1] == target[q - 1] {
      CommonSuffixStep(base, p, target, q, limit);
      CommonSuffixIsLongest(base, p - 1, target, q - 1, limit - 1);
      var k := CommonSuffix(base, p - 1, target, q - 1, limit - 1);
      OneByteOn(base, p - 1 - k, p - 1);
      OneByteOn(target, q - 1 - k, q - 1);
    } else {
      CommonSuffixEnds(base, p, target, q, limit);
    }
  }

  /** One byte back on both sides. */
  lemma MatchBackwards(base: seq<byte>, target: seq<byte>, moff: nat, pos: nat, msize: nat)
    requires Match(base, target, moff, pos, msize) && 0 < moff && 0 < pos && base[moff - 1] == target[pos - 1]
    ensures Match(base, target, moff - 1, pos - 1, msize + 1)
  {
  }

  /** The front of a match, and what is left behind it. */
  lemma MatchSplit(base: seq<byte>, target: seq<byte>, moff: nat, pos: nat, msize: nat, front: nat)
    requires Match(base, target, moff, pos, msize) && front <= msize
    ensures Match(base, target, moff, pos, front)
    ensures Match(base, target, moff + front, pos + front, msize - front)
  {
    assert base[moff..moff + front] == base[moff..moff + msize][..front];
    assert target[pos..pos + front] == target[pos..pos + msize][..front];
    assert base[moff + front..moff + msize] == base[moff..moff + msize][front..];
    assert target[pos + front..pos + msize] == target[pos..pos + msize][front..];
  }
}
