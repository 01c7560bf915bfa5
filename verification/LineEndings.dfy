/**
 Line-ending conversion (`buf_text.c`): loops that copy whole chunks up to the next carriage
 return or line feed, against byte-by-byte definitions and the laws relating them.
 */
module LineEndings {
  import opened Common

  const LF := 10
  const CR := 13

  // ------------------------------------------------------- byte by byte

  /** A carriage return is dropped when a line feed follows it. */
  function ToLf(s: seq<byte>): seq<byte> {
    if s == [] then []
    else if s[0] == CR && |s| > 1 && s[1] == LF then ToLf(s[1..])
    else [s[0]] + ToLf(s[1..])
  }

  /** A line feed gets a carriage return unless one precedes it; `afterCr` is that of `s[0]`. */
  function ToCrlf(s: seq<byte>, afterCr: bool): seq<byte>
    decreases |s|
  {
    if s == [] then []
    else if s[0] == LF && !afterCr then [CR, LF] + ToCrlf(s[1..], false)
    else [s[0]] + ToCrlf(s[1..], s[0] == CR)
  }

  /** The first index of `c` from `from` on, or the length where C has NULL. */
  method Memchr(s: seq<byte>, from: nat, c: byte) returns (next: nat)
    requires from <= |s|
    ensures from <= next <= |s| && (next < |s| ==> s[next] == c)
    ensures forall i :: from <= i < next ==> s[i] != c
  {
    next := from;
    while next < |s| && s[next] != c
      invariant from <= next <= |s| && forall i :: from <= i < next ==> s[i] != c
    {
      next := next + 1;
    }
  }

  lemma {:induction false} ToLfSkips(s: seq<byte>, k: nat)
    requires k <= |s| && forall i :: 0 <= i < k ==> s[i] != CR
    ensures ToLf(s) == s[..k] + ToLf(s[k..])
    decreases k
  {
    if k > 0 {
      ToLfSkips(s[1..], k - 1);
      assert s[1..][k - 1..] == s[k..];
      assert s[..k] == [s[0]] + s[1..][..k - 1];
    } else {
      assert s[0..] == s;
    }
  }

  lemma {:induction false} ToCrlfSkips(s: seq<byte>, k: nat, afterCr: bool)
    requires k <= |s| && forall i :: 0 <= i < k ==> s[i] != LF
    ensures ToCrlf(s, afterCr) == s[..k] + ToCrlf(s[k..], if k == 0 then afterCr else s[k - 1] == CR)
    decreases k
  {
    hide ToCrlf;
    if k == 0 {
      assert s[0..] == s;
    } else {
      var rest := s[1..];
      ToCrlfStep(s, afterCr);
      ToCrlfSkips(rest, k - 1, s[0] == CR);
      SkipOneMore(s, k, ToCrlf(s[k..], s[k - 1] == CR));
    }
  }

  lemma ToCrlfStep(s: seq<byte>, afterCr: bool)
    requires s != [] && s[0] != LF
    ensures ToCrlf(s, afterCr) == [s[0]] + ToCrlf(s[1..], s[0] == CR)
  {
  }

  lemma SkipOneMore(s: seq<byte>, k: nat, tail: seq<byte>)
    requires 0 < k <= |s|
    ensures s[1..][k - 1..] == s[k..]
    ensures [s[0]] + (s[1..][..k - 1] + tail) == s[..k] + tail
  {
    assert s[..k] == [s[0]] + s[1..][..k - 1];
  }

  /** `git_buf_text_crlf_to_lf`; not found means there is no carriage return at all. */
  method CrlfToLf(src: seq<byte>) returns (found: bool, tgt: seq<byte>)
    ensures found <==> CR in src
    ensures tgt == if found then ToLf(src) else []
    ensures !found ==> ToLf(src) == src
  {
    hide ToLf;
    tgt := [];
    var scan := 0;
    var next := Memchr(src, scan, CR);
    assert src[0..] == src;
    found := next < |src|;
    if !found {
      LfOfPlain(src);
      return;
    }
    while next < |src|
      invariant 0 <= scan <= next <= |src| && (next < |src| ==> src[next] == CR)
      invariant forall i :: scan <= i < next ==> src[i] != CR
      invariant tgt + ToLf(src[scan..]) == ToLf(src)
    {
      CopyLfChunk(src, scan, next, tgt);
      tgt := tgt + src[scan..next];
      if !(next + 1 < |src| && src[next + 1] == LF) {
        tgt := tgt + [CR];
      }
      scan := next + 1;
      next := Memchr(src, scan, CR);
    }
    LfOfPlain(src[scan..]);
    tgt := tgt + src[scan..];
  }

  lemma LfOfPlain(s: seq<byte>)
    requires forall i :: 0 <= i < |s| ==> s[i] != CR
    ensures ToLf(s) == s
  {
  }

  /** The chunk up to a carriage return, and the carriage return itself. */
  lemma CopyLfChunk(src: seq<byte>, scan: nat, next: nat, tgt: seq<byte>)
    requires scan <= next < |src| && src[next] == CR
    requires forall i :: scan <= i < next ==> src[i] != CR
    ensures var kept := if next + 1 < |src| && src[next + 1] == LF then [] else [CR];
            tgt + src[scan..next] + kept + ToLf(src[next + 1..]) == tgt + ToLf(src[scan..])
  {
    var s, k := src[scan..], next - scan;
    Pieces(src, scan, next);
    ToLfSkips(s, k);
    assert s[k] == CR;
  }

  /** `git_buf_text_lf_to_crlf`; not found means there is no line feed at all. */
  method LfToCrlf(src: seq<byte>) returns (found: bool, tgt: seq<byte>)
    ensures found <==> LF in src
    ensures tgt == if found then ToCrlf(src, false) else []
    ensures !found ==> ToCrlf(src, false) == src
  {
    hide ToCrlf;
    tgt := [];
    var scan := 0;
    var next := Memchr(src, scan, LF);
    assert src[0..] == src;
    found := next < |src|;
    if !found {
      CrlfOfPlain(src, false);
      return;
    }
    while next < |src|
      invariant 0 <= scan <= next <= |src| && (next < |src| ==> src[next] == LF)
      invariant forall i :: scan <= i < next ==> src[i] != LF
      invariant scan > 0 ==> src[scan - 1] == LF
      invariant tgt + ToCrlf(src[scan..], false) == ToCrlf(src, false)
    {
      CopyCrlfChunk(src, scan, next, tgt);
      var extralen := if next > 0 && src[next - 1] == CR then 1 else 2;
      tgt := tgt + src[scan..next];
      if extralen == 2 {
        tgt := tgt + [CR];
      }
      tgt := tgt + [LF];
      scan := next + 1;
      next := Memchr(src, scan, LF);
    }
    CrlfOfPlain(src[scan..], false);
    tgt := tgt + src[scan..];
  }

  lemma CrlfOfPlain(s: seq<byte>, afterCr: bool)
    requires forall i :: 0 <= i < |s| ==> s[i] != LF
    ensures ToCrlf(s, afterCr) == s
  {
  }

  lemma CopyCrlfChunk(src: seq<byte>, scan: nat, next: nat, tgt: seq<byte>)
    requires scan <= next < |src| && src[next] == LF && (scan > 0 ==> src[scan - 1] == LF)
    requires forall i :: scan <= i < next ==> src[i] != LF
    ensures var ending := if next > 0 && src[next - 1] == CR then [LF] else [CR, LF];
            tgt + src[scan..next] + ending + ToCrlf(src[next + 1..], false) == tgt + ToCrlf(src[scan..], false)
  {
    var s, k := src[scan..], next - scan;
    var afterCr := if k == 0 then false else s[k - 1] == CR;
    var chunk, ending, rest := src[scan..next], if afterCr then [LF] else [CR, LF], ToCrlf(src[next + 1..], false);
    assert ToCrlf(s, false) == chunk + (ending + rest) by {
      Pieces(src, scan, next);
      ToCrlfSkips(s, k, false);
      EndLine(s[k..], afterCr);
    }
    hide ToCrlf;
    Regroup(tgt, chunk, ending, rest);
  }

  lemma Regroup(a: seq<byte>, b: seq<byte>, c: seq<byte>, d: seq<byte>)
    ensures a + b + c + d == a + (b + (c + d))
  {
  }

  lemma Pieces(src: seq<byte>, scan: nat, next: nat)
    requires scan <= next < |src|
    ensures src[scan..][..next - scan] == src[scan..next]
    ensures src[scan..][next - scan..] == src[next..]
    ensures src[next..][1..] == src[next + 1..]
  {
  }

  lemma EndLine(s: seq<byte>, afterCr: bool)
    requires s != [] && s[0] == LF
    ensures ToCrlf(s, afterCr) == (if afterCr then [LF] else [CR, LF]) + ToCrlf(s[1..], false)
  {
  }

  // ----------------------------------------------------------------- laws

  lemma {:induction false} ToCrlfIdempotent(s: seq<byte>, afterCr: bool)
    ensures ToCrlf(ToCrlf(s, afterCr), afterCr) == ToCrlf(s, afterCr)
    decreases |s|
  {
    if s != [] {
      var rest := s[1..];
      var t := ToCrlf(s, afterCr);
      if s[0] == LF && !afterCr {
        ToCrlfIdempotent(rest, false);
        assert t[1..] == [LF] + ToCrlf(rest, false);
        assert t[1..][1..] == ToCrlf(rest, false);
      } else {
        ToCrlfIdempotent(rest, s[0] == CR);
        assert t[1..] == ToCrlf(rest, s[0] == CR);
      }
    }
  }

  predicate LfFollowsCr(t: seq<byte>, afterCr: bool) {
    && (t != [] && t[0] == LF ==> afterCr)
    && (forall i :: 0 < i < |t| && t[i] == LF ==> t[i - 1] == CR)
  }

  /** Afterwards every line feed follows a carriage return. */
  lemma {:induction false} NoBareLf(s: seq<byte>, afterCr: bool)
    ensures LfFollowsCr(ToCrlf(s, afterCr), afterCr)
    decreases |s|
  {
    if s != [] {
      var next := s[0] == CR && !(s[0] == LF && !afterCr);
      NoBareLf(s[1..], next);
      var rest := ToCrlf(s[1..], next);
      var head := if s[0] == LF && !afterCr then [CR, LF] else [s[0]];
      assert ToCrlf(s, afterCr) == head + rest;
      hide ToCrlf;
      var t := head + rest;
      forall i | 0 < i < |t| && t[i] == LF
        ensures t[i - 1] == CR
      {
        if i > |head| {
          var k := i - |head|;
          assert rest[k] == LF;
          assert t[i - 1] == rest[k - 1];
        } else if i == |head| {
          assert rest[0] == LF;
        }
      }
    }
  }

  /** Adding carriage returns does not change what dropping them gives. */
  lemma {:induction false} LfOfCrlf(s: seq<byte>, afterCr: bool)
    ensures ToLf(ToCrlf(s, afterCr)) == ToLf(s)
    decreases |s|
  {
    if s != [] {
      var rest := s[1..];
      var t := ToCrlf(s, afterCr);
      if s[0] == LF && !afterCr {
        LfOfCrlf(rest, false);
        assert t[1..] == [LF] + ToCrlf(rest, false);
        assert t[1..][1..] == ToCrlf(rest, false);
      } else {
        LfOfCrlf(rest, s[0] == CR);
        assert t[1..] == ToCrlf(rest, s[0] == CR);
        if s[0] == CR {
          FirstAfterCr(rest);
        }
      }
    }
  }

  lemma FirstAfterCr(rest: seq<byte>)
    ensures |ToCrlf(rest, true)| > 0 <==> rest != []
    ensures rest != [] ==> ToCrlf(rest, true)[0] == rest[0]
  {
  }

  /** `\\r\\r\\n` somewhere in the text. */
  predicate HasDoubleCr(s: seq<byte>) {
    s != [] && (StartsWithDoubleCr(s) || HasDoubleCr(s[1..]))
  }

  predicate StartsWithDoubleCr(s: seq<byte>) {
    |s| > 2 && s[0] == CR && s[1] == CR && s[2] == LF
  }

  predicate StartsWithCrlf(s: seq<byte>) {
    |s| > 1 && s[0] == CR && s[1] == LF
  }

  /** Both conversions on text that starts with a line ending. */
  lemma AtLineEnding(s: seq<byte>, afterCr: bool)
    requires StartsWithCrlf(s)
    ensures ToLf(s) == [LF] + ToLf(s[2..])
    ensures ToCrlf(s, afterCr) == [CR, LF] + ToCrlf(s[2..], false)
    ensures ToCrlf(ToLf(s), afterCr) == (if afterCr then [LF] else [CR, LF]) + ToCrlf(ToLf(s[2..]), false)
    ensures HasDoubleCr(s) == HasDoubleCr(s[2..])
  {
    assert s[1..][1..] == s[2..];
    assert ToLf(s[1..]) == [LF] + ToLf(s[2..]);
    assert ([LF] + ToLf(s[2..]))[1..] == ToLf(s[2..]);
    assert ToCrlf(s[1..], true) == [LF] + ToCrlf(s[2..], false);
  }

  /** Both conversions on any other text: one byte, then the rest. */
  lemma AtOtherByte(s: seq<byte>, afterCr: bool)
    requires s != [] && !StartsWithCrlf(s)
    ensures var head := if s[0] == LF && !afterCr then [CR, LF] else [s[0]];
            && ToCrlf(s, afterCr) == head + ToCrlf(s[1..], s[0] == CR)
            && ToCrlf(ToLf(s), afterCr) == head + ToCrlf(ToLf(s[1..]), s[0] == CR)
    ensures HasDoubleCr(s) == (HasDoubleCr(s[1..]) || (s[0] == CR && StartsWithCrlf(s[1..])))
  {
  }

  lemma EqualTails(head: seq<byte>, a: seq<byte>, b: seq<byte>)
    ensures head + a == head + b <==> a == b
  {
    assert (head + a)[|head|..] == a && (head + b)[|head|..] == b;
  }

  /** Normalising before adding carriage returns makes no difference exactly without `\r\r\n`. */
  lemma {:induction false} CrlfOfLf(s: seq<byte>, afterCr: bool)
    ensures ToCrlf(ToLf(s), afterCr) == ToCrlf(s, afterCr) <==>
            !(afterCr && StartsWithCrlf(s)) && !HasDoubleCr(s)
    decreases |s|
  {
    if s == [] {
    } else if StartsWithCrlf(s) {
      AtLineEnding(s, afterCr);
      CrlfOfLf(s[2..], false);
      hide ToCrlf, ToLf, HasDoubleCr;
      var a, b := ToCrlf(ToLf(s[2..]), false), ToCrlf(s[2..], false);
      EqualTails([CR, LF], a, b);
      assert ([LF] + a)[0] == LF && ([CR, LF] + b)[0] == CR;
    } else {
      AtOtherByte(s, afterCr);
      CrlfOfLf(s[1..], s[0] == CR);
      hide ToCrlf, ToLf, HasDoubleCr;
      EqualTails(if s[0] == LF && !afterCr then [CR, LF] else [s[0]],
                 ToCrlf(ToLf(s[1..]), s[0] == CR), ToCrlf(s[1..], s[0] == CR));
    }
  }

  /** The law for whole buffers. */
  lemma NormalisingExactly(s: seq<byte>)
    ensures ToCrlf(ToLf(s), false) == ToCrlf(s, false) <==> !HasDoubleCr(s)
  {
    CrlfOfLf(s, false);
  }

  /** A text that normalising changes: the first carriage return comes to stand before a line feed. */
  lemma NormalisingFails()
    ensures ToCrlf(ToLf([CR, CR, LF]), false) == [CR, LF] && ToCrlf([CR, CR, LF], false) == [CR, CR, LF]
  {
    assert [CR, CR, LF][1..] == [CR, LF] && [CR, LF][1..] == [LF] && [LF][1..] == [];
    AtLineEnding([CR, LF], true);
    AtLineEnding([CR, LF], false);
    assert [CR, LF][2..] == [];
    assert ToLf([CR, CR, LF]) == [CR] + ToLf([CR, LF]);
  }

  // ------------------------------------------------------------ statistics

  datatype Bom = NoBom | Utf8 | Utf16Le | Utf16Be | Utf32Le | Utf32Be

  /** `git_buf_text_detect_bom` at the start of a buffer: the mark and its length. */
  function DetectBom(s: seq<byte>): (r: (Bom, nat))
    ensures r.1 <= |s| && forall i :: 0 <= i < r.1 ==> s[i] != CR && s[i] != 0x1a
  {
    if |s| < 2 then (NoBom, 0)
    else if s[0] == 0 then
      if |s| >= 4 && s[1] == 0 && s[2] == 0xfe && s[3] == 0xff then (Utf32Be, 4) else (NoBom, 0)
    else if s[0] == 0xef then
      if |s| >= 3 && s[1] == 0xbb && s[2] == 0xbf then (Utf8, 3) else (NoBom, 0)
    else if s[0] == 0xfe then
      if s[1] == 0xff then (Utf16Be, 2) else (NoBom, 0)
    else if s[0] == 0xff && s[1] == 0xfe then
      if |s| >= 4 && s[2] == 0 && s[3] == 0 then (Utf32Le, 4) else (Utf16Le, 2)
    else (NoBom, 0)
  }

  datatype Stats = Stats(nul: nat, cr: nat, lf: nat, crlf: nat, printable: nat, nonprintable: nat)

  /** The tally of `w[..i]`, a carriage return being judged by the byte behind it. */
  function Tally(w: seq<byte>, i: nat): (t: Stats)
    requires i <= |w|
  {
    if i == 0 then Stats(0, 0, 0, 0, 0, 0)
    else
      var t, c := Tally(w, i - 1), w[i - 1];
      if (0x1f < c < 0x7f) || c > 0x9f then t.(printable := t.printable + 1)
      else if c == 0 then t.(nul := t.nul + 1, nonprintable := t.nonprintable + 1)
      else if c == LF then t.(lf := t.lf + 1)
      else if c == CR then t.(cr := t.cr + 1, crlf := t.crlf + if i < |w| && w[i] == LF then 1 else 0)
      else if c == 9 || c == 12 || c == 11 || c == 8 || c == 0x1b then t.(printable := t.printable + 1)
      else t.(nonprintable := t.nonprintable + 1)
  }

  /** The part that is counted: without a final EOF character, and without the mark if asked. */
  function Window(s: seq<byte>, skipBom: bool): seq<byte> {
    var start := if skipBom then DetectBom(s).1 else 0;
    var end := if s != [] && s[|s| - 1] == 0x1a then |s| - 1 else |s|;
    s[start..end]
  }

  /** `git_buf_text_gather_stats`. */
  method GatherStats(s: seq<byte>, skipBom: bool) returns (stats: Stats, bom: Bom, binary: bool)
    ensures bom == DetectBom(s).0
    ensures stats == Tally(Window(s, skipBom), |Window(s, skipBom)|)
    ensures binary == (stats.nul > 0 || stats.printable / 128 < stats.nonprintable)
    ensures stats.cr == stats.crlf <==> NoLoneCr(s)
  {
    hide Window, NoLoneCr, DetectBom;
    WindowShifts(s, skipBom);
    var nul, cr, lf, crlf, printable, nonprintable := 0, 0, 0, 0, 0, 0;
    bom := DetectBom(s).0;
    ghost var w := Window(s, skipBom);
    var start := if skipBom then DetectBom(s).1 else 0;
    var end := |s|;
    if |s| > 0 && s[end - 1] == 0x1a {
      end := end - 1;
    }
    assert |w| == end - start;
    var scan := start;
    while scan < end
      invariant start <= scan <= end
      invariant Stats(nul, cr, lf, crlf, printable, nonprintable) == Tally(w, scan - start)
    {
      var c := s[scan];
      assert c == w[scan - start];
      assert scan + 1 < end ==> s[scan + 1] == w[scan + 1 - start];
      scan := scan + 1;
      if (c > 0x1f && c < 0x7f) || c > 0x9f {
        printable := printable + 1;
      } else if c == 0 {
        nul := nul + 1;
        nonprintable := nonprintable + 1;
      } else if c == LF {
        lf := lf + 1;
      } else if c == CR {
        cr := cr + 1;
        if scan < end && s[scan] == LF {
          crlf := crlf + 1;
        }
      } else if c == 9 || c == 12 || c == 11 || c == 8 || c == 0x1b {
        printable := printable + 1;
      } else {
        nonprintable := nonprintable + 1;
      }
    }
    stats := Stats(nul, cr, lf, crlf, printable, nonprintable);
    binary := nul > 0 || printable / 128 < nonprintable;
    StatsTellLoneCr(s, skipBom);
  }

  /** Every byte falls into one of four classes, which the counters count. */
  lemma {:induction false} TallyCounts(w: seq<byte>, i: nat)
    requires i <= |w|
    ensures var t := Tally(w, i);
            && t.nul == multiset(w[..i])[0] && t.lf == multiset(w[..i])[LF] && t.cr == multiset(w[..i])[CR]
            && t.printable + t.nonprintable + t.lf + t.cr == i
    ensures Tally(w, i).crlf == |set j | 0 <= j < i && StartsWithCrlf(w[j..])|
    ensures Tally(w, i).printable ==
            |set j | 0 <= j < i && (0x20 <= w[j] <= 0x7e || 0xa0 <= w[j] || w[j] in {8, 9, 0x0b, 0x0c, 0x1b})|
  {
    if i > 0 {
      TallyCounts(w, i - 1);
      assert w[..i] == w[..i - 1] + [w[i - 1]];
      OneMorePrintable(w, i - 1);
      OneMoreLineEnding(w, i - 1);
    }
  }

  lemma OneMorePrintable(w: seq<byte>, i: nat)
    requires i < |w|
    ensures |set j | 0 <= j < i + 1 && (0x20 <= w[j] <= 0x7e || 0xa0 <= w[j] || w[j] in {8, 9, 0x0b, 0x0c, 0x1b})| ==
            |set j | 0 <= j < i && (0x20 <= w[j] <= 0x7e || 0xa0 <= w[j] || w[j] in {8, 9, 0x0b, 0x0c, 0x1b})|
            + if 0x20 <= w[i] <= 0x7e || 0xa0 <= w[i] || w[i] in {8, 9, 0x0b, 0x0c, 0x1b} then 1 else 0
  {
    var fewer := set j | 0 <= j < i && (0x20 <= w[j] <= 0x7e || 0xa0 <= w[j] || w[j] in {8, 9, 0x0b, 0x0c, 0x1b});
    var more := set j | 0 <= j < i + 1 && (0x20 <= w[j] <= 0x7e || 0xa0 <= w[j] || w[j] in {8, 9, 0x0b, 0x0c, 0x1b});
    assert more == if i in more then fewer + {i} else fewer;
  }

  lemma OneMoreLineEnding(w: seq<byte>, i: nat)
    requires i < |w|
    ensures |set j | 0 <= j < i + 1 && StartsWithCrlf(w[j..])| ==
            |set j | 0 <= j < i && StartsWithCrlf(w[j..])|
            + if w[i] == CR && i + 1 < |w| && w[i + 1] == LF then 1 else 0
  {
    var fewer := set j | 0 <= j < i && StartsWithCrlf(w[j..]);
    var more := set j | 0 <= j < i + 1 && StartsWithCrlf(w[j..]);
    assert more == if i in more then fewer + {i} else fewer;
  }

  /** The marks and their bytes; two of them start alike. */
  lemma BomExactly(s: seq<byte>)
    ensures var (bom, n) := DetectBom(s);
            && (bom == Utf8 <==> [0xef, 0xbb, 0xbf] <= s)
            && (bom == Utf16Be <==> [0xfe, 0xff] <= s)
            && (bom == Utf32Be <==> [0, 0, 0xfe, 0xff] <= s)
            && (bom == Utf32Le <==> [0xff, 0xfe, 0, 0] <= s)
            && (bom == Utf16Le <==> [0xff, 0xfe] <= s && !([0xff, 0xfe, 0, 0] <= s))
            && n == match bom
                    case NoBom => 0
                    case Utf8 => 3
                    case Utf16Le => 2
                    case Utf16Be => 2
                    case Utf32Le => 4
                    case Utf32Be => 4
  {
  }

  /** Every carriage return is part of a line ending. */
  ghost predicate NoLoneCr(s: seq<byte>) {
    forall i :: 0 <= i < |s| && s[i] == CR ==> i + 1 < |s| && s[i + 1] == LF
  }

  lemma {:induction false} EqualCounts(w: seq<byte>, i: nat)
    requires i <= |w|
    ensures Tally(w, i).crlf <= Tally(w, i).cr
    ensures Tally(w, i).crlf == Tally(w, i).cr <==>
            forall j :: 0 <= j < i && w[j] == CR ==> j + 1 < |w| && w[j + 1] == LF
  {
    if i > 0 {
      EqualCounts(w, i - 1);
    }
  }

  /** Neither the byte order mark nor the EOF character hides a lone carriage return. */
  lemma StatsTellLoneCr(s: seq<byte>, skipBom: bool)
    ensures var w := Window(s, skipBom);
            Tally(w, |w|).cr == Tally(w, |w|).crlf <==> NoLoneCr(s)
  {
    var w := Window(s, skipBom);
    var start := if skipBom then DetectBom(s).1 else 0;
    EqualCounts(w, |w|);
    WindowShifts(s, skipBom);
    hide Window, DetectBom, Tally;
    if NoLoneCr(w) {
      forall i | 0 <= i < |s| && s[i] == CR
        ensures i + 1 < |s| && s[i + 1] == LF
      {
        assert w[i - start] == CR;
        assert w[i - start + 1] == s[i + 1];
      }
    } else {
      var j :| 0 <= j < |w| && w[j] == CR && !(j + 1 < |w| && w[j + 1] == LF);
      assert s[start + j] == CR;
      if j + 1 < |w| {
        assert s[start + j + 1] == w[j + 1];
      }
    }
  }

  /** The counted part lies behind the mark, and what is left out holds no carriage return. */
  lemma WindowShifts(s: seq<byte>, skipBom: bool)
    ensures var w, start := Window(s, skipBom), if skipBom then DetectBom(s).1 else 0;
            && start + |w| == |s| - (if s != [] && s[|s| - 1] == 0x1a then 1 else 0)
            && (forall j :: 0 <= j < |w| ==> w[j] == s[start + j])
            && (forall i :: 0 <= i < start ==> s[i] != CR)
            && (start + |w| < |s| ==> s[start + |w|] == 0x1a)
  {
    hide DetectBom;
  }

  /** Converting to line feeds leaves no carriage return exactly when none stood alone. */
  lemma {:induction false} NoLoneCrExactly(s: seq<byte>)
    ensures NoLoneCr(s) <==> CR !in ToLf(s)
  {
    if s != [] {
      NoLoneCrExactly(s[1..]);
      TailHasNoLoneCr(s);
    }
  }

  lemma TailHasNoLoneCr(s: seq<byte>)
    requires s != []
    ensures NoLoneCr(s) <==> NoLoneCr(s[1..]) && (s[0] == CR ==> |s| > 1 && s[1] == LF)
  {
  }

  lemma {:induction false} NoLoneCrNoDouble(s: seq<byte>)
    requires NoLoneCr(s)
    ensures !HasDoubleCr(s)
  {
    if s != [] {
      TailHasNoLoneCr(s);
      NoLoneCrNoDouble(s[1..]);
    }
  }

  /** What the filters rely on: with as many CRLF as CR, conversion both ways is clean. */
  lemma CleanWhenCountsAgree(s: seq<byte>, skipBom: bool)
    requires var w := Window(s, skipBom); Tally(w, |w|).cr == Tally(w, |w|).crlf
    ensures CR !in ToLf(s) && ToCrlf(ToLf(s), false) == ToCrlf(s, false)
  {
    StatsTellLoneCr(s, skipBom);
    NoLoneCrExactly(s);
    NoLoneCrNoDouble(s);
    NormalisingExactly(s);
  }
}
