/** The delta code as a whole: what is encoded against an index is what is decoded. */
module DeltaTheorems {
  import opened Common
  import opened RabinHash
  import opened DeltaFormat
  import opened DeltaEncoding
  import opened DeltaIndex
  import opened DeltaCreate
  import opened DeltaApply

  /** The shortest target whose literals alone make the encoder's buffer size wrap. */
  const FIRST_WRAP := 1_558_552_067

  /**
   Index, encode, decode: whenever a delta comes out, the target comes back. Without a
   max_size one comes out for every target below 981,765,080 bytes, and for a source too
   short to be indexed exactly for every target below `FIRST_WRAP`.
   */
  method RoundTrip(base: seq<byte>, target: seq<byte>, maxSize: nat) returns (result: array?<byte>, made: bool)
    requires 0 < |base| < 0x8000_0000 && 0 < |target| < 0x8000_0000
    ensures made ==> result != null && result[..] == target + [0]
    ensures !made && maxSize == 0 ==> 981_765_079 < |target|
    ensures |base| <= WINDOW && maxSize == 0 ==> (made <==> |target| < FIRST_WRAP)
  {
    hide ApplySpec, Index.Valid, LiteralSize;
    result, made := null, false;
    var index := CreateIndex(base);
    var outcome := Create(index, target, maxSize);
    if |base| <= WINDOW {
      LiteralsWrapExactly(base, target);
    }
    if outcome.Delta? {
      made := true;
      result := Apply(base, outcome.out[..outcome.size]);
    }
  }

  /** A size of 2^28 or more takes a header of five bytes. */
  lemma LongHeader(n: nat)
    requires 0x1000_0000 <= n < 0x8000_0000
    ensures |EncodeVarint(n)| == 5
  {
    var n1 := n / 0x80;
    var n2 := n1 / 0x80;
    var n3 := n2 / 0x80;
    var n4 := n3 / 0x80;
    assert |EncodeVarint(n4)| == 1;
    assert |EncodeVarint(n3)| == 2;
    assert |EncodeVarint(n2)| == 3;
    assert |EncodeVarint(n1)| == 4;
  }

  /** The buffer wraps on literals exactly from `FIRST_WRAP` on, if max_size lets it grow so far. */
  lemma LiteralsWrapExactly(base: seq<byte>, target: seq<byte>)
    requires 0 < |base| <= WINDOW && 0 < |target| < 0x8000_0000
    ensures forall maxSize: nat ::
              WrapsAt(LiteralSize(base, target), maxSize) <==>
              |target| >= FIRST_WRAP && (maxSize == 0 || LAST_SIZE < maxSize)
  {
    HeaderBounds(base, target);
    assert |EncodeVarint(|base|)| == 1;
    if |target| >= 0x1000_0000 {
      LongHeader(|target|);
    }
    hide EncodeVarint;
  }

  /** The failing input: one byte to encode against and the shortest target that wraps. */
  method ShortestWrap() returns (outcome: Outcome)
    ensures outcome == SizeWraps
  {
    hide Index.Valid, LiteralSize;
    var base, target := [0], seq(FIRST_WRAP, _ => 0);
    var index := CreateIndex(base);
    LiteralsWrapExactly(base, target);
    outcome := Create(index, target, 0);
  }

  /**
   Which agreements the search cannot miss: where a window still on its chain equals the
   target's window byte for byte and the agreement goes on, what the search is measured
   against is at least as long, counted from the window's last byte.
   */
  lemma EqualWindowsAreFound(index: Index, target: seq<byte>, p: nat, v: Hash, carried: nat, i: nat, n: nat)
    requires index.Valid() && WINDOW <= p + 1 && p + n <= |target| && 0 < n
    requires v == WindowHash(target[p + 1 - WINDOW..p + 1]) && i < |index.Candidates(v)|
    requires Agrees(index.src, index.Candidates(v)[i].ptr, target, p, n)
    ensures n <= LongestOf(index.Candidates(v), index.src, target, p, v, carried)
  {
    hide Index.Valid, WindowHash, Index.Candidates, LongestOf, Agrees;
    CandidateHash(index, v, i);
    AgreementIsReached(index.Candidates(v), index.src, target, p, v, carried, i, n);
  }

  lemma AgreementIsReached(ws: seq<Window>, base: seq<byte>, target: seq<byte>, p: nat, v: Hash,
                           carried: nat, i: nat, n: nat)
    requires i < |ws| && WINDOW <= ws[i].ptr < |base| && WINDOW <= p + 1 && p + n <= |target| && 0 < n
    requires v == WindowHash(target[p + 1 - WINDOW..p + 1])
    requires ws[i].val == WindowHash(base[ws[i].ptr + 1 - WINDOW..ws[i].ptr + 1])
    requires Agrees(base, ws[i].ptr, target, p, n)
    ensures n <= LongestOf(ws, base, target, p, v, carried)
  {
    hide WindowHash, LongestOf, Agrees, Match, MatchLength;
    AgreesInParts(base, ws[i].ptr, target, p, n);
    MatchIsNoLonger(base, ws[i].ptr, target, p, n);
    LongestIsReached(ws, base, target, p, v, carried, i);
  }

  lemma CandidateHash(index: Index, v: Hash, i: nat)
    requires index.Valid() && i < |index.Candidates(v)|
    ensures var w := index.Candidates(v)[i];
            WINDOW <= w.ptr < |index.src| && w.val == WindowHash(index.src[w.ptr + 1 - WINDOW..w.ptr + 1])
  {
    CandidatesAscend(index, v);
    hide Index.Valid, Index.Candidates, Ascending, WindowHash;
    assert IsWindow(index.src, index.Candidates(v)[i]);
  }

  /** The windows that end at `q` and `p` agree, and so do `n` bytes from their last ones on. */
  ghost predicate Agrees(base: seq<byte>, q: nat, target: seq<byte>, p: nat, n: nat)
    requires WINDOW <= p + 1 && p + n <= |target|
  {
    && WINDOW <= q + 1 && q + n <= |base|
    && base[q + 1 - WINDOW..q + n] == target[p + 1 - WINDOW..p + n]
  }

  lemma AgreesInParts(base: seq<byte>, q: nat, target: seq<byte>, p: nat, n: nat)
    requires WINDOW <= p + 1 && p + n <= |target| && 0 < n && Agrees(base, q, target, p, n)
    ensures WINDOW <= q + 1 && base[q + 1 - WINDOW..q + 1] == target[p + 1 - WINDOW..p + 1]
    ensures Match(base, target, q, p, n)
  {
    var a, b := base[q + 1 - WINDOW..q + n], target[p + 1 - WINDOW..p + n];
    assert base[q + 1 - WINDOW..q + 1] == a[..WINDOW] && target[p + 1 - WINDOW..p + 1] == b[..WINDOW];
    assert base[q..q + n] == a[WINDOW - 1..] && target[p..p + n] == b[WINDOW - 1..];
  }

  /** The window at the encoder's position and `n` bytes agree with the `i`-th candidate for its hash. */
  ghost predicate OnOffer(e: Encoder, i: nat, n: nat)
    requires e.Inputs() && WINDOW <= e.pos && 0 < n
    reads e, e.index.entries, e.index.hash
  {
    && e.pos + n <= |e.target|
    && var ws := e.index.Candidates(WindowHash(e.target[e.pos + 1 - WINDOW..e.pos + 1]));
       i < |ws| && Agrees(e.base, ws[i].ptr, e.target, e.pos, n)
  }

  lemma OnOfferIsFound(e: Encoder, i: nat, n: nat)
    requires e.Inputs() && WINDOW <= e.pos && 0 < n && OnOffer(e, i, n)
    ensures n <= e.LongestAt(e.pos, e.msize)
  {
    hide WindowHash, Agrees, LongestOf, Index.Valid, Index.Candidates;
    var v := WindowHash(e.target[e.pos + 1 - WINDOW..e.pos + 1]);
    EqualWindowsAreFound(e.index, e.target, e.pos, v, e.msize, i, n);
  }

  /**
   What this means for the output: where a chained window and at least three bytes behind it
   agree with the target, the iteration copies, and it copies or carries over at least as
   much as agrees, short of 4096 bytes.
   */
  method AgreementIsCopied(e: Encoder, ghost i: nat, ghost n: nat)
    requires e.AtLoopHead() && e.pos < |e.target| && 4 <= n && OnOffer(e, i, n)
    modifies e, e.out
    ensures e.Output() && old(e.pos) + 4 <= e.pos
    ensures e.pos + e.msize >= old(e.pos) + if n < 4096 then n else 4096
  {
    OnOfferIsFound(e, i, n);
    hide OnOffer, Encoder.LongestAt, Encoder.Chosen, Encoder.CopyEmitted, Index.Valid, Encoded, Header, IsGrowthSize;
    ghost var at, found := e.Iterate();
  }
}
