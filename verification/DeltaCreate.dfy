/**
 `git_delta_create`: the greedy encoder of `delta.c`. The locals of the C function are
 the fields of `Encoder`, and the branches of its loop are the methods. Every write goes
 through `out`, whose length is `outsize`, so each one is checked to be in bounds.
 */
module DeltaCreate {
  import opened Common
  import opened RabinHash
  import opened HashBuckets
  import opened DeltaFormat
  import opened DeltaEncoding
  import opened DeltaIndex

  const MAX_OP_SIZE := 5 + 5 + 1 + WINDOW + 7

  // ------------------------------------------------------- searching a chain

  /** Compares byte by byte for as long as the two sides agree. */
  method CompareRun(base: seq<byte>, p: nat, target: seq<byte>, q: nat, refSize: nat) returns (n: nat)
    requires p <= |base| && q <= |target|
    requires refSize == if |base| - p < |target| - q then |base| - p else |target| - q
    ensures n == MatchLength(base, p, target, q)
  {
    n := 0;
    while n < refSize && base[p + n] == target[q + n]
      invariant n <= refSize
      invariant MatchLength(base, p, target, q) == n + MatchLength(base, p + n, target, q + n)
    {
      n := n + 1;
    }
  }

  /** Nothing in `ws` with hash `val` matches on more than `limit` bytes. */
  ghost predicate NoneLonger(ws: seq<Window>, base: seq<byte>, target: seq<byte>, pos: nat, val: Hash, limit: nat)
    requires pos <= |target|
  {
    forall i :: 0 <= i < |ws| && ws[i].val == val && ws[i].ptr <= |base| ==>
      MatchLength(base, ws[i].ptr, target, pos) <= limit
  }

  /** The first candidate with the longest match, or the first with one of 4096 bytes, is the `i`-th. */
  ghost predicate FoundAt(ws: seq<Window>, i: nat, base: seq<byte>, target: seq<byte>, pos: nat, val: Hash,
                          moff: nat, msize: nat)
    requires pos <= |target|
  {
    && i < |ws| && ws[i].val == val && ws[i].ptr == moff <= |base|
    && MatchLength(base, moff, target, pos) == msize > 0
    && NoneLonger(ws[..i], base, target, pos, val, if msize < 4096 then msize - 1 else 4095)
  }

  /** The result of a search is the carried-in match, or a candidate that beats it. */
  ghost predicate FoundAmong(ws: seq<Window>, base: seq<byte>, target: seq<byte>, pos: nat, val: Hash,
                             moff0: nat, msize0: nat, moff: nat, msize: nat)
    requires pos <= |target|
  {
    || (moff == moff0 && msize == msize0)
    || (msize0 < msize && exists i: nat :: FoundAt(ws, i, base, target, pos, val, moff, msize))
  }

  /** Stopping at a candidate that cannot beat `limit` loses nothing further up the chain. */
  lemma EarlyExitIsExact(ws: seq<Window>, i: nat, base: seq<byte>, target: seq<byte>, pos: nat, val: Hash, limit: nat)
    requires pos <= |target| && i < |ws| && Ascending(ws) && ws[i].ptr <= |base|
    requires |base| - ws[i].ptr <= limit || |target| - pos <= limit
    requires NoneLonger(ws[..i], base, target, pos, val, limit)
    ensures NoneLonger(ws, base, target, pos, val, limit)
  {
  }

  lemma NoneLongerGrows(ws: seq<Window>, i: nat, base: seq<byte>, target: seq<byte>, pos: nat, val: Hash,
                        limit: nat, limit': nat)
    requires pos <= |target| && i < |ws| && limit <= limit'
    requires NoneLonger(ws[..i], base, target, pos, val, limit)
    requires ws[i].val == val && ws[i].ptr <= |base| ==> MatchLength(base, ws[i].ptr, target, pos) <= limit'
    ensures NoneLonger(ws[..i + 1], base, target, pos, val, limit')
  {
  }

  /** The body of the chain walk for candidate `ws[i]`; `stop` is the C `break`. */
  method Consider(ghost ws: seq<Window>, ghost i: nat, window: Window, base: seq<byte>, target: seq<byte>, pos: nat,
                  val: Hash, ghost moff0: nat, ghost msize0: nat, moff: nat, msize: nat)
    returns (newMoff: nat, newMsize: nat, stop: bool)
    requires i < |ws| && ws[i] == window && window.ptr < |base| && Ascending(ws)
    requires pos < |target| && msize < 4096
    requires msize0 <= msize && FoundAmong(ws, base, target, pos, val, moff0, msize0, moff, msize)
    requires NoneLonger(ws[..i], base, target, pos, val, msize)
    ensures msize <= newMsize
    ensures FoundAmong(ws, base, target, pos, val, moff0, msize0, newMoff, newMsize)
    ensures stop && newMsize < 4096 ==> NoneLonger(ws, base, target, pos, val, newMsize)
    ensures !stop ==> newMsize < 4096 && NoneLonger(ws[..i + 1], base, target, pos, val, newMsize)
  {
    hide MatchLength, NoneLonger, Ascending, FoundAmong, WindowHash;
    newMoff, newMsize, stop := moff, msize, false;
    if window.val == val {
      var refSize := |base| - window.ptr;
      if refSize > |target| - pos {
        refSize := |target| - pos;
      }
      if refSize <= msize {
        EarlyExitIsExact(ws, i, base, target, pos, val, msize);
        stop := true;
        return;
      }
      var n := CompareRun(base, window.ptr, target, pos, refSize);
      if msize < n {
        newMsize := n;
        newMoff := window.ptr;
        FoundHere(ws, i, base, target, pos, val, moff0, msize0, msize);
        if newMsize >= 4096 {
          stop := true;
          return;
        }
      }
    }
    NoneLongerGrows(ws, i, base, target, pos, val, msize, newMsize);
  }

  /** The chain walk: keeps the best match, stops when no candidate can beat it. */
  method Search(index: Index, target: seq<byte>, pos: nat, val: Hash, moff0: nat, msize0: nat)
    returns (moff: nat, msize: nat)
    requires index.Valid() && pos < |target| && msize0 < 4096
    ensures msize0 <= msize
    ensures FoundAmong(index.Candidates(val), index.src, target, pos, val, moff0, msize0, moff, msize)
    ensures msize < 4096 ==> NoneLonger(index.Candidates(val), index.src, target, pos, val, msize)
  {
    hide NoneLonger, Ascending, FoundAmong, Bucket, IsWindow, WindowHash, Linked, Collect, Culled, Members;
    moff, msize := moff0, msize0;
    ghost var ws, c := index.Candidates(val), ChainAt(index, val);
    CandidatesAscend(index, val);
    SearchStart(ws, index.src, target, pos, val, moff0, msize0);
    var entry := index.hash[Bucket(val, index.hash.Length)];
    ghost var i := 0;
    while entry != NIL
      invariant 0 <= i <= |ws| == |c|
      invariant Suspended(index, c, i, entry)
      invariant msize0 <= msize < 4096
      invariant FoundAmong(ws, index.src, target, pos, val, moff0, msize0, moff, msize)
      invariant NoneLonger(ws[..i], index.src, target, pos, val, msize)
      decreases |ws| - i
    {
      SuspendedStep(index, val, c, i, entry);
      var window := index.entries[entry].window;
      assert window == ws[i];
      InRange(index.src, ws[i]);
      var stop;
      moff, msize, stop := Consider(ws, i, window, index.src, target, pos, val, moff0, msize0, moff, msize);
      if stop {
        return;
      }
      entry := index.entries[entry].next;
      i := i + 1;
    }
    SuspendedEnd(index, c, i);
    assert ws[..i] == ws;
  }

  /** The longest match among same-hash candidates, or `carried` if that is longer. */
  function LongestOf(ws: seq<Window>, base: seq<byte>, target: seq<byte>, pos: nat, val: Hash, carried: nat): nat
    requires pos <= |target|
  {
    if ws == [] then carried
    else
      var w, rest := ws[0], LongestOf(ws[1..], base, target, pos, val, carried);
      if w.val == val && w.ptr <= |base| && MatchLength(base, w.ptr, target, pos) > rest
      then MatchLength(base, w.ptr, target, pos) else rest
  }

  /** What `Search` ensures pins its length down: the maximum over the whole chain. */
  lemma {:induction false} SearchIsMaximum(ws: seq<Window>, base: seq<byte>, target: seq<byte>, pos: nat, val: Hash,
                                           moff0: nat, msize0: nat, moff: nat, msize: nat)
    requires pos <= |target| && msize0 <= msize
    requires FoundAmong(ws, base, target, pos, val, moff0, msize0, moff, msize)
    requires NoneLonger(ws, base, target, pos, val, msize)
    ensures msize == LongestOf(ws, base, target, pos, val, msize0)
  {
    LongestIsBounded(ws, base, target, pos, val, msize0, msize);
    if msize != msize0 {
      var i: nat :| FoundAt(ws, i, base, target, pos, val, moff, msize);
      LongestIsReached(ws, base, target, pos, val, msize0, i);
    } else {
      LongestIsAtLeast(ws, base, target, pos, val, msize0);
    }
  }

  lemma {:induction false} LongestIsAtLeast(ws: seq<Window>, base: seq<byte>, target: seq<byte>, pos: nat, val: Hash,
                                            carried: nat)
    requires pos <= |target|
    ensures carried <= LongestOf(ws, base, target, pos, val, carried)
  {
    if ws != [] {
      LongestIsAtLeast(ws[1..], base, target, pos, val, carried);
    }
  }

  lemma {:induction false} LongestIsReached(ws: seq<Window>, base: seq<byte>, target: seq<byte>, pos: nat, val: Hash,
                                            carried: nat, i: nat)
    requires pos <= |target| && i < |ws| && ws[i].val == val && ws[i].ptr <= |base|
    ensures MatchLength(base, ws[i].ptr, target, pos) <= LongestOf(ws, base, target, pos, val, carried)
  {
    if i > 0 {
      LongestIsReached(ws[1..], base, target, pos, val, carried, i - 1);
    }
  }

  lemma {:induction false} LongestIsBounded(ws: seq<Window>, base: seq<byte>, target: seq<byte>, pos: nat, val: Hash,
                                            carried: nat, limit: nat)
    requires pos <= |target| && carried <= limit && NoneLonger(ws, base, target, pos, val, limit)
    ensures LongestOf(ws, base, target, pos, val, carried) <= limit
  {
    if ws != [] {
      LongestIsBounded(ws[1..], base, target, pos, val, carried, limit);
    }
  }

  lemma SearchStart(ws: seq<Window>, base: seq<byte>, target: seq<byte>, pos: nat, val: Hash, moff: nat, msize: nat)
    requires pos <= |target|
    ensures NoneLonger(ws[..0], base, target, pos, val, msize)
    ensures FoundAmong(ws, base, target, pos, val, moff, msize, moff, msize)
  {
  }

  lemma FoundHere(ws: seq<Window>, i: nat, base: seq<byte>, target: seq<byte>, pos: nat, val: Hash, moff0: nat, msize0: nat,
                  beaten: nat)
    requires pos <= |target| && i < |ws| && ws[i].val == val && ws[i].ptr <= |base|
    requires msize0 <= beaten < MatchLength(base, ws[i].ptr, target, pos) && beaten < 4096
    requires NoneLonger(ws[..i], base, target, pos, val, beaten)
    ensures FoundAmong(ws, base, target, pos, val, moff0, msize0, ws[i].ptr,
                       MatchLength(base, ws[i].ptr, target, pos))
  {
    hide MatchLength;
    assert FoundAt(ws, i, base, target, pos, val, ws[i].ptr, MatchLength(base, ws[i].ptr, target, pos));
  }

  lemma InRange(base: seq<byte>, w: Window)
    requires IsWindow(base, w)
    ensures WINDOW <= w.ptr < |base|
  {
  }

  /** The entries on the chain searched for `val`. */
  ghost function ChainAt(index: Index, val: Hash): (c: seq<nat>)
    requires index.Valid()
    reads index.entries, index.hash
    ensures |c| == |index.Candidates(val)|
    ensures Suspended(index, c, 0, index.hash[Bucket(val, index.hash.Length)])
  {
    var h := index.hash[Bucket(val, index.hash.Length)];
    assert CulledBucket(index.entries[..index.used], index.hash.Length, Bucket(val, index.hash.Length), h);
    var c := Chain(index.entries[..index.used], h);
    assert c[0..] == c;
    c
  }

  /** `entry` is where chain `c` stands after `i` entries. */
  ghost predicate Suspended(index: Index, c: seq<nat>, i: nat, entry: int)
    reads index.entries
  {
    && index.used <= index.entries.Length && Linked(index.entries[..index.used])
    && NIL <= entry < index.used && i <= |c|
    && Chain(index.entries[..index.used], entry) == c[i..]
  }

  lemma SuspendedStep(index: Index, val: Hash, c: seq<nat>, i: nat, entry: int)
    requires index.Valid() && c == ChainAt(index, val) && Suspended(index, c, i, entry) && entry != NIL
    ensures i < |c| && index.entries[entry].window == index.Candidates(val)[i]
    ensures NIL <= index.entries[entry].next < index.used
    ensures Suspended(index, c, i + 1, index.entries[entry].next)
  {
    var es := index.entries[..index.used];
    ChainUnfold(es, entry);
    assert Chain(es, entry)[0] == entry == c[i];
    assert Chain(es, entry)[1..] == c[i + 1..];
  }

  lemma SuspendedEnd(index: Index, c: seq<nat>, i: nat)
    requires Suspended(index, c, i, NIL)
    ensures i == |c|
  {
  }

  // ---------------------------------------------------------- the encoder

  /** The result of `git_delta_create`. */
  datatype Outcome =
    | Delta(out: array<byte>, size: nat)
    | Null         // empty target, or the delta would exceed max_size
    | SizeWraps    // the 32-bit size wraps: the buffer gets shorter than what is in it

  class Encoder {
    const index: Index
    const base: seq<byte>
    const target: seq<byte>
    const maxSize: nat
    var out: array<byte>  // its length is `outsize`
    var outpos: nat
    var pos: nat          // `data`, relative to the target's start
    var inscnt: int
    var moff: nat
    var msize: nat
    var val: Hash

    /** The bytes written so far. */
    ghost function Emitted(): seq<byte>
      requires outpos <= out.Length
      reads this, out
    {
      out[..outpos]
    }

    ghost predicate Inputs()
      reads index.entries, index.hash
    {
      && index.Valid() && index.src == base
      && 0 < |base| < 0x8000_0000 && 0 < |target| < 0x8000_0000
    }

    /** The output stands for `target[..pos]`, with `inscnt` literals pending. */
    ghost predicate Output()
      reads this, out
    {
      && outpos <= out.Length
      && 0 <= inscnt < 0x7f
      && Encoded(base, target, Emitted(), pos, inscnt)
    }

    /** A match carried over from a split copy; nothing is pending in front of it. */
    ghost predicate CarriedMatch()
      reads this`inscnt, this`pos, this`moff, this`msize
    {
      msize > 0 ==> inscnt == 0 && Match(base, target, moff, pos, msize)
    }

    /** Unless a long match makes hashing pointless, `val` is exact. */
    ghost predicate HashExact()
      reads this`pos, this`msize, this`val
    {
      && pos <= |target|
      && (pos < |target| ==> WINDOW <= pos)
      && (pos >= WINDOW && msize < 4096 ==> val == WindowHash(target[pos - WINDOW..pos]))
    }

    /** `outsize` has grown by halves and is below max_size, or it is at its final value. */
    ghost predicate Sized()
      reads this`out
    {
      || (IsGrowthSize(out.Length) && (maxSize == 0 || out.Length < maxSize))
      || (0 < maxSize <= LAST_SIZE && out.Length == maxSize + MAX_OP_SIZE + 1)
    }

    /** No iteration so far has left so many bytes that the next size wraps. */
    ghost predicate SizeInRange()
      reads this`outpos
    {
      outpos + MAX_OP_SIZE < LAST_SIZE || 0 < maxSize <= LAST_SIZE
    }

    /**
     At most eight bytes are written for five of the target: in the worst case a run of one
     literal takes two and a copy of four takes six.
     */
    ghost predicate Bounded()
      reads this`outpos, this`pos, this`inscnt
    {
      5 * outpos <= 8 * pos + 5 * |Header(base, target)| + if inscnt <= 0 then 0 else 5 - 3 * inscnt
    }

    /** Against an index without entries the output is one literal run after another. */
    ghost predicate LiteralsOnly()
      reads this`outpos, this`pos, this`inscnt, this`msize
    {
      |base| <= WINDOW ==>
        msize == 0 && inscnt == pos % 0x7f && outpos == |Header(base, target)| + pos + Runs(pos)
    }

    /** What holds at the head of the main loop. */
    ghost predicate AtLoopHead()
      reads this, out, index.entries, index.hash
    {
      && Inputs() && Output() && CarriedMatch() && HashExact() && Sized() && SizeInRange()
      && outpos + 8 <= out.Length && Bounded() && LiteralsOnly()
    }

    // ------------------------------------------------------- buffer access

    method Put(b: byte)
      requires outpos < out.Length
      modifies this`outpos, out
      ensures outpos == old(outpos) + 1
      ensures Emitted() == old(Emitted()) + [b]
    {
      out[outpos] := b;
      outpos := outpos + 1;
    }

    /** Fills in the count slot of the pending run; a count of -1 puts 255 behind the end of what is written. */
    method PatchCount()
      requires outpos <= out.Length && -1 <= inscnt < outpos && (inscnt == -1 ==> outpos < out.Length)
      modifies out
      ensures inscnt < 0 ==> Emitted() == old(Emitted())
      ensures 0 <= inscnt < 0x100 ==> Emitted() == old(Emitted())[outpos - inscnt - 1 := inscnt as byte]
    {
      out[outpos - inscnt - 1] := inscnt % 0x100;
    }

    // ----------------------------------------------------------- beginning

    constructor (index: Index, target: seq<byte>, maxSize: nat)
      requires index.Valid() && 0 < |index.src| < 0x8000_0000 && 0 < |target| < 0x8000_0000
      ensures this.index == index && this.base == index.src && this.target == target && this.maxSize == maxSize
      ensures fresh(out) && outpos == 0 && Sized() && out.Length >= MAX_OP_SIZE + 2
    {
      this.index, this.base, this.target, this.maxSize := index, index.src, target, maxSize;
      var outsize := 8192;
      if maxSize != 0 && outsize >= maxSize {
        outsize := maxSize + MAX_OP_SIZE + 1;
      }
      out := new byte[outsize];
      outpos, pos, inscnt, moff, msize, val := 0, 0, 0, 0, 0, 0;
      FirstSize();
    }

    /** One of the two size headers. */
    method PutVarint(n: nat)
      requires outpos + |EncodeVarint(n)| <= out.Length
      modifies this`outpos, out
      ensures outpos == old(outpos) + |EncodeVarint(n)|
      ensures Emitted() == old(Emitted()) + EncodeVarint(n)
    {
      var i := n;
      while i >= 0x80
        invariant outpos + |EncodeVarint(i)| == old(outpos) + |EncodeVarint(n)| <= out.Length
        invariant Emitted() + EncodeVarint(i) == old(Emitted()) + EncodeVarint(n)
      {
        ghost var o := Emitted();
        Put(i % 0x80 + 0x80);
        assert o + EncodeVarint(i) == o + [i % 0x80 + 0x80] + EncodeVarint(i / 0x80);
        i := i / 0x80;
      }
      Put(i);
    }

    /** Both headers, then up to sixteen literals that start the hash. */
    method Begin()
      requires Inputs() && outpos == 0 && Sized() && out.Length >= MAX_OP_SIZE + 2
      modifies this`outpos, this`pos, this`inscnt, this`moff, this`msize, this`val, out
      ensures AtLoopHead() && out == old(out) && Started()
    {
      hide Index.Valid, EncodeVarint, Encoded, IsGrowthSize, WindowHash;
      hide Encoder.Bounded, Encoder.LiteralsOnly, Encoder.SizeInRange;
      VarintLength(|base|);
      VarintLength(|target|);
      assert Emitted() == [];
      PutVarint(|base|);
      PutVarint(|target|);
      assert Emitted() == Header(base, target);
      StartEncoded(base, target);
      pos, inscnt, moff, msize := 0, 0, 0, 0;
      ghost var header := outpos;
      FirstWindow();
      assert header == |Header(base, target)| <= 10;
      FirstRunBounds(header);
      StartedWith(header);
    }

    /** Only the first literals have been written, behind the headers and a count slot. */
    ghost predicate Started()
      reads this, out
    {
      && outpos <= out.Length && pos == inscnt == (if |target| < WINDOW then |target| else WINDOW) && msize == 0
      && |Emitted()| == |Header(base, target)| + 1 + pos && Header(base, target) <= Emitted()
    }

    lemma StartedWith(header: nat)
      requires Output() && header == |Header(base, target)| && outpos == header + 1 + pos && msize == 0
      requires pos == inscnt == if |target| < WINDOW then |target| else WINDOW
      ensures Started()
    {
    }

    /** What `Begin` leaves: the headers, one count slot and the first literals. */
    lemma FirstRunBounds(header: nat)
      requires header == |Header(base, target)| <= 10 && outpos == header + 1 + pos && msize == 0
      requires 0 < pos == inscnt <= WINDOW
      ensures Bounded() && LiteralsOnly() && SizeInRange()
    {
    }

    /** The first run before its count slot is known to be an instruction. */
    ghost predicate FirstRun(o: seq<byte>, i: nat)
      requires outpos <= out.Length
      reads this, out
    {
      if i == 0 then |Emitted()| == |o| + 1 && Emitted()[..|o|] == o
      else Encoded(base, target, Emitted(), i, i)
    }

    method FirstLiteral(ghost o: seq<byte>)
      requires outpos < out.Length && Encoded(base, target, o, 0, 0) && FirstRun(o, pos) && pos < |target|
      modifies this`outpos, this`pos, this`val, out
      ensures pos == old(pos) + 1 && outpos == old(outpos) + 1 && FirstRun(o, pos)
      ensures val == Push(old(val), ToOctet(target[old(pos)]))
    {
      hide Encoded, Push, ToOctet;
      if pos == 0 {
        assert Emitted() == o + [Emitted()[|o|]];
        OpenRun(base, target, o, 0, Emitted()[|o|]);
      } else {
        ExtendRun(base, target, Emitted(), pos, pos);
      }
      Put(target[pos]);
      val := Push(val, ToOctet(target[pos]));
      pos := pos + 1;
    }

    /** Up to sixteen literals behind a count slot, hashed as they are written. */
    method FirstWindow()
      requires outpos + 25 <= out.Length && pos == 0 && 0 < |target|
      requires Encoded(base, target, Emitted(), 0, 0)
      modifies this`outpos, this`pos, this`inscnt, this`val, out
      ensures pos == inscnt == (if |target| < WINDOW then |target| else WINDOW)
      ensures outpos == old(outpos) + 1 + pos
      ensures Encoded(base, target, Emitted(), pos, inscnt)
      ensures val == WindowHash(target[..pos])
    {
      hide Encoded, Push, ToOctet;
      ghost var o := Emitted();
      outpos := outpos + 1;  // the count slot
      val := 0;
      var i := 0;
      while i < WINDOW && pos < |target|
        invariant pos == i <= WINDOW && i <= |target| && outpos == old(outpos) + 1 + i
        invariant FirstRun(o, i)
        invariant val == WindowHash(target[..i])
      {
        FoldAppend(0, target[..i], target[i]);
        assert target[..i] + [target[i]] == target[..i + 1];
        FirstLiteral(o);
        i := i + 1;
      }
      inscnt := i;
    }

    // ------------------------------------------------------------ literals

    /** The literal branch: one byte of the target goes to the pending run. */
    method EmitLiteral()
      requires Output() && pos < |target| && outpos + 2 <= out.Length
      modifies this`outpos, this`pos, this`inscnt, this`msize, out
      ensures Output() && pos == old(pos) + 1 && msize == 0
      ensures outpos == old(outpos) + if old(inscnt) == 0 then 2 else 1
      ensures inscnt == if old(inscnt) + 1 == 0x7f then 0 else old(inscnt) + 1
    {
      hide Encoded;
      EncodedBounds(base, target, Emitted(), pos, inscnt);
      ghost var o := Emitted();
      if inscnt == 0 {
        OpenRun(base, target, o, pos, out[outpos]);
        outpos := outpos + 1;
        assert Emitted() == o + [out[outpos - 1]];
      } else {
        ExtendRun(base, target, o, pos, inscnt);
      }
      Put(target[pos]);
      pos := pos + 1;
      inscnt := inscnt + 1;
      if inscnt == 0x7f {
        EncodedBounds(base, target, Emitted(), pos, inscnt);
        CloseRun(base, target, Emitted(), pos, inscnt);
        PatchCount();
        inscnt := 0;
      }
      msize := 0;
    }

    // -------------------------------------------------------------- copies

    /** One byte back: a pending literal is un-written, with the count slot if it was the last. */
    method UnwriteOne()
      requires outpos <= out.Length && 0 < inscnt < 0x7f && Encoded(base, target, Emitted(), pos, inscnt)
      requires Match(base, target, moff, pos, msize) && 0 < moff && 0 < pos && base[moff - 1] == target[pos - 1]
      requires Bounded()
      modifies this`outpos, this`pos, this`inscnt, this`moff, this`msize
      ensures Bounded()
      ensures pos == old(pos) - 1 && moff == old(moff) - 1 && msize == old(msize) + 1
      ensures inscnt == old(inscnt) - 1 || (old(inscnt) == 1 && inscnt == -1)
      ensures outpos == old(outpos) - if old(inscnt) == 1 then 2 else 1
      ensures Emitted() == old(Emitted())[..outpos]
      ensures inscnt != 0 && Match(base, target, moff, pos, msize)
      ensures Encoded(base, target, Emitted(), pos, if inscnt == -1 then 0 else inscnt)
    {
      hide Encoded;
      EncodedBounds(base, target, Emitted(), pos, inscnt);
      MatchBackwards(base, target, moff, pos, msize);
      ghost var o := Emitted();
      msize := msize + 1;
      moff := moff - 1;
      pos := pos - 1;
      outpos := outpos - 1;
      inscnt := inscnt - 1;
      if inscnt != 0 {
        UnwriteLiteral(base, target, o, old(pos), old(inscnt));
        assert Emitted() == o[..|o| - 1];
        return;
      }
      UnwriteRun(base, target, o, old(pos));
      outpos := outpos - 1;  // the slot goes with its last literal
      inscnt := inscnt - 1;  // no run is pending, which -1 stands for
      assert Emitted() == o[..|o| - 2];
    }

    /** The literals still pending while they are un-written; -1 stands for none. */
    ghost function Pending(): int
      reads this`inscnt
    {
      if inscnt == -1 then 0 else inscnt
    }

    /** The loop that extends the match backwards over the pending literals. */
    method UnwriteLiterals()
      requires Output() && 0 < inscnt && Match(base, target, moff, pos, msize) && outpos < out.Length && Bounded()
      modifies this`outpos, this`pos, this`inscnt, this`moff, this`msize
      ensures -1 <= inscnt < 0x7f && inscnt != 0 && outpos <= old(outpos) && Bounded()
      ensures Encoded(base, target, Emitted(), pos, Pending()) && Match(base, target, moff, pos, msize)
      ensures pos + msize == old(pos + msize) && moff + msize == old(moff + msize)
      ensures old(moff <= |base| && pos <= |target|)
      ensures old(pos) - pos == old(inscnt) - Pending() == CommonSuffix(base, old(moff), target, old(pos), old(inscnt))
      ensures outpos == old(outpos) - (old(pos) - pos) - if inscnt == -1 then 1 else 0
      ensures Emitted() == old(Emitted())[..outpos]
    {
      hide Encoded, Match, CommonSuffix, Encoder.Bounded;
      EncodedBounds(base, target, Emitted(), pos, inscnt);
      MatchBounds(base, target, moff, pos, msize);
      ghost var o, k := Emitted(), CommonSuffix(base, moff, target, pos, inscnt);
      while inscnt > 0 && moff > 0 && base[moff - 1] == target[pos - 1]
        invariant -1 <= inscnt < 0x7f && inscnt != 0 && outpos <= old(outpos) && Bounded()
        invariant Encoded(base, target, Emitted(), pos, Pending()) && Match(base, target, moff, pos, msize)
        invariant pos + msize == old(pos + msize) && moff + msize == old(moff + msize)
        invariant moff <= |base| && pos <= |target| && Pending() <= pos
        invariant old(pos) - pos == old(inscnt) - Pending()
        invariant k == old(pos) - pos + CommonSuffix(base, moff, target, pos, Pending())
        invariant outpos == old(outpos) - (old(pos) - pos) - if inscnt == -1 then 1 else 0
        invariant |o| == old(outpos) && Emitted() == o[..outpos]
        decreases moff
      {
        CommonSuffixStep(base, moff, target, pos, inscnt);
        UnwriteOne();
        EncodedBounds(base, target, Emitted(), pos, Pending());
        MatchBounds(base, target, moff, pos, msize);
      }
      CommonSuffixEnds(base, moff, target, pos, Pending());
    }

    /** Extends the match backwards over the pending literals, then closes what is left of them. */
    method ExtendBackwards()
      requires Output() && 0 < inscnt && Match(base, target, moff, pos, msize) && outpos < out.Length && Bounded()
      modifies this`outpos, this`pos, this`inscnt, this`moff, this`msize, out
      ensures Output() && inscnt == 0 && Match(base, target, moff, pos, msize)
      ensures 5 * outpos <= 8 * pos + 5 * |Header(base, target)| + 2 && outpos <= old(outpos)
      ensures pos + msize == old(pos + msize) && moff + msize == old(moff + msize)
      ensures old(inscnt < |Emitted()| && moff <= |base| && pos <= |target|)
      ensures old(pos) - pos == CommonSuffix(base, old(moff), target, old(pos), old(inscnt))
      ensures Emitted() == Shortened(old(Emitted()), old(inscnt), old(pos) - pos)
    {
      hide Encoded, Header, Match, CommonSuffix;
      EncodedBounds(base, target, Emitted(), pos, inscnt);
      UnwriteLiterals();
      EncodedBounds(base, target, Emitted(), pos, Pending());
      if inscnt > 0 {
        CloseRun(base, target, Emitted(), pos, inscnt);
      }
      PatchCount();
      inscnt := 0;
    }

    /** One byte of an operand, left out when it is zero; returns its flag. */
    method PutOperand(part: byte, ghost v: nat, ghost width: nat) returns (bit: nat)
      requires outpos + (if part == 0 then 0 else 1) <= out.Length
      requires width > 0 && part == v % 0x100
      modifies this`outpos, out
      ensures bit == (if part == 0 then 0 else 1) && outpos == old(outpos) + bit
      ensures Emitted() + EncodeField(v / 0x100, width - 1).bytes == old(Emitted()) + EncodeField(v, width).bytes
      ensures EncodeField(v, width).flags == bit + 2 * EncodeField(v / 0x100, width - 1).flags
    {
      ghost var o := Emitted();
      bit := 0;
      if part != 0 {
        Put(part);
        bit := 1;
        assert o + [part] + EncodeField(v / 0x100, width - 1).bytes == o + EncodeField(v, width).bytes;
      }
    }

    /** The offset bytes of a copy; returns flags 0x01 to 0x08. */
    method PutOffset() returns (flags: nat)
      requires outpos + 4 <= out.Length && moff < 0x1_0000_0000
      modifies this`outpos, out
      ensures flags == EncodeField(moff, 4).flags
      ensures outpos <= old(outpos) + 4 && Emitted() == old(Emitted()) + EncodeField(moff, 4).bytes
    {
      hide EncodeField;
      Digits(moff);
      var b0 := PutOperand(moff % 0x100, moff, 4);
      var b1 := PutOperand(moff / 0x100 % 0x100, moff / 0x100, 3);
      var b2 := PutOperand(moff / 0x1_0000 % 0x100, moff / 0x100 / 0x100, 2);
      var b3 := PutOperand(moff / 0x100_0000 % 0x100, moff / 0x100 / 0x100 / 0x100, 1);
      EmptyField(moff / 0x100 / 0x100 / 0x100 / 0x100);
      flags := b0 + 2 * b1 + 4 * b2 + 8 * b3;
    }

    /** The size bytes of a copy; returns flags 0x10 and 0x20, shifted down. */
    method PutSize() returns (flags: nat)
      requires outpos + 2 <= out.Length && 0 < msize <= 0x10000
      modifies this`outpos, out
      ensures flags == EncodeField(msize % 0x10000, 3).flags
      ensures outpos <= old(outpos) + if msize < 0x100 then 1 else 2
      ensures Emitted() == old(Emitted()) + EncodeField(msize % 0x10000, 3).bytes
    {
      hide EncodeField;
      ghost var v := msize % 0x10000;
      var b0 := PutOperand(msize % 0x100, v, 3);
      var b1 := PutOperand(msize / 0x100 % 0x100, v / 0x100, 2);
      assert v / 0x100 / 0x100 == 0;
      ZeroField(1);
      flags := b0 + 2 * b1;
    }

    /** The copy instruction, its command byte back-patched once the flags are known. */
    method PutCopy()
      requires outpos + 7 <= out.Length && moff < 0x1_0000_0000 && 0 < msize <= 0x10000
      modifies this`outpos, out
      ensures outpos <= old(outpos) + if msize < 0x100 then 6 else 7
      ensures Emitted() == old(Emitted()) + EncodeCopy(moff, msize)
    {
      hide EncodeField, EncodeCopy;
      ghost var o := Emitted();
      var op := outpos;
      outpos := outpos + 1;
      ghost var slot := out[op];
      assert Emitted() == o + [slot];
      var offsetFlags := PutOffset();
      var sizeFlags := PutSize();
      FlagBounds(moff, msize);
      ghost var operands := EncodeField(moff, 4).bytes + EncodeField(msize % 0x10000, 3).bytes;
      assert Emitted() == o + [slot] + operands;
      out[op] := 0x80 + offsetFlags + 0x10 * sizeFlags;
      assert Emitted() == o + [out[op]] + operands;
      CopyLayout(o, moff, msize);
    }

    /** One copy instruction for the front of the match; the rest is carried over. */
    method CopyFront()
      requires Output() && inscnt == 0 && Match(base, target, moff, pos, msize) && 4 <= msize && outpos + 7 <= out.Length
      requires |base| < 0x8000_0000 && 5 * outpos <= 8 * pos + 5 * |Header(base, target)| + 2
      modifies this`outpos, this`pos, this`moff, this`msize, out
      ensures Output() && CarriedMatch() && Bounded()
      ensures outpos <= old(outpos) + 7 && old(moff) < 0x1_0000_0000
      ensures var n := if old(msize) < 0x10000 then old(msize) else 0x10000;
              && pos == old(pos) + n && moff == old(moff) + n && msize == old(msize) - n
              && Emitted() == old(Emitted()) + EncodeCopy(old(moff), n)
    {
      hide Encoded, Match, EncodeCopy, Header;
      MatchBounds(base, target, moff, pos, msize);
      var left := if msize < 0x10000 then 0 else msize - 0x10000;
      MatchSplit(base, target, moff, pos, msize, msize - left);
      msize := msize - left;
      AppendCopy(base, target, Emitted(), pos, moff, msize);
      PutCopy();
      pos := pos + msize;
      moff := moff + msize;
      msize := left;
    }

    /**
     The output `o0` has lost the literals that the match, once extended backwards, covers as
     well; what is left of the run is closed, and a copy of up to 64 KiB follows. The rest of
     the extended match is carried over.
     */
    ghost predicate CopyEmitted(o0: seq<byte>, pos0: nat, inscnt0: int, moff0: nat, msize0: nat)
      reads this, out
    {
      && 0 <= inscnt0 < 0x7f && (inscnt0 > 0 ==> inscnt0 < |o0|)
      && moff0 <= |base| < 0x8000_0000 && pos0 <= |target| && 0 < msize0 && outpos <= out.Length && inscnt == 0
      && var k := CommonSuffix(base, moff0, target, pos0, inscnt0);
         var n := if msize0 + k < 0x10000 then msize0 + k else 0x10000;
         && Emitted() == Shortened(o0, inscnt0, k) + EncodeCopy(moff0 - k, n)
         && pos == pos0 - k + n && moff == moff0 - k + n && msize == msize0 + k - n
    }

    /** The copy branch: emits up to 64 KiB of the match and carries the rest over. */
    method EmitCopy()
      requires Output() && Match(base, target, moff, pos, msize) && 4 <= msize && outpos + 8 <= out.Length
      requires |base| < 0x8000_0000 && WINDOW <= pos && Bounded()
      modifies this`outpos, this`pos, this`inscnt, this`moff, this`msize, this`val, out
      ensures Output() && CarriedMatch() && HashExact() && Bounded() && inscnt == 0
      ensures outpos <= old(outpos) + 7
      ensures CopyEmitted(old(Emitted()), old(pos), old(inscnt), old(moff), old(msize))
    {
      hide Encoded, Match, WindowHash, Header, EncodeCopy, CommonSuffix;
      EncodedBounds(base, target, Emitted(), pos, inscnt);
      MatchBounds(base, target, moff, pos, msize);
      if inscnt > 0 {
        ExtendBackwards();
      } else {
        CommonSuffixEnds(base, moff, target, pos, 0);
      }
      CopyFront();
      OutputBounds();
      if msize < 4096 {
        Rehash();
      }
    }

    /** Recomputes the hash of the sixteen bytes before `data`. */
    method Rehash()
      requires WINDOW <= pos <= |target|
      modifies this`val
      ensures val == WindowHash(target[pos - WINDOW..pos])
    {
      hide Push, ToOctet;
      ghost var w := target[pos - WINDOW..pos];
      val := 0;
      for j := 0 to WINDOW
        invariant val == WindowHash(w[..j])
      {
        FoldAppend(0, w[..j], w[j]);
        assert w[..j] + [w[j]] == w[..j + 1];
        val := Push(val, ToOctet(target[pos - WINDOW + j]));
      }
      assert w[..WINDOW] == w;
    }

    // ------------------------------------------------------- the main loop

    /** `val` moves on to the sixteen bytes that end with `*data`. */
    method SlideHash()
      requires HashExact() && pos < |target| && msize < 4096
      modifies this`val
      ensures val == WindowHash(target[pos + 1 - WINDOW..pos + 1])
    {
      hide WindowHash, Slide;
      ghost var w := target[pos - WINDOW..pos];
      SlideIsExact(w, target[pos]);
      assert w[1..] + [target[pos]] == target[pos + 1 - WINDOW..pos + 1];
      val := Slide(val, ToOctet(target[pos - WINDOW]), ToOctet(target[pos]));
    }

    /** Slides the hash by one byte and looks for a better match. */
    method FindMatch()
      requires Inputs() && CarriedMatch() && HashExact() && pos < |target|
      modifies this`val, this`moff, this`msize
      ensures msize > 0 ==> Match(base, target, moff, pos, msize)
      ensures msize < 4 ==> val == WindowHash(target[pos + 1 - WINDOW..pos + 1])
      ensures old(msize) <= msize
      ensures msize < 4096 ==> msize == LongestAt(pos, old(msize))
      ensures |base| <= WINDOW ==> msize == old(msize)
      ensures Chosen(pos, old(moff), old(msize), moff, msize)
    {
      hide Match, WindowHash, FoundAmong, NoneLonger, LongestOf, Index.Valid, Index.Candidates;
      if msize < 4096 {
        SlideHash();
        moff, msize := Search(index, target, pos, val, moff, msize);
        ghost var ws := index.Candidates(val);
        FoundMatches(ws, base, target, pos, val, old(moff), old(msize), moff, msize);
        if msize < 4096 {
          SearchIsMaximum(ws, base, target, pos, val, old(moff), old(msize), moff, msize);
        }
        if |base| <= WINDOW {
          NoCandidates(index, val);
          NothingFound(base, target, pos, val, old(moff), old(msize), moff, msize);
        }
      }
    }

    /**
     The longest match that starts at the source positions indexed under the hash of the
     target's window ending at `p`, or `carried` if that is longer.
     */
    ghost function LongestAt(p: nat, carried: nat): nat
      requires Inputs() && WINDOW <= p + 1 <= |target|
      reads index.entries, index.hash
    {
      var v := WindowHash(target[p + 1 - WINDOW..p + 1]);
      LongestOf(index.Candidates(v), base, target, p, v, carried)
    }

    /**
     The match the search settles for at `p`: the carried one if that is 4096 bytes long or
     nothing on the chain beats it, else the first of the longest, or the first of 4096 bytes.
     */
    ghost predicate Chosen(p: nat, moff0: nat, msize0: nat, at: nat, found: nat)
      requires Inputs() && WINDOW <= p + 1 <= |target|
      reads index.entries, index.hash
    {
      if 4096 <= msize0 then at == moff0 && found == msize0
      else
        var v := WindowHash(target[p + 1 - WINDOW..p + 1]);
        && FoundAmong(index.Candidates(v), base, target, p, v, moff0, msize0, at, found)
        && (found < 4096 ==> NoneLonger(index.Candidates(v), base, target, p, v, found))
    }

    /**
     One iteration of the main loop, up to the buffer check. The match chosen is copied if it
     has four bytes or more, extended backwards over the pending literals as far as possible;
     else a literal comes out. Short of 4096 bytes it is the longest on offer.
     */
    method Iterate() returns (ghost at: nat, ghost found: nat)
      requires AtLoopHead() && pos < |target|
      modifies this`outpos, this`pos, this`inscnt, this`moff, this`msize, this`val, out
      ensures Inputs() && Output() && CarriedMatch() && HashExact() && Sized()
      ensures outpos <= out.Length - 1 && Bounded() && LiteralsOnly()
      ensures Chosen(old(pos), old(moff), old(msize), at, found)
      ensures 4096 <= found || found == LongestAt(old(pos), old(msize))
      ensures found < 4 ==> pos == old(pos) + 1 && msize == 0
      ensures 4 <= found ==> old(pos) + 4 <= pos && pos + msize == old(pos) + found
      ensures 4 <= found ==> CopyEmitted(old(Emitted()), old(pos), old(inscnt), at, found)
    {
      hide Encoded, Match, WindowHash, LongestOf, Header, Index.Candidates, Encoder.Chosen, FoundAmong, NoneLonger;
      FindMatch();
      at, found := moff, msize;
      if msize < 4 {
        RunsStep(pos);
        EmitLiteral();
        OutputBounds();
      } else {
        EmitCopy();
      }
    }

    lemma OutputBounds()
      requires Output()
      ensures pos <= |target|
    {
    }

    /**
     The buffer check at the end of an iteration: `full` is the C `break`. `wraps` means that
     the product wraps and the new size comes out below what has been written already.
     */
    method GrowIfNeeded() returns (full: bool, wraps: bool)
      requires Output() && Sized() && outpos <= out.Length - 1
      modifies this`out
      ensures full <==> 0 < maxSize < outpos
      ensures full ==> !wraps && maxSize <= LAST_SIZE
      ensures wraps <==> LAST_SIZE <= outpos + MAX_OP_SIZE && (maxSize == 0 || LAST_SIZE < maxSize)
      ensures wraps ==> Grown(out.Length) < outpos
      ensures full || wraps ==> out == old(out)
      ensures outpos <= out.Length && Emitted() == old(Emitted())
      ensures !full && !wraps ==> Output() && Sized() && SizeInRange() && outpos + MAX_OP_SIZE < out.Length
      ensures out == old(out) || fresh(out)
    {
      hide Encoded, IsGrowthSize;
      full, wraps := false, false;
      if IsGrowthSize(out.Length) {
        NextSize(out.Length);
      }
      if outpos < out.Length - MAX_OP_SIZE {
        return;
      }
      var outsize := Grown(out.Length);
      if maxSize != 0 && outsize >= maxSize {
        outsize := maxSize + MAX_OP_SIZE + 1;
      }
      if maxSize != 0 && outpos > maxSize {
        full := true;
        return;
      }
      if outsize < outpos {
        wraps := true;
        return;
      }
      var bigger := new byte[outsize];
      forall i | 0 <= i < outpos {
        bigger[i] := out[i];
      }
      assert bigger[..outpos] == Emitted();
      out := bigger;
    }

    /** One round of the main loop: an iteration, then the buffer check. */
    method Advance() returns (full: bool, wraps: bool)
      requires AtLoopHead() && pos < |target|
      modifies this`outpos, this`pos, this`inscnt, this`moff, this`msize, this`val, this`out, out
      ensures out == old(out) || fresh(out)
      ensures Bounded() && LiteralsOnly() && old(pos) < pos <= |target| && outpos <= out.Length
      ensures IsCopyOfBase() && old(pos == WINDOW && Started()) ==> pos == |target| && CopiedWhole()
      ensures full <==> 0 < maxSize < outpos
      ensures full ==> !wraps && maxSize <= LAST_SIZE
      ensures wraps <==> LAST_SIZE <= outpos + MAX_OP_SIZE && (maxSize == 0 || LAST_SIZE < maxSize)
      ensures !full && !wraps ==> AtLoopHead() && outpos + MAX_OP_SIZE < out.Length
    {
      hide Encoded, Match, WindowHash, Index.Valid, IsGrowthSize, Header, EncodeCopy, Encoder.Started;
      hide Encoder.CarriedMatch, Encoder.HashExact, Encoder.Bounded, Encoder.LiteralsOnly;
      IterateOnce();
      full, wraps := GrowIfNeeded();
      OutputBounds();
    }

    /** An iteration, and what it comes to when the target is the base. */
    method IterateOnce()
      requires AtLoopHead() && pos < |target|
      modifies this`outpos, this`pos, this`inscnt, this`moff, this`msize, this`val, out
      ensures Inputs() && Output() && CarriedMatch() && HashExact() && Sized()
      ensures outpos <= out.Length - 1 && Bounded() && LiteralsOnly() && old(pos) < pos
      ensures IsCopyOfBase() && old(pos == WINDOW && Started()) ==> pos == |target| && CopiedWhole()
    {
      ghost var started, o, moff0 := pos == WINDOW && Started(), Emitted(), moff;
      if started {
        StartedFacts();
      }
      hide Encoded, Match, WindowHash, Index.Valid, IsGrowthSize, Header, EncodeCopy, CommonSuffix;
      hide Encoder.CarriedMatch, Encoder.HashExact, Encoder.Bounded, Encoder.LiteralsOnly, Encoder.Started;
      hide Encoder.Chosen, Encoder.CopyEmitted, Encoder.LongestAt, Encoder.Sized, Encoder.CopiedWhole;
      ghost var at, found := Iterate();
      if IsCopyOfBase() && started {
        WholeCopy(o, moff0, at, found);
      }
    }

    lemma StartedFacts()
      requires Started() && pos == WINDOW
      ensures inscnt == WINDOW && msize == 0
      ensures |Emitted()| == |Header(base, target)| + 1 + WINDOW && Header(base, target) <= Emitted()
    {
    }

    /** The first iteration on the base itself. */
    lemma WholeCopy(o: seq<byte>, moff0: nat, at: nat, found: nat)
      requires Inputs() && IsCopyOfBase() && Chosen(WINDOW, moff0, 0, at, found)
      requires 4 <= found ==> CopyEmitted(o, WINDOW, WINDOW, at, found)
      requires |o| == |Header(base, target)| + 1 + WINDOW && Header(base, target) <= o
      ensures pos == |target| && CopiedWhole()
    {
      hide Index.Valid, Header, EncodeCopy, CommonSuffix, Encoder.Chosen, Encoder.CopyEmitted, Encoder.CopiedWhole;
      CopyChosen(moff0, at, found);
      WholeCopyEmitted(o);
    }

    /** The main loop; `finished` means it ran to the end of the target. */
    method Run() returns (finished: bool, wraps: bool)
      requires AtLoopHead() && Started()
      modifies this`outpos, this`pos, this`inscnt, this`moff, this`msize, this`val, this`out, out
      ensures fresh(out) || out == old(out)
      ensures IsCopyOfBase() ==> CopiedWhole()
      ensures Bounded() && LiteralsOnly() && pos <= |target|
      ensures finished ==> !wraps && Output() && pos == |target| && outpos < out.Length && SizeInRange()
      ensures !finished && !wraps ==> 0 < maxSize < outpos && maxSize <= LAST_SIZE
      ensures wraps ==> LAST_SIZE <= outpos + MAX_OP_SIZE && (maxSize == 0 || LAST_SIZE < maxSize)
    {
      hide Encoded, Match, WindowHash, Index.Valid, IsGrowthSize, Header, EncodeCopy;
      hide Encoder.CarriedMatch, Encoder.HashExact, Encoder.Bounded, Encoder.LiteralsOnly, Encoder.CopiedWhole;
      finished, wraps := true, false;
      OutputBounds();
      while pos < |target|
        invariant AtLoopHead() && finished && !wraps && pos <= |target|
        invariant fresh(out) || out == old(out)
        invariant IsCopyOfBase() ==> (pos == WINDOW && Started()) || (pos == |target| && CopiedWhole())
        decreases |target| - pos
      {
        var full;
        full, wraps := Advance();
        if full || wraps {
          finished := false;
          return;
        }
      }
    }

    /** The target is the base itself, long enough to be found and short enough for one copy. */
    ghost predicate IsCopyOfBase() {
      base == target && 20 <= |base| <= 0x10000
    }

    /** The output is one copy of the whole base. */
    ghost predicate CopiedWhole()
      reads this, out
    {
      && 0 < |base| <= 0x10000 && outpos <= out.Length && inscnt == 0
      && Emitted() == Header(base, target) + EncodeCopy(0, |base|)
    }

    /** The window in front of the first literal to come is the first block of the base. */
    lemma CopyChosen(moff0: nat, at: nat, found: nat)
      requires Inputs() && IsCopyOfBase() && Chosen(WINDOW, moff0, 0, at, found)
      ensures at == WINDOW && found == |base| - WINDOW
    {
      var v := BlockHash(base, 0);
      var ws := index.Candidates(v);
      FirstBlockIsHead(index);
      CandidatesAscend(index, v);
      hide Index.Valid, Index.Candidates, BlockHash, MatchLength, IsWindow;
      BaseAgrees(base);
      FirstWins(ws, base, v, moff0, at, found);
    }

    /** Un-writing all sixteen literals leaves the headers, and the copy starts at the beginning. */
    lemma WholeCopyEmitted(o: seq<byte>)
      requires IsCopyOfBase() && CopyEmitted(o, WINDOW, WINDOW, WINDOW, |base| - WINDOW)
      requires |o| == |Header(base, target)| + 1 + WINDOW && Header(base, target) <= o
      ensures pos == |target| && CopiedWhole()
    {
      hide CommonSuffix, Header, EncodeCopy;
      CommonSuffixIsLongest(base, WINDOW, target, WINDOW, WINDOW);
      ghost var hdr := Header(base, target);
      assert o[..|o| - WINDOW - 1] == hdr;
    }

    /** Closes the last literal run. */
    method Finish()
      requires Output() && outpos < out.Length
      modifies this`inscnt, out
      ensures Output() && inscnt == 0 && (old(inscnt) == 0 ==> Emitted() == old(Emitted()))
    {
      hide Encoded;
      EncodedBounds(base, target, Emitted(), pos, inscnt);
      if inscnt != 0 {
        CloseRun(base, target, Emitted(), pos, inscnt);
        PatchCount();
        inscnt := 0;
      }
    }
  }

  /** What is equal to the base matches to its end. */
  lemma BaseAgrees(base: seq<byte>)
    requires WINDOW <= |base|
    ensures MatchLength(base, WINDOW, base, WINDOW) == |base| - WINDOW
  {
    MatchIsNoLonger(base, WINDOW, base, WINDOW, |base| - WINDOW);
  }

  /** The first candidate, matching to the end of the base, is not beaten by a later one. */
  lemma FirstWins(ws: seq<Window>, base: seq<byte>, v: Hash, moff0: nat, at: nat, found: nat)
    requires 20 <= |base| && ws != [] && ws[0] == Window(WINDOW, v) && Ascending(ws)
    requires MatchLength(base, WINDOW, base, WINDOW) == |base| - WINDOW
    requires FoundAmong(ws, base, base, WINDOW, v, moff0, 0, at, found)
    requires found < 4096 ==> NoneLonger(ws, base, base, WINDOW, v, found)
    ensures at == WINDOW && found == |base| - WINDOW
  {
    assert found != 0;
    var i: nat :| FoundAt(ws, i, base, base, WINDOW, v, at, found);
    assert i == 0;
  }

  // ------------------------------------------------- the size of the buffer

  /** Half as much again, in unsigned 32-bit arithmetic. */
  function Grown(outsize: nat): nat {
    outsize * 3 % 0x1_0000_0000 / 2
  }

  /** The new size falls short of the old one exactly when the product leaves 32 bits. */
  lemma GrownIsLarger(outsize: nat)
    ensures outsize <= 0x5555_5555 ==> Grown(outsize) == outsize + outsize / 2
    ensures 0x5555_5555 < outsize < 0x1_0000_0000 ==> Grown(outsize) < outsize
  {
  }

  /** The sizes a buffer of 8192 bytes grows through. */
  function GrowthSize(k: nat): nat {
    if k == 0 then 8192 else HalfMore(GrowthSize(k - 1))
  }

  const LAST_STEP := 30

  /** The last of them whose successor can be computed in 32 bits. */
  const LAST_SIZE := 1_570_824_171

  ghost predicate IsGrowthSize(n: nat) {
    exists k: nat :: k <= LAST_STEP && n == GrowthSize(k)
  }

  lemma {:induction false} GrowthIsMonotone(j: nat, k: nat)
    requires j <= k
    ensures GrowthSize(j) <= GrowthSize(k)
    decreases k - j
  {
    if j < k {
      GrowthIsMonotone(j + 1, k);
    }
  }

  function HalfMore(n: nat): nat {
    n + n / 2
  }

  lemma FiveSizesOn(k: nat, n: nat)
    requires GrowthSize(k) == n
    ensures GrowthSize(k + 4) == HalfMore(HalfMore(HalfMore(HalfMore(n))))
    ensures GrowthSize(k + 5) == HalfMore(GrowthSize(k + 4))
  {
    SizeAfter(k);
    SizeAfter(k + 1);
    SizeAfter(k + 2);
    SizeAfter(k + 3);
    SizeAfter(k + 4);
    hide GrowthSize, HalfMore;
  }

  lemma SizeAfter(k: nat)
    ensures GrowthSize(k + 1) == HalfMore(GrowthSize(k))
  {
  }

  lemma SmallestSize()
    ensures GrowthSize(0) == 8192
  {
  }

  lemma FirstSizes()
    ensures GrowthSize(5) == 62_208
  {
    hide GrowthSize;
    SmallestSize();
    SizeAfter(0);
    assert GrowthSize(1) == 12_288;
    SizeAfter(1);
    assert GrowthSize(2) == 18_432;
    SizeAfter(2);
    SizeAfter(3);
    SizeAfter(4);
  }

  lemma MiddleSizes()
    ensures GrowthSize(10) == 472_392
  {
    hide GrowthSize;
    FirstSizes();
    FiveSizesOn(5, 62_208);
  }

  lemma LargerSizes()
    ensures GrowthSize(20) == 27_240_495
  {
    hide GrowthSize;
    MiddleSizes();
    FiveSizesOn(10, 472_392);
    FiveSizesOn(15, 3_587_226);
  }

  lemma LastSizes()
    ensures GrowthSize(LAST_STEP - 1) == 1_047_216_114 && GrowthSize(LAST_STEP) == LAST_SIZE
  {
    hide GrowthSize;
    LargerSizes();
    FiveSizesOn(20, 27_240_495);
    FiveSizesOn(25, 206_857_504);
  }

  lemma FirstSize()
    ensures IsGrowthSize(8192)
  {
    hide GrowthSize;
    SmallestSize();
  }

  /** Growth goes on up to the last size and wraps there. */
  lemma NextSize(n: nat)
    requires IsGrowthSize(n)
    ensures 8192 <= n <= LAST_SIZE
    ensures n != LAST_SIZE ==> n <= 1_047_216_114 && Grown(n) == n + n / 2 && IsGrowthSize(Grown(n))
  {
    hide GrowthSize, Grown;
    var k: nat :| k <= LAST_STEP && n == GrowthSize(k);
    LastSizes();
    SmallestSize();
    GrowthIsMonotone(0, k);
    GrowthIsMonotone(k, LAST_STEP);
    if k < LAST_STEP {
      GrowthIsMonotone(k, LAST_STEP - 1);
      SizeAfter(k);
      GrownIsLarger(n);
      assert Grown(n) == GrowthSize(k + 1);
    }
  }

  // ------------------------------------------------------ literals only

  /** How many literal runs `n` bytes take. */
  function Runs(n: nat): nat {
    (n + 0x7e) / 0x7f
  }

  lemma RunsStep(n: nat)
    ensures Runs(n + 1) == Runs(n) + if n % 0x7f == 0 then 1 else 0
    ensures (n + 1) % 0x7f == if n % 0x7f == 0x7e then 0 else n % 0x7f + 1
  {
  }

  lemma RunsGrow(m: nat, n: nat)
    requires m <= n
    ensures Runs(m) <= Runs(n)
  {
  }

  /** An index without entries offers nothing. */
  lemma NoCandidates(index: Index, val: Hash)
    requires index.Valid() && |index.src| <= WINDOW
    ensures index.Candidates(val) == []
  {
  }

  lemma NothingFound(base: seq<byte>, target: seq<byte>, pos: nat, val: Hash,
                     moff0: nat, msize0: nat, moff: nat, msize: nat)
    requires pos <= |target| && FoundAmong([], base, target, pos, val, moff0, msize0, moff, msize)
    ensures msize == msize0
  {
  }

  lemma FoundMatches(ws: seq<Window>, base: seq<byte>, target: seq<byte>, pos: nat, val: Hash,
                     moff0: nat, msize0: nat, moff: nat, msize: nat)
    requires pos <= |target| && FoundAmong(ws, base, target, pos, val, moff0, msize0, moff, msize)
    ensures (moff == moff0 && msize == msize0) || Match(base, target, moff, pos, msize)
  {
    if !(moff == moff0 && msize == msize0) {
      MatchLengthMatches(base, moff, target, pos);
    }
  }

  lemma MatchBounds(base: seq<byte>, target: seq<byte>, moff: nat, pos: nat, msize: nat)
    requires Match(base, target, moff, pos, msize)
    ensures moff + msize <= |base| && pos + msize <= |target|
  {
  }

  lemma CopyLayout(o: seq<byte>, moff: nat, msize: nat)
    requires moff < 0x1_0000_0000 && 0 < msize <= 0x10000
    ensures var a, b := EncodeField(moff, 4), EncodeField(msize % 0x10000, 3);
            var command := 0x80 + a.flags + 0x10 * b.flags;
            command < 0x100 && o + EncodeCopy(moff, msize) == o + [command] + (a.bytes + b.bytes)
  {
    hide EncodeField;
    FlagBounds(moff, msize);
  }

  lemma Digits(v: nat)
    ensures v / 0x1_0000 == v / 0x100 / 0x100
    ensures v / 0x100_0000 == v / 0x100 / 0x100 / 0x100
    ensures v < 0x1_0000_0000 ==> v / 0x100 / 0x100 / 0x100 / 0x100 == 0
  {
  }

  lemma EmptyField(v: nat)
    ensures EncodeField(v, 0) == Field(0, [])
  {
  }

  lemma ZeroField(width: nat)
    ensures EncodeField(0, width) == Field(0, [])
  {
  }

  lemma FlagBounds(moff: nat, msize: nat)
    ensures EncodeField(moff, 4).flags < 0x10 && EncodeField(msize % 0x10000, 3).flags < 8
  {
    FlagsFit(moff, 4);
    FlagsFit(msize % 0x10000, 3);
    hide EncodeField;
    assert Pow2(4) == 16 && Pow2(3) == 8;
  }

  /** The size of a delta that consists of literals only. */
  function LiteralSize(base: seq<byte>, target: seq<byte>): nat {
    |Header(base, target)| + |target| + Runs(|target|)
  }

  /** The output grows until the next buffer size wraps. */
  predicate WrapsAt(size: nat, maxSize: nat) {
    LAST_SIZE <= size + MAX_OP_SIZE && (maxSize == 0 || LAST_SIZE < maxSize)
  }

  lemma HeaderBounds(base: seq<byte>, target: seq<byte>)
    requires |base| < 0x8000_0000 && |target| < 0x8000_0000
    ensures |Header(base, target)| <= 10
  {
    VarintLength(|base|);
    VarintLength(|target|);
  }

  /**
   `git_delta_create`. A delta that is returned decodes to the target, respects max_size and
   has at most eight bytes for five of the target, plus ten. Without a max_size there is always
   one, unless the buffer size wraps. Against a source too short for an index the outcome is
   known exactly.
   */
  method Create(index: Index, target: seq<byte>, maxSize: nat) returns (result: Outcome)
    requires index.Valid() && 0 < |index.src| < 0x8000_0000 && |target| < 0x8000_0000
    ensures result.Delta? ==> result.size <= result.out.Length
    ensures result.Delta? ==> ApplySpec(index.src, result.out[..result.size]) == Some(target)
    ensures result.Delta? ==> target != [] && 5 * result.size <= 8 * |target| + 52
    ensures result.Delta? && maxSize != 0 ==> result.size <= maxSize
    ensures result.Null? ==> target == [] || 0 < 5 * maxSize < 8 * |target| + 52
    ensures result.SizeWraps? ==> 981_765_079 < |target| && (maxSize == 0 || LAST_SIZE < maxSize)
    ensures target != [] && |index.src| <= WINDOW ==>
              && (result.SizeWraps? <==> WrapsAt(LiteralSize(index.src, target), maxSize))
              && (result.Null? <==> 0 < maxSize < LiteralSize(index.src, target) && !result.SizeWraps?)
              && (result.Delta? ==> result.size == LiteralSize(index.src, target))
    ensures index.src == target && 20 <= |target| <= 0x10000 ==>
              var whole := Header(target, target) + EncodeCopy(0, |target|);
              maxSize == 0 || |whole| <= maxSize ==> result.Delta? && result.out[..result.size] == whole
  {
    hide Encoded, Index.Valid, ApplySpec, Header, Runs, EncodeCopy;
    if target == [] {
      return Null;
    }
    HeaderBounds(index.src, target);
    var e := new Encoder(index, target, maxSize);
    e.Begin();
    var finished, wraps := e.Run();
    RunsGrow(e.pos, |target|);
    if wraps {
      return SizeWraps;
    }
    if finished {
      e.Finish();
      FinishedDecodes(index.src, target, e.Emitted());
    }
    if maxSize != 0 && e.outpos > maxSize {
      return Null;
    }
    result := Delta(e.out, e.outpos);
  }
}
