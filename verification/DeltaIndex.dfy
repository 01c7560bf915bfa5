/**
 The source index of `delta.c`: every 16-byte block of the source is hashed into
 chained buckets, runs of equal blocks are merged, and long chains are culled.
 Entries live in one block allocated up front, so a C pointer to an entry is an
 index here and NULL is -1.
 */
module DeltaIndex {
  import opened Common
  import opened RabinHash
  import opened HashBuckets

  const HASH_LIMIT := 64
  const NIL := -1

  /** The source position of a window's last byte, and the hash of the window. */
  datatype Window = Window(ptr: nat, val: Hash)

  datatype Entry = Entry(window: Window, next: int)

  // --------------------------------------------- what the fill loop collects

  /** The hash of block `k`: the sixteen bytes ending at position 16(k+1). */
  function BlockHash(src: seq<byte>, k: nat): Hash
    requires WINDOW * (k + 1) < |src|
  {
    WindowHash(src[WINDOW * k + 1..WINDOW * (k + 1) + 1])
  }

  /** Blocks n-1 down to k, a run of equal neighbours represented by its lowest block. */
  function Collect(src: seq<byte>, n: nat, k: nat): (ws: seq<Window>)
    requires k <= n && WINDOW * n < |src|
    decreases n - k
  {
    if k == n then []
    else AddWindow(Collect(src, n, k + 1), Window(WINDOW * (k + 1), BlockHash(src, k)))
  }

  /** Keeps the lowest of consecutive identical blocks. */
  function AddWindow(ws: seq<Window>, w: Window): seq<Window> {
    if ws != [] && ws[|ws| - 1].val == w.val then ws[..|ws| - 1] + [w] else ws + [w]
  }

  ghost predicate IsWindow(src: seq<byte>, w: Window) {
    WINDOW <= w.ptr < |src| && w.val == WindowHash(src[w.ptr - WINDOW + 1..w.ptr + 1])
  }

  ghost predicate Descending(ws: seq<Window>) {
    forall i, j :: 0 <= i < j < |ws| ==> ws[j].ptr < ws[i].ptr
  }

  lemma BlockIsWindow(src: seq<byte>, k: nat)
    requires WINDOW * (k + 1) < |src|
    ensures IsWindow(src, Window(WINDOW * (k + 1), BlockHash(src, k)))
  {
  }

  ghost predicate Sound(src: seq<byte>, ws: seq<Window>, low: nat) {
    && (forall i :: 0 <= i < |ws| ==> IsWindow(src, ws[i]) && low < ws[i].ptr)
    && Descending(ws)
  }

  lemma NothingIsSound(src: seq<byte>, low: nat)
    ensures Sound(src, [], low)
  {
  }

  lemma AddKeepsSound(src: seq<byte>, ws: seq<Window>, w: Window, low: nat)
    requires Sound(src, ws, w.ptr) && IsWindow(src, w) && low < w.ptr
    ensures Sound(src, AddWindow(ws, w), low)
  {
    hide IsWindow;
  }

  /** Collected windows are genuine, in range, and at strictly decreasing positions. */
  lemma {:induction false} CollectIsSound(src: seq<byte>, n: nat, k: nat)
    requires k <= n && WINDOW * n < |src|
    ensures |Collect(src, n, k)| <= n - k
    ensures Sound(src, Collect(src, n, k), WINDOW * k)
    decreases n - k
  {
    hide IsWindow, BlockHash, Sound;
    if k == n {
      NothingIsSound(src, WINDOW * k);
    } else {
      CollectIsSound(src, n, k + 1);
      BlockIsWindow(src, k);
      AddKeepsSound(src, Collect(src, n, k + 1), Window(WINDOW * (k + 1), BlockHash(src, k)), WINDOW * k);
    }
  }

  lemma AddKeepsRepresentative(ws: seq<Window>, w: Window, i: nat) returns (j: nat)
    requires i < |ws| && w.ptr <= ws[i].ptr
    ensures j < |AddWindow(ws, w)|
    ensures AddWindow(ws, w)[j].val == ws[i].val && AddWindow(ws, w)[j].ptr <= ws[i].ptr
  {
    j := i;
  }

  /** Every block is represented by a window of the same hash at or below it. */
  lemma {:induction false} CollectIsComplete(src: seq<byte>, n: nat, k: nat, block: nat) returns (i: nat)
    requires k <= block < n && WINDOW * n < |src|
    ensures i < |Collect(src, n, k)|
    ensures Collect(src, n, k)[i].val == BlockHash(src, block)
    ensures Collect(src, n, k)[i].ptr <= WINDOW * (block + 1)
    decreases n - k
  {
    hide BlockHash, IsWindow, AddWindow, Collect, Descending;
    var ws, w := Collect(src, n, k + 1), Window(WINDOW * (k + 1), BlockHash(src, k));
    CollectStep(src, n, k);
    if k == block {
      LastIsAdded(ws, w);
      i := |AddWindow(ws, w)| - 1;
    } else {
      i := CollectIsComplete(src, n, k + 1, block);
      CollectIsSound(src, n, k + 1);
      i := AddKeepsRepresentative(ws, w, i);
    }
  }

  lemma CollectStep(src: seq<byte>, n: nat, k: nat)
    requires k < n && WINDOW * n < |src|
    ensures Collect(src, n, k) == AddWindow(Collect(src, n, k + 1), BlockWindow(src, k))
  {
  }

  lemma LastIsAdded(ws: seq<Window>, w: Window)
    ensures AddWindow(ws, w) != [] && AddWindow(ws, w)[|AddWindow(ws, w)| - 1] == w
  {
  }

  /** What block `k` is indexed as, if it is. */
  function BlockWindow(src: seq<byte>, k: nat): Window
    requires WINDOW * (k + 1) < |src|
  {
    Window(WINDOW * (k + 1), BlockHash(src, k))
  }

  /** `w` is the lowest of a run of blocks with equal hashes, from block `k` on. */
  ghost predicate IsRunStart(src: seq<byte>, n: nat, k: nat, w: Window)
    requires WINDOW * n < |src|
  {
    exists j: nat :: k <= j < n && w == BlockWindow(src, j) && (j == k || BlockHash(src, j - 1) != w.val)
  }

  /** Exactly the run starts are collected. */
  lemma {:induction false} CollectIsExact(src: seq<byte>, n: nat, k: nat, w: Window)
    requires k <= n && WINDOW * n < |src|
    ensures w in Collect(src, n, k) <==> IsRunStart(src, n, k, w)
    decreases n - k
  {
    hide *;
    LastCollected(src, n, k);
    if k == n {
      NoRunStart(src, n, w);
    } else {
      CollectIsExact(src, n, k + 1, w);
      CollectDescends(src, n, k + 1);
      CollectStep(src, n, k);
      AddWindowExactly(Collect(src, n, k + 1), BlockWindow(src, k), w);
      LastCollected(src, n, k + 1);
      RunStartStep(src, n, k, w);
    }
  }

  lemma NoRunStart(src: seq<byte>, n: nat, w: Window)
    requires WINDOW * n < |src|
    ensures !IsRunStart(src, n, n, w)
  {
  }

  lemma CollectDescends(src: seq<byte>, n: nat, k: nat)
    requires k <= n && WINDOW * n < |src|
    ensures Descending(Collect(src, n, k))
  {
    CollectIsSound(src, n, k);
  }

  lemma AddWindowExactly(ws: seq<Window>, x: Window, w: Window)
    requires Descending(ws)
    ensures w in AddWindow(ws, x) <==>
            w == x || (w in ws && !(ws[|ws| - 1].val == x.val && w == ws[|ws| - 1]))
  {
  }

  lemma LastCollected(src: seq<byte>, n: nat, k: nat)
    requires k <= n && WINDOW * n < |src|
    ensures k == n ==> Collect(src, n, k) == []
    ensures k < n ==> Collect(src, n, k) != [] && Collect(src, n, k)[|Collect(src, n, k)| - 1] == BlockWindow(src, k)
  {
    hide BlockHash, AddWindow;
    if k < n {
      LastIsAdded(Collect(src, n, k + 1), BlockWindow(src, k));
    }
  }

  /** Going down by one block: it starts a run, and the run above it may now start lower. */
  lemma RunStartStep(src: seq<byte>, n: nat, k: nat, w: Window)
    requires k < n && WINDOW * n < |src|
    ensures IsRunStart(src, n, k, w) <==>
            || w == BlockWindow(src, k)
            || (IsRunStart(src, n, k + 1, w)
                && !(k + 1 < n && BlockWindow(src, k + 1).val == BlockWindow(src, k).val && w == BlockWindow(src, k + 1)))
  {
    hide BlockHash;
    if w == BlockWindow(src, k) {
      assert IsRunStart(src, n, k, w);
    } else if IsRunStart(src, n, k, w) {
      var j: nat :| k <= j < n && w == BlockWindow(src, j) && (j == k || BlockHash(src, j - 1) != w.val);
      assert IsRunStart(src, n, k + 1, w);
    } else if IsRunStart(src, n, k + 1, w) {
      var j: nat :| k + 1 <= j < n && w == BlockWindow(src, j) && (j == k + 1 || BlockHash(src, j - 1) != w.val);
      assert j == k + 1;
    }
  }

  // ------------------------------------------------------------------ chains

  /** Links lead to entries added earlier, so every chain ends. */
  ghost predicate Linked(es: seq<Entry>) {
    forall i :: 0 <= i < |es| ==> NIL <= es[i].next < i
  }

  /** The entries met when following `next` from `h`. */
  ghost function Chain(es: seq<Entry>, h: int): (c: seq<nat>)
    requires Linked(es) && NIL <= h < |es|
    ensures forall i :: 0 <= i < |c| ==> c[i] <= h
    ensures forall i, j :: 0 <= i < j < |c| ==> c[j] < c[i]
    decreases h
  {
    if h == NIL then [] else [h] + Chain(es, es[h].next)
  }

  lemma {:induction false} ChainAfterAppend(es: seq<Entry>, e: Entry, h: int)
    requires Linked(es) && NIL <= h < |es| && Linked(es + [e])
    ensures Chain(es + [e], h) == Chain(es, h)
    decreases h
  {
    if h != NIL {
      ChainAfterAppend(es, e, es[h].next);
    }
  }

  /** Relinking an entry leaves alone the chains that do not pass through it. */
  lemma {:induction false} ChainElsewhere(es: seq<Entry>, k: nat, next: int, h: int)
    requires Linked(es) && NIL <= h < |es| && k < |es| && NIL <= next < k
    requires k !in Chain(es, h)
    ensures Linked(es[k := es[k].(next := next)])
    ensures Chain(es[k := es[k].(next := next)], h) == Chain(es, h)
    decreases h
  {
    if h != NIL {
      assert Chain(es, h)[0] == h;
      assert forall x :: x in Chain(es, es[h].next) ==> x in Chain(es, h);
      ChainElsewhere(es, k, next, es[h].next);
    }
  }

  lemma ChainUnfold(es: seq<Entry>, h: int)
    requires Linked(es) && 0 <= h < |es|
    ensures Chain(es, h) == [h] + Chain(es, es[h].next)
  {
  }

  /** Relinking an entry cuts its own chain behind it. */
  lemma {:induction false} ChainRelinked(es: seq<Entry>, k: nat, next: int, h: int, before: seq<nat>)
    requires Linked(es) && NIL <= h < |es| && k < |es| && NIL <= next < k
    requires Chain(es, h) == before + Chain(es, k)
    ensures Linked(es[k := es[k].(next := next)])
    ensures Chain(es[k := es[k].(next := next)], h) == before + [k] + Chain(es, next)
    decreases h
  {
    hide Chain;
    var es' := es[k := es[k].(next := next)];
    ChainUnfold(es, k);
    assert h != NIL by { ChainEnds(es); }
    ChainUnfold(es, h);
    ChainUnfold(es', h);
    if before == [] {
      assert Chain(es, h)[0] == k;
      ChainElsewhere(es, k, next, next);
    } else {
      ChainBehindHead(es, k, h, before);
      ChainRelinked(es, k, next, es[h].next, before[1..]);
      assert before + [k] + Chain(es, next) == [h] + (before[1..] + [k] + Chain(es, next));
    }
  }

  lemma ChainBehindHead(es: seq<Entry>, k: nat, h: nat, before: seq<nat>)
    requires Linked(es) && h < |es| && k < |es| && before != []
    requires Chain(es, h) == before + Chain(es, k)
    ensures before[0] == h && k < h && Chain(es, es[h].next) == before[1..] + Chain(es, k)
  {
    hide Chain;
    ChainUnfold(es, k);
    ChainUnfold(es, h);
    var c := Chain(es, h);
    assert c[0] == before[0] == h && c[|before|] == k;
    assert c[1..] == before[1..] + Chain(es, k);
  }

  lemma ChainEnds(es: seq<Entry>)
    requires Linked(es)
    ensures Chain(es, NIL) == []
  {
  }

  // ----------------------------------------------------- what a chain holds

  /** The entries of bucket `b` among the first `n`, latest first. */
  ghost function Members(ws: seq<Window>, hsize: nat, b: nat, n: nat): (c: seq<nat>)
    requires hsize > 0 && n <= |ws|
    ensures forall i :: 0 <= i < |c| ==> c[i] < n && Bucket(ws[c[i]].val, hsize) == b
    ensures forall i, j :: 0 <= i < j < |c| ==> c[j] < c[i]
  {
    if n == 0 then []
    else if Bucket(ws[n - 1].val, hsize) == b then [n - 1] + Members(ws, hsize, b, n - 1)
    else Members(ws, hsize, b, n - 1)
  }

  lemma {:induction false} MembersIsComplete(ws: seq<Window>, hsize: nat, n: nat, i: nat)
    requires hsize > 0 && i < n <= |ws|
    ensures i in Members(ws, hsize, Bucket(ws[i].val, hsize), n)
  {
    if i < n - 1 {
      MembersIsComplete(ws, hsize, n - 1, i);
    }
  }

  lemma {:induction false} MembersDependOnVals(ws: seq<Window>, ws': seq<Window>, hsize: nat, b: nat, n: nat)
    requires hsize > 0 && n <= |ws| && n <= |ws'|
    requires forall i :: 0 <= i < n ==> ws[i].val == ws'[i].val
    ensures Members(ws, hsize, b, n) == Members(ws', hsize, b, n)
  {
    if n > 0 {
      MembersDependOnVals(ws, ws', hsize, b, n - 1);
    }
  }

  /** Every `skip`-th element from the first on; with `skip` zero the first one only. */
  function Thin(c: seq<nat>, skip: nat): (r: seq<nat>)
  {
    if c == [] then []
    else if skip == 0 || skip >= |c| then [c[0]]
    else [c[0]] + Thin(c[skip..], skip)
  }

  /** What culling leaves of a bucket. */
  function Culled(c: seq<nat>): seq<nat> {
    if |c| < HASH_LIMIT then c else Thin(c, SkipOf(|c|))
  }

  lemma {:induction false} ThinIsSubsequence(c: seq<nat>, skip: nat)
    ensures IsSubsequence(Thin(c, skip), c)
    ensures c != [] ==> Thin(c, skip) != [] && Thin(c, skip)[0] == c[0]
    decreases |c|
  {
    if c == [] {
    } else if skip == 0 || skip >= |c| {
      assert Thin(c, skip)[1..] == [];
    } else {
      ThinIsSubsequence(c[skip..], skip);
      SubsequenceOfSuffix(Thin(c[skip..], skip), c[1..], skip - 1);
      assert c[1..][skip - 1..] == c[skip..];
      assert Thin(c, skip)[1..] == Thin(c[skip..], skip);
    }
  }

  function Times(i: nat, skip: nat): nat {
    i * skip
  }

  lemma TimesStep(i: nat, skip: nat)
    ensures Times(0, skip) == 0 && Times(i + 1, skip) == Times(i, skip) + skip
  {
    Successor(skip, i);
  }

  /** Thinning keeps position 0, `skip`, 2 `skip` and so on, and nothing else. */
  lemma {:induction false} ThinAt(c: seq<nat>, skip: nat, i: nat)
    requires skip > 0
    ensures i < |Thin(c, skip)| <==> Times(i, skip) < |c|
    ensures i < |Thin(c, skip)| ==> Thin(c, skip)[i] == c[Times(i, skip)]
    decreases i
  {
    hide Times;
    TimesStep(0, skip);
    if 0 < i {
      TimesStep(i - 1, skip);
      if skip < |c| {
        ThinAt(c[skip..], skip, i - 1);
      }
    }
  }

  lemma {:induction false} ThinByOne(c: seq<nat>)
    ensures Thin(c, 1) == c
  {
    if |c| > 1 {
      ThinByOne(c[1..]);
    }
  }

  /** How many entries culling can leave at the most. */
  const CULLED_LIMIT := 4 * HASH_LIMIT - 1

  /** The step of the culling loop for a bucket of `n` entries. */
  function SkipOf(n: nat): nat {
    n / HASH_LIMIT / 2
  }

  lemma SkipBounds(n: nat)
    requires n >= 2 * HASH_LIMIT
    ensures SkipOf(n) > 0 && Times(CULLED_LIMIT, SkipOf(n)) >= n
    ensures SkipOf(n) == 1 <==> n < 4 * HASH_LIMIT
    ensures SkipOf(n) > 1 ==> Times(n - 1, SkipOf(n)) >= n
  {
    assert n < 128 * SkipOf(n) + 128;
    if SkipOf(n) > 1 {
      NextMultiple(n - 1, 1, SkipOf(n));
    }
  }

  /** The lengths of chains that culling leaves complete. */
  predicate LosesNothing(n: nat) {
    n < HASH_LIMIT || 2 * HASH_LIMIT <= n < 4 * HASH_LIMIT
  }

  /** What culling leaves of a chain of any length; it is never more than 255 entries. */
  lemma CulledExactly(c: seq<nat>)
    ensures |Culled(c)| <= CULLED_LIMIT
    ensures Culled(c) == c <==> LosesNothing(|c|)
    ensures HASH_LIMIT <= |c| < 2 * HASH_LIMIT ==> Culled(c) == [c[0]]
    ensures 2 * HASH_LIMIT <= |c| ==> ThinnedBy(c, Culled(c), SkipOf(|c|))
  {
    if |c| >= 2 * HASH_LIMIT {
      var skip := SkipOf(|c|);
      SkipBounds(|c|);
      ThinByOne(c);
      hide Times, Thin, SkipOf;
      ThinIsThinned(c, skip);
      ThinAt(c, skip, CULLED_LIMIT);
      ThinAt(c, skip, |c| - 1);
    }
  }

  lemma ThinIsThinned(c: seq<nat>, skip: nat)
    requires skip > 0
    ensures ThinnedBy(c, Thin(c, skip), skip)
  {
    hide Times, Thin;
    forall i: nat
      ensures i < |Thin(c, skip)| <==> Times(i, skip) < |c|
      ensures i < |Thin(c, skip)| ==> Thin(c, skip)[i] == c[Times(i, skip)]
    {
      ThinAt(c, skip, i);
    }
  }

  /** `r` consists of every `skip`-th element of `c`. */
  ghost predicate ThinnedBy(c: seq<nat>, r: seq<nat>, skip: nat) {
    forall i: nat :: (i < |r| <==> Times(i, skip) < |c|) && (i < |r| ==> r[i] == c[Times(i, skip)])
  }

  lemma {:induction false} SubsequenceOfSuffix(sub: seq<nat>, c: seq<nat>, k: nat)
    requires k <= |c| && IsSubsequence(sub, c[k..])
    ensures IsSubsequence(sub, c)
    decreases k
  {
    if k == 0 {
      assert c[0..] == c;
    } else {
      assert c[1..][k - 1..] == c[k..];
      SubsequenceOfSuffix(sub, c[1..], k - 1);
    }
  }

  // ------------------------------------------------------ filling the index

  ghost function Windows(es: seq<Entry>): (ws: seq<Window>)
    ensures |ws| == |es| && forall i :: 0 <= i < |es| ==> ws[i] == es[i].window
  {
    seq(|es|, i requires 0 <= i < |es| => es[i].window)
  }

  /** The chain of bucket `b` lists exactly the bucket's entries, latest first. */
  ghost predicate FullBucket(es: seq<Entry>, hsize: nat, b: nat, head: int, count: nat)
    requires Linked(es) && hsize > 0
  {
    && NIL <= head < |es|
    && Chain(es, head) == Members(Windows(es), hsize, b, |es|)
    && count == |Chain(es, head)|
  }

  ghost predicate Filled(es: seq<Entry>, hsize: nat, heads: seq<int>, counts: seq<nat>) {
    && Linked(es) && |heads| == |counts| == hsize > 0
    && forall b :: 0 <= b < hsize ==> FullBucket(es, hsize, b, heads[b], counts[b])
  }

  lemma {:induction false} ChainDependsOnLinks(es: seq<Entry>, es': seq<Entry>, h: int)
    requires Linked(es) && Linked(es') && NIL <= h < |es| && |es| == |es'|
    requires forall i :: 0 <= i < |es| ==> es[i].next == es'[i].next
    ensures Chain(es, h) == Chain(es', h)
    decreases h
  {
    if h != NIL {
      ChainDependsOnLinks(es, es', es[h].next);
    }
  }

  /** Moving the last entry down to an equal window below it changes no chain. */
  lemma MergeKeepsFilled(es: seq<Entry>, hsize: nat, heads: seq<int>, counts: seq<nat>, w: Window)
    requires Filled(es, hsize, heads, counts) && es != [] && es[|es| - 1].window.val == w.val
    ensures var es' := es[|es| - 1 := es[|es| - 1].(window := w)];
            Filled(es', hsize, heads, counts) && Windows(es') == Windows(es)[..|es| - 1] + [w]
  {
    var es' := es[|es| - 1 := es[|es| - 1].(window := w)];
    assert Windows(es') == Windows(es)[..|es| - 1] + [w];
    forall b | 0 <= b < hsize
      ensures FullBucket(es', hsize, b, heads[b], counts[b])
    {
      MergeKeepsBucket(es, es', hsize, b, heads[b], counts[b]);
    }
  }

  lemma MergeKeepsBucket(es: seq<Entry>, es': seq<Entry>, hsize: nat, b: nat, head: int, count: nat)
    requires Linked(es) && Linked(es') && |es| == |es'| && hsize > 0 && FullBucket(es, hsize, b, head, count)
    requires forall i :: 0 <= i < |es| ==> es[i].next == es'[i].next && es[i].window.val == es'[i].window.val
    ensures FullBucket(es', hsize, b, head, count)
  {
    ChainDependsOnLinks(es, es', head);
    MembersDependOnVals(Windows(es), Windows(es'), hsize, b, |es|);
  }

  /** Prepending a new entry to its bucket. */
  lemma AddKeepsFilled(es: seq<Entry>, hsize: nat, heads: seq<int>, counts: seq<nat>, w: Window)
    requires Filled(es, hsize, heads, counts)
    ensures var b := Bucket(w.val, hsize);
            Filled(es + [Entry(w, heads[b])], hsize, heads[b := |es|], counts[b := counts[b] + 1])
    ensures Windows(es + [Entry(w, heads[Bucket(w.val, hsize)])]) == Windows(es) + [w]
  {
    var own := Bucket(w.val, hsize);
    var es' := es + [Entry(w, heads[own])];
    assert FullBucket(es, hsize, own, heads[own], counts[own]);
    assert Linked(es');
    forall b | 0 <= b < hsize
      ensures FullBucket(es', hsize, b, if b == own then |es| else heads[b],
                         if b == own then counts[b] + 1 else counts[b])
    {
      assert FullBucket(es, hsize, b, heads[b], counts[b]);
      AddKeepsBucket(es, Entry(w, heads[own]), hsize, b, heads[b], counts[b]);
    }
  }

  lemma AddKeepsBucket(es: seq<Entry>, e: Entry, hsize: nat, b: nat, head: int, count: nat)
    requires Linked(es) && Linked(es + [e]) && hsize > 0 && FullBucket(es, hsize, b, head, count)
    requires Bucket(e.window.val, hsize) == b ==> e.next == head
    ensures Bucket(e.window.val, hsize) != b ==> FullBucket(es + [e], hsize, b, head, count)
    ensures Bucket(e.window.val, hsize) == b ==> FullBucket(es + [e], hsize, b, |es|, count + 1)
  {
    hide Bucket;
    ChainAfterAppend(es, e, head);
    MembersDependOnVals(Windows(es), Windows(es + [e]), hsize, b, |es|);
  }

  /** The hash of the block at `data`, from scratch. */
  method HashBlock(src: seq<byte>, k: nat) returns (val: Hash)
    requires WINDOW * (k + 1) < |src|
    ensures val == BlockHash(src, k)
  {
    hide Push, ToOctet;
    ghost var block := src[WINDOW * k + 1..WINDOW * (k + 1) + 1];
    val := 0;
    for i := 1 to WINDOW + 1
      invariant val == WindowHash(block[..i - 1])
    {
      val := Push(val, ToOctet(src[WINDOW * k + i]));
      FoldAppend(0, block[..i - 1], block[i - 1]);
      assert block[..i - 1] + [block[i - 1]] == block[..i];
    }
    assert block[..WINDOW] == block;
  }

  /** A block equal to the one above it: the last entry moves down. */
  method MergeEntry(entries: array<Entry>, used: nat, w: Window,
                    ghost hsize: nat, ghost heads: seq<int>, ghost counts: seq<nat>)
    requires 0 < used <= entries.Length && entries[used - 1].window.val == w.val
    requires Filled(entries[..used], hsize, heads, counts)
    modifies entries
    ensures Filled(entries[..used], hsize, heads, counts)
    ensures Windows(entries[..used]) == AddWindow(Windows(old(entries[..used])), w)
    ensures entries[used - 1].window.val == w.val
  {
    hide Filled;
    MergeKeepsFilled(entries[..used], hsize, heads, counts, w);
    ghost var es := entries[..used];
    entries[used - 1] := entries[used - 1].(window := w);
    assert entries[..used] == es[used - 1 := es[used - 1].(window := w)];
  }

  /** A new entry at the head of its bucket. */
  method AddEntry(entries: array<Entry>, used: nat, w: Window, hash: array<int>, hashCount: array<nat>)
    requires used < entries.Length && (used > 0 ==> entries[used - 1].window.val != w.val)
    requires Filled(entries[..used], hash.Length, hash[..], hashCount[..])
    modifies entries, hash, hashCount
    ensures Filled(entries[..used + 1], hash.Length, hash[..], hashCount[..])
    ensures Windows(entries[..used + 1]) == AddWindow(Windows(old(entries[..used])), w)
    ensures entries[used].window.val == w.val
  {
    hide Filled, Bucket;
    FilledShape(entries[..used], hash.Length, hash[..], hashCount[..]);
    AddKeepsFilled(entries[..used], hash.Length, hash[..], hashCount[..], w);
    ghost var es, heads, counts := entries[..used], hash[..], hashCount[..];
    var i := Bucket(w.val, hash.Length);
    entries[used] := Entry(w, hash[i]);
    hash[i] := used;
    hashCount[i] := hashCount[i] + 1;
    assert entries[..used + 1] == es + [Entry(w, heads[i])];
    assert hash[..] == heads[i := |es|];
    assert hashCount[..] == counts[i := counts[i] + 1];
  }

  /** The loop that populates the index, from the last block down to the first. */
  method Fill(src: seq<byte>, n: nat, entries: array<Entry>, hash: array<int>, hashCount: array<nat>)
    returns (used: nat)
    requires WINDOW * n < |src| && hash.Length > 0 && entries.Length == n
    requires forall b :: 0 <= b < hash.Length ==> hash[b] == NIL
    requires hashCount.Length == hash.Length && forall b :: 0 <= b < hash.Length ==> hashCount[b] == 0
    modifies entries, hash, hashCount
    ensures used <= n && Filled(entries[..used], hash.Length, hash[..], hashCount[..])
    ensures Windows(entries[..used]) == Collect(src, n, 0)
  {
    hide Filled, BlockHash, AddWindow;
    used := 0;
    NothingIsFilled(hash.Length, hash[..], hashCount[..]);
    assert entries[..0] == [];
    var prevVal: bv32 := 0xffff_ffff;
    var k := n;
    while k > 0
      invariant 0 <= k <= n && used <= n - k
      invariant Filled(entries[..used], hash.Length, hash[..], hashCount[..])
      invariant Windows(entries[..used]) == Collect(src, n, k)
      invariant prevVal == if used == 0 then 0xffff_ffff else entries[used - 1].window.val
    {
      k := k - 1;
      var val := HashBlock(src, k);
      var w := Window(WINDOW * (k + 1), val);
      if val == prevVal {
        MergeEntry(entries, used, w, hash.Length, hash[..], hashCount[..]);
      } else {
        prevVal := val;
        AddEntry(entries, used, w, hash, hashCount);
        used := used + 1;
      }
    }
  }

  lemma NothingIsFilled(hsize: nat, heads: seq<int>, counts: seq<nat>)
    requires |heads| == |counts| == hsize > 0
    requires forall b :: 0 <= b < hsize ==> heads[b] == NIL && counts[b] == 0
    ensures Filled([], hsize, heads, counts)
  {
  }

  lemma FilledShape(es: seq<Entry>, hsize: nat, heads: seq<int>, counts: seq<nat>)
    requires Filled(es, hsize, heads, counts)
    ensures |heads| == |counts| == hsize > 0
  {
  }

  // ---------------------------------------------------------------- culling

  /** Bucket `b` after the culling loop has passed it. */
  ghost predicate CulledBucket(es: seq<Entry>, hsize: nat, b: nat, head: int)
    requires Linked(es) && hsize > 0
  {
    && NIL <= head < |es|
    && Chain(es, head) == Culled(Members(Windows(es), hsize, b, |es|))
  }

  /** What the inner culling loop leaves of a chain when `skip` counts down from `left`. */
  ghost function Drop(c: seq<nat>, left: int): seq<nat> {
    if left <= 0 || left >= |c| then [] else c[left..]
  }

  /** The inner loop: steps `skip` entries on, or to the end of the chain. */
  method SkipAhead(entries: array<Entry>, ghost used: nat, keep: nat, count: int) returns (entry: int)
    requires keep < used <= entries.Length && Linked(entries[..used])
    requires count >= 0
    ensures NIL <= entry < keep
    ensures Chain(entries[..used], entry) == Drop(Chain(entries[..used], keep), count)
  {
    ghost var es := entries[..used];
    ghost var c := Chain(es, keep);
    var skip := count;
    entry := keep;
    ghost var taken := 0;
    while true
      invariant 0 <= taken < |c| && skip == count - taken
      invariant 0 <= entry <= keep && (taken > 0 ==> entry < keep)
      invariant Chain(es, entry) == c[taken..]
      invariant count > 0 ==> skip > 0
      decreases entry
    {
      assert Chain(es, entry)[0] == entry;
      assert Chain(es, entry)[1..] == c[taken + 1..];
      entry := entries[entry].next;
      taken := taken + 1;
      skip := skip - 1;
      if !(skip != 0 && entry != NIL) {
        break;
      }
    }
  }

  /** The outer culling loop of one bucket: relinks the kept entries in place. */
  method CullChain(entries: array<Entry>, ghost used: nat, head: nat, skip: nat)
    requires head < used <= entries.Length && Linked(entries[..used])
    modifies entries
    ensures Linked(entries[..used])
    ensures Windows(entries[..used]) == Windows(old(entries[..used]))
    ensures Chain(entries[..used], head) == Thin(Chain(old(entries[..used]), head), skip)
    ensures OthersUnchanged(old(entries[..used]), entries[..used], head)
  {
    hide Thin, OthersUnchanged;
    ghost var es0 := entries[..used];
    NothingCulledYet(es0, head);
    var entry: int := head;
    ghost var kept: seq<nat> := [];
    while true
      invariant NIL < entry < used && Linked(entries[..used])
      invariant Windows(entries[..used]) == Windows(es0)
      invariant Chain(entries[..used], head) == kept + Chain(entries[..used], entry)
      invariant Thin(Chain(es0, head), skip) == kept + Thin(Chain(entries[..used], entry), skip)
      invariant forall x :: x in Chain(entries[..used], entry) ==> x in Chain(es0, head)
      invariant OthersUnchanged(es0, entries[..used], head)
      decreases entry
    {
      ghost var es := entries[..used];
      var keep := entry;
      entry := SkipAhead(entries, used, keep, skip);
      entries[keep] := entries[keep].(next := entry);
      assert entries[..used] == es[keep := es[keep].(next := entry)];
      assert Chain(es, keep)[0] == keep;
      CullStep(es, head, keep, entry, kept);
      ThinnedSoFar(Chain(es, keep), skip, kept, Thin(Chain(es0, head), skip));
      OthersStep(es0, es, head, keep, entry);
      kept := kept + [keep as nat];
      if entry == NIL {
        break;
      }
    }
    assert Chain(entries[..used], NIL) == [];
    ThinOfNothing(skip);
  }

  lemma NothingCulledYet(es: seq<Entry>, head: nat)
    requires Linked(es) && head < |es|
    ensures OthersUnchanged(es, es, head)
  {
  }

  lemma ThinOfNothing(skip: nat)
    ensures Thin([], skip) == []
  {
  }

  ghost predicate Apart(c: seq<nat>, d: seq<nat>) {
    forall x :: x in c ==> x !in d
  }

  ghost predicate OthersUnchanged(es0: seq<Entry>, es: seq<Entry>, head: nat)
    requires Linked(es0) && Linked(es) && |es0| == |es| && head < |es0|
  {
    forall h :: NIL <= h < |es| && Apart(Chain(es0, h), Chain(es0, head)) ==> Chain(es, h) == Chain(es0, h)
  }

  /** Relinking `keep` moves the boundary between the thinned and the untouched part. */
  lemma CullStep(es: seq<Entry>, head: nat, keep: nat, next: int, kept: seq<nat>)
    requires Linked(es) && head < |es| && keep < |es| && NIL <= next < keep
    requires Chain(es, head) == kept + Chain(es, keep)
    ensures var es' := es[keep := es[keep].(next := next)];
            && Linked(es') && Windows(es') == Windows(es)
            && Chain(es', next) == Chain(es, next)
            && Chain(es', head) == kept + [keep] + Chain(es', next)
  {
    ChainRelinked(es, keep, next, head, kept);
    ChainElsewhere(es, keep, next, next);
  }

  lemma ThinnedSoFar(c: seq<nat>, skip: nat, kept: seq<nat>, whole: seq<nat>)
    requires c != [] && whole == kept + Thin(c, skip)
    ensures whole == kept + [c[0]] + Thin(Drop(c, skip), skip)
  {
  }

  lemma OthersStep(es0: seq<Entry>, es: seq<Entry>, head: nat, keep: nat, next: int)
    requires Linked(es0) && Linked(es) && |es0| == |es| && head < |es| && keep < |es| && NIL <= next < keep
    requires keep in Chain(es0, head)
    requires OthersUnchanged(es0, es, head)
    ensures var es' := es[keep := es[keep].(next := next)];
            Linked(es') && OthersUnchanged(es0, es', head)
  {
    var es' := es[keep := es[keep].(next := next)];
    forall h | NIL <= h < |es| && Apart(Chain(es0, h), Chain(es0, head))
      ensures Chain(es', h) == Chain(es0, h)
    {
      assert Chain(es, h) == Chain(es0, h);
      ChainElsewhere(es, keep, next, h);
    }
  }

  lemma {:induction false} ThinIsSubset(c: seq<nat>, skip: nat, x: nat)
    requires x in Thin(c, skip)
    ensures x in c
    decreases |c|
  {
    if skip != 0 && skip < |c| && x != c[0] {
      ThinIsSubset(c[skip..], skip, x);
    }
  }

  lemma CulledIsSubset(c: seq<nat>, x: nat)
    requires x in Culled(c)
    ensures x in c
  {
    if |c| >= HASH_LIMIT {
      ThinIsSubset(c, SkipOf(|c|), x);
    }
  }

  /** The state of bucket `b` while the culling loop stands at bucket `i`. */
  ghost predicate BucketAt(es: seq<Entry>, hsize: nat, b: nat, head: int, count: nat, i: nat)
    requires Linked(es) && hsize > 0
  {
    if b < i then CulledBucket(es, hsize, b, head) else FullBucket(es, hsize, b, head, count)
  }

  /** Every entry on the chain of bucket `b`, culled or not, hashes to `b`. */
  lemma ChainInBucket(es: seq<Entry>, hsize: nat, b: nat, head: int, count: nat, i: nat, x: nat)
    requires Linked(es) && hsize > 0 && BucketAt(es, hsize, b, head, count, i)
    requires x in Chain(es, head)
    ensures x < |es| && Bucket(es[x].window.val, hsize) == b
  {
    hide Bucket, Culled;
    var c := Members(Windows(es), hsize, b, |es|);
    if b < i {
      CulledIsSubset(c, x);
    }
    var j :| 0 <= j < |c| && c[j] == x;
  }

  /** Relinking inside one bucket keeps the others as they are. */
  lemma OtherBucketKept(es0: seq<Entry>, es: seq<Entry>, hsize: nat, own: nat, ownHead: nat, ownCount: nat,
                        b: nat, head: int, count: nat, i: nat)
    requires Linked(es0) && Linked(es) && |es0| == |es| && hsize > 0 && ownHead < |es|
    requires own != b && BucketAt(es0, hsize, own, ownHead, ownCount, i) && BucketAt(es0, hsize, b, head, count, i)
    requires OthersUnchanged(es0, es, ownHead) && Windows(es) == Windows(es0)
    ensures BucketAt(es, hsize, b, head, count, i)
  {
    hide Bucket, Members, Culled;
    forall x | x in Chain(es0, head)
      ensures x !in Chain(es0, ownHead)
    {
      ChainInBucket(es0, hsize, b, head, count, i, x);
      if x in Chain(es0, ownHead) {
        ChainInBucket(es0, hsize, own, ownHead, ownCount, i, x);
      }
    }
    assert Apart(Chain(es0, head), Chain(es0, ownHead));
  }

  ghost predicate AllBucketsAt(es: seq<Entry>, heads: seq<int>, counts: seq<nat>, i: nat) {
    && Linked(es) && |heads| == |counts| > 0
    && forall b :: 0 <= b < |heads| ==> BucketAt(es, |heads|, b, heads[b], counts[b], i)
  }

  /** One bucket of the culling loop. */
  method CullBucket(entries: array<Entry>, ghost used: nat, hash: array<int>, hashCount: array<nat>, i: nat)
    requires used <= entries.Length && i < hash.Length
    requires AllBucketsAt(entries[..used], hash[..], hashCount[..], i)
    modifies entries
    ensures AllBucketsAt(entries[..used], hash[..], hashCount[..], i + 1)
    ensures Windows(entries[..used]) == Windows(old(entries[..used]))
    ensures NIL <= hash[i] < used && |Chain(entries[..used], hash[i])| <= CULLED_LIMIT
  {
    hide Bucket, Members, Thin, ThinnedBy, LosesNothing;
    CulledExactly(Members(Windows(entries[..used]), hash.Length, i, used));
    ghost var es0 := entries[..used];
    assert BucketAt(es0, hash.Length, i, hash[i], hashCount[i], i);
    if hashCount[i] < HASH_LIMIT {
      assert BucketAt(es0, hash.Length, i, hash[i], hashCount[i], i + 1);
      return;
    }
    CullChain(entries, used, hash[i], hashCount[i] / HASH_LIMIT / 2);
    assert BucketAt(entries[..used], hash.Length, i, hash[i], hashCount[i], i + 1);
    forall b | 0 <= b < hash.Length && b != i
      ensures BucketAt(entries[..used], hash.Length, b, hash[b], hashCount[b], i + 1)
    {
      OtherBucketKept(es0, entries[..used], hash.Length, i, hash[i], hashCount[i], b, hash[b], hashCount[b], i);
    }
  }

  /** Number of blocks indexed, in the source's 32-bit arithmetic. */
  function BlockCount(size: nat): (n: nat)
    requires size > 0
    ensures WINDOW * n < size && (size < 0xffff_ffff ==> size <= WINDOW * (n + 1))
    ensures size >= 0xffff_ffff ==> n == 0xfff_ffff
  {
    if size >= 0xffff_ffff then 0xffff_fffe / WINDOW
    else (size - 1) % 0x1_0000_0000 / WINDOW
  }

  /** The smallest power of two from 2^4 up that is at least a quarter of `n`, 2^31 at most. */
  ghost predicate IsTableSize(n: nat, hsize: nat) {
    exists i :: 4 <= i <= 31 && hsize == Pow2(i) && (i < 31 ==> n / 4 <= hsize) && (i > 4 ==> Pow2(i - 1) < n / 4)
  }

  method TableSize(n: nat) returns (hsize: nat)
    ensures IsTableSize(n, hsize) && hsize > 0
  {
    assert Pow2(4) == 16;
    hsize := 16;
    var i := 4;
    while hsize < n / 4 && i < 31
      invariant 4 <= i <= 31 && hsize == Pow2(i)
      invariant i > 4 ==> Pow2(i - 1) < n / 4
    {
      i := i + 1;
      hsize := hsize * 2;
    }
  }

  /** `struct git_delta_index`. It is not changed once built. */
  class Index {
    const src: seq<byte>
    const entries: array<Entry>
    const used: nat
    const hash: array<int>

    constructor (src: seq<byte>, entries: array<Entry>, used: nat, hash: array<int>)
      ensures this.src == src && this.entries == entries && this.used == used && this.hash == hash
    {
      this.src, this.entries, this.used, this.hash := src, entries, used, hash;
    }

    /**
     The table has the size chosen for the source, the entries are the collected windows,
     and each bucket's chain is the culled member list.
     */
    ghost predicate Valid()
      reads entries, hash
    {
      && 0 < |src| && used <= entries.Length && hash.Length > 0 && IsTableSize(BlockCount(|src|), hash.Length)
      && Linked(entries[..used])
      && Windows(entries[..used]) == Collect(src, BlockCount(|src|), 0)
      && forall b :: 0 <= b < hash.Length ==> CulledBucket(entries[..used], hash.Length, b, hash[b])
    }

    /** The chain searched for hash `val`. */
    ghost function Candidates(val: Hash): (c: seq<Window>)
      requires Valid()
      reads entries, hash
    {
      var es := entries[..used];
      assert CulledBucket(es, hash.Length, Bucket(val, hash.Length), hash[Bucket(val, hash.Length)]);
      ChainWindows(es, hash[Bucket(val, hash.Length)])
    }
  }

  ghost function ChainWindows(es: seq<Entry>, h: int): (ws: seq<Window>)
    requires Linked(es) && NIL <= h < |es|
    ensures |ws| == |Chain(es, h)| && forall i :: 0 <= i < |ws| ==> ws[i] == es[Chain(es, h)[i]].window
  {
    var c := Chain(es, h);
    seq(|c|, i requires 0 <= i < |c| => es[c[i]].window)
  }

  // ------------------------------------------- what the encoder relies on

  ghost predicate Ascending(ws: seq<Window>) {
    forall i, j :: 0 <= i < j < |ws| ==> ws[i].ptr < ws[j].ptr
  }

  /** A chain's windows are genuine, in range, and at strictly increasing positions. */
  lemma CandidatesAscend(index: Index, val: Hash)
    requires index.Valid()
    ensures Ascending(index.Candidates(val))
    ensures forall i :: 0 <= i < |index.Candidates(val)| ==> IsWindow(index.src, index.Candidates(val)[i])
  {
    hide IsWindow, Collect, Bucket, Culled, Members;
    CollectIsSound(index.src, BlockCount(|index.src|), 0);
    var es := index.entries[..index.used];
    var h := index.hash[Bucket(val, index.hash.Length)];
    assert CulledBucket(es, index.hash.Length, Bucket(val, index.hash.Length), h);
    ChainWindowsAscend(index.src, es, h);
  }

  lemma ChainWindowsAscend(src: seq<byte>, es: seq<Entry>, h: int)
    requires Linked(es) && NIL <= h < |es| && Sound(src, Windows(es), 0)
    ensures Ascending(ChainWindows(es, h))
    ensures forall i :: 0 <= i < |ChainWindows(es, h)| ==> IsWindow(src, ChainWindows(es, h)[i])
  {
  }

  /** The entries of the bucket that `val` falls into, before any culling. */
  ghost function BucketMembers(index: Index, val: Hash): seq<nat>
    requires index.Valid()
    reads index.entries, index.hash
  {
    Members(Windows(index.entries[..index.used]), index.hash.Length, Bucket(val, index.hash.Length), index.used)
  }

  /**
   Culling keeps a bucket's first entry and otherwise only leaves entries out; which ones,
   and for which buckets none at all.
   */
  lemma CandidatesAreCulledMembers(index: Index, val: Hash)
    requires index.Valid()
    ensures |index.Candidates(val)| <= CULLED_LIMIT
    ensures var all := BucketMembers(index, val);
            var c := Chain(index.entries[..index.used], index.hash[Bucket(val, index.hash.Length)]);
            && IsSubsequence(c, all)
            && (all != [] ==> c != [] && c[0] == all[0])
            && (c == all <==> LosesNothing(|all|))
            && (HASH_LIMIT <= |all| < 2 * HASH_LIMIT ==> c == [all[0]])
            && (2 * HASH_LIMIT <= |all| ==> ThinnedBy(all, c, SkipOf(|all|)))
  {
    hide Bucket, Members, Chain;
    var b := Bucket(val, index.hash.Length);
    var es := index.entries[..index.used];
    assert CulledBucket(es, index.hash.Length, b, index.hash[b]);
    var all := BucketMembers(index, val);
    CulledExactly(all);
    if |all| < HASH_LIMIT {
      SubsequenceItself(all);
    } else {
      ThinIsSubsequence(all, SkipOf(|all|));
    }
  }

  lemma TableFits(k: nat)
    requires k <= 31
    ensures Pow2(k) <= 0x8000_0000
  {
    Pow2Splits(k, 32);
    Pow2Of32();
    assert Pow2(32 - k) >= 2;
    NextMultiple(Pow2(k), 1, Pow2(32 - k));
  }

  /** The table is a power of two, at least 16, and the smallest with a bucket for four of `n` entries. */
  ghost predicate WellSized(hsize: nat, n: nat) {
    && (exists k: nat :: hsize == Pow2(k))
    && 16 <= hsize && n <= 4 * hsize + 3 && (hsize > 16 ==> 2 * hsize < n)
  }

  lemma TableIsWellSized(n: nat, hsize: nat)
    requires IsTableSize(n, hsize) && n < 0x1_0000_0000
    ensures WellSized(hsize, n)
  {
    var k :| 4 <= k <= 31 && hsize == Pow2(k) && (k < 31 ==> n / 4 <= hsize) && (k > 4 ==> Pow2(k - 1) < n / 4);
    AtLeastSixteen(k);
    if k == 31 {
      TableIsLarge();
    }
    hide Pow2;
  }

  lemma AtLeastSixteen(k: nat)
    requires 4 <= k
    ensures Pow2(k) >= 16 && Pow2(k) == 2 * Pow2(k - 1) && Pow2(4) == 16
  {
    Pow2Splits(4, k);
    assert Pow2(4) == 16;
  }

  lemma TableIsLarge()
    ensures Pow2(31) == 0x8000_0000
  {
    Pow2Of32();
    assert Pow2(32) == 2 * Pow2(31);
  }

  /** Masking a hash value, as the code does, finds its bucket. */
  lemma MaskFindsBucket(index: Index, val: Hash) returns (k: nat)
    requires index.Valid()
    ensures index.hash.Length == Pow2(k) && HashNumber(Mask(k)) == index.hash.Length - 1
    ensures HashNumber(And(val, Mask(k))) == Bucket(val, index.hash.Length)
  {
    k :| 4 <= k <= 31 && index.hash.Length == Pow2(k);
    TableFits(k);
    hide Pow2, Index.Valid;
    MaskIsOneLess(k);
    MaskIsRemainder(val, k);
  }

  /** A block of the source that the one below it, if there is one, does not make superfluous. */
  ghost predicate StartsRun(src: seq<byte>, w: Window) {
    exists block: nat :: && WINDOW * (block + 1) < |src| && w == BlockWindow(src, block)
                         && (block == 0 || BlockHash(src, block - 1) != w.val)
  }

  /** The whole source is indexed, up to its last full block behind the first byte. */
  lemma EntriesAreRunStarts(index: Index, w: Window)
    requires index.Valid() && |index.src| < 0xffff_ffff
    ensures w in Windows(index.entries[..index.used]) <==> StartsRun(index.src, w)
  {
    hide BlockHash, Collect, CulledBucket, IsTableSize;
    CollectIsExact(index.src, BlockCount(|index.src|), 0, w);
  }

  lemma FirstBlockIsHead(index: Index)
    requires index.Valid() && WINDOW < |index.src| < 0xffff_ffff
    ensures var v := BlockHash(index.src, 0); index.Candidates(v) != [] && index.Candidates(v)[0] == Window(WINDOW, v)
  {
    var es, v := index.entries[..index.used], BlockHash(index.src, 0);
    LastCollected(index.src, BlockCount(|index.src|), 0);
    CandidatesAreCulledMembers(index, v);
    LastIsFirstMember(Windows(es), index.hash.Length, index.used);
    hide BlockHash, Collect, Members, Bucket, IsSubsequence, ThinnedBy, IsTableSize, Culled, Chain;
    var c := Chain(es, index.hash[Bucket(v, index.hash.Length)]);
    assert c[0] == index.used - 1;
    assert es[c[0]].window == Windows(es)[index.used - 1];
  }

  lemma LastIsFirstMember(ws: seq<Window>, hsize: nat, n: nat)
    requires hsize > 0 && 0 < n <= |ws|
    ensures var all := Members(ws, hsize, Bucket(ws[n - 1].val, hsize), n); all != [] && all[0] == n - 1
  {
  }

  /** Every source block is on offer where culling loses nothing: a window of its hash stands
      at or below it. */
  lemma BlockIsOffered(index: Index, block: nat) returns (i: nat)
    requires index.Valid() && WINDOW * (block + 1) < |index.src| < 0xffff_ffff
    requires LosesNothing(|BucketMembers(index, BlockHash(index.src, block))|)
    ensures i < |index.Candidates(BlockHash(index.src, block))|
    ensures index.Candidates(BlockHash(index.src, block))[i].val == BlockHash(index.src, block)
    ensures index.Candidates(BlockHash(index.src, block))[i].ptr <= WINDOW * (block + 1)
  {
    hide Bucket, Members, Chain, BlockHash, Collect;
    var es, v := index.entries[..index.used], BlockHash(index.src, block);
    var j := CollectIsComplete(index.src, BlockCount(|index.src|), 0, block);
    var h := index.hash[Bucket(v, index.hash.Length)];
    CandidatesAreCulledMembers(index, v);
    MembersIsComplete(Windows(es), index.hash.Length, index.used, j);
    assert j in Chain(es, h);
    i :| 0 <= i < |Chain(es, h)| && Chain(es, h)[i] == j;
  }

  lemma {:induction false} SubsequenceItself(c: seq<nat>)
    ensures IsSubsequence(c, c)
    decreases |c|
  {
    if c != [] {
      SubsequenceItself(c[1..]);
    }
  }

  // ------------------------------------------ a source that culling damages

  /** Sixty-four blocks, all zero but for the last byte of every other one. */
  function AlternatingBlocks(): (src: seq<byte>)
    ensures |src| == WINDOW * HASH_LIMIT + 1
  {
    seq(WINDOW * HASH_LIMIT + 1, j => if j % 32 == 16 then 16 else 0)
  }

  lemma {:induction false} ZerosHashToZero(s: seq<byte>)
    requires forall j :: 0 <= j < |s| ==> s[j] == 0
    ensures Fold(0, s) == 0
    decreases |s|
  {
    if s != [] {
      assert Push(0, ToOctet(0)) == 0;
      ZerosHashToZero(s[1..]);
    }
  }

  lemma AlternatingBlock(k: nat, last: byte) returns (front: seq<byte>)
    requires k < HASH_LIMIT && last == if k % 2 == 0 then 16 else 0
    ensures AlternatingBlocks()[WINDOW * k + 1..WINDOW * (k + 1) + 1] == front + [last]
    ensures forall j :: 0 <= j < |front| ==> front[j] == 0
  {
    var src := AlternatingBlocks();
    front := src[WINDOW * k + 1..WINDOW * (k + 1)];
    forall j | 0 <= j < |front|
      ensures front[j] == 0
    {
      BlockPosition(k, j + 1);
      assert front[j] == src[WINDOW * k + (j + 1)];
    }
    BlockPosition(k, WINDOW);
    assert src[WINDOW * k + WINDOW] == last;
  }

  lemma BlockPosition(k: nat, j: nat)
    requires 1 <= j <= WINDOW
    ensures (WINDOW * k + j) % 32 == 16 <==> j == WINDOW && k % 2 == 0
  {
    assert k == 2 * (k / 2) + k % 2;
  }

  lemma AlternatingHash(k: nat)
    requires k < HASH_LIMIT
    ensures BlockHash(AlternatingBlocks(), k) == if k % 2 == 0 then 16 else 0
  {
    var last := if k % 2 == 0 then 16 else 0;
    var front := AlternatingBlock(k, last);
    ZerosHashToZero(front);
    FoldAppend(0, front, last);
    assert Push(0, ToOctet(16)) == 16 && Push(0, ToOctet(0)) == 0;
    hide Push, ToOctet, AlternatingBlocks;
  }

  /** No two neighbours are equal, so every block gets an entry. */
  lemma {:induction false} AlternatingCollect(k: nat)
    requires k <= HASH_LIMIT
    ensures var ws := Collect(AlternatingBlocks(), HASH_LIMIT, k);
            && |ws| == HASH_LIMIT - k
            && (forall i :: 0 <= i < |ws| ==> ws[i].val == 0 || ws[i].val == 16)
            && (k < HASH_LIMIT ==> ws[|ws| - 1] == Window(WINDOW * (k + 1), if k % 2 == 0 then 16 else 0))
    decreases HASH_LIMIT - k
  {
    hide BlockHash, AlternatingBlocks, AddWindow;
    if k < HASH_LIMIT {
      AlternatingCollect(k + 1);
      AlternatingHash(k);
      AddDistinct(Collect(AlternatingBlocks(), HASH_LIMIT, k + 1),
                  Window(WINDOW * (k + 1), BlockHash(AlternatingBlocks(), k)));
    }
  }

  lemma AddDistinct(ws: seq<Window>, w: Window)
    requires ws != [] ==> ws[|ws| - 1].val != w.val
    ensures AddWindow(ws, w) == ws + [w]
  {
  }

  lemma {:induction false} AllMembers(ws: seq<Window>, hsize: nat, n: nat)
    requires hsize > 0 && n <= |ws| && forall i :: 0 <= i < |ws| ==> Bucket(ws[i].val, hsize) == 0
    ensures |Members(ws, hsize, 0, n)| == n && (n > 0 ==> Members(ws, hsize, 0, n)[0] == n - 1)
  {
    hide Bucket;
    if n > 0 {
      AllMembers(ws, hsize, n - 1);
    }
  }

  lemma SmallestTable(hsize: nat)
    requires IsTableSize(HASH_LIMIT, hsize)
    ensures hsize == 16 && Bucket(0, 16) == 0 && Bucket(16, 16) == 0
  {
    assert Pow2(4) == 16;
    var i :| 4 <= i <= 31 && hsize == Pow2(i) && (i > 4 ==> Pow2(i - 1) < HASH_LIMIT / 4);
    if i > 4 {
      Pow2Splits(4, i - 1);
      assert false;
    }
    assert HashNumber(0) == 0 && HashNumber(16) == 16;
  }

  lemma AlternatingEntries(index: Index)
    requires index.Valid() && index.src == AlternatingBlocks()
    ensures index.hash.Length == 16 && index.used == HASH_LIMIT
    ensures Windows(index.entries[..index.used])[HASH_LIMIT - 1] == Window(WINDOW, 16)
    ensures |BucketMembers(index, 0)| == HASH_LIMIT && BucketMembers(index, 0)[0] == HASH_LIMIT - 1
  {
    hide Bucket, Members, AlternatingBlocks, Collect, IsTableSize, CulledBucket;
    var ws := Windows(index.entries[..index.used]);
    assert BlockCount(WINDOW * HASH_LIMIT + 1) == HASH_LIMIT;
    SmallestTable(index.hash.Length);
    AlternatingCollect(0);
    assert |ws| == HASH_LIMIT;
    AllMembers(ws, 16, HASH_LIMIT);
  }

  /**
   A source on which culling leaves blocks without any candidate: all 64 entries share a
   bucket, of which only the first block's stays, and the hash of the second block, which
   half of the blocks have, is not on offer at all.
   */
  lemma CullingLosesBlocks(index: Index)
    requires index.Valid() && index.src == AlternatingBlocks()
    ensures BlockHash(index.src, 1) == 0 && index.Candidates(0) == [Window(WINDOW, 16)]
  {
    AlternatingHash(1);
    AlternatingEntries(index);
    CandidatesAreCulledMembers(index, 0);
    hide Index.Valid, BucketMembers, Bucket, Chain, BlockHash, AlternatingBlocks, Collect, IsSubsequence, ThinnedBy;
    assert Chain(index.entries[..index.used], index.hash[Bucket(0, 16)]) == [HASH_LIMIT - 1];
  }

  /** `git_delta_create_index`; NULL only for an empty buffer. */
  method CreateIndex(src: seq<byte>) returns (index: Index?)
    ensures index == null <==> src == []
    ensures index != null ==> fresh(index) && fresh(index.entries) && fresh(index.hash)
    ensures index != null ==> index.Valid() && index.src == src
    ensures index != null && |src| < 0xffff_ffff ==>
              && (forall w :: w in Windows(index.entries[..index.used]) <==> StartsRun(src, w))
              && WellSized(index.hash.Length, (|src| - 1) / WINDOW)
  {
    hide Linked, Windows, Collect, CulledBucket, IsTableSize, StartsRun;
    if src == [] {
      return null;
    }
    var n := BlockCount(|src|);
    var hsize := TableSize(n);
    var hash := new int[hsize](_ => NIL);
    var hashCount := new nat[hsize](_ => 0);
    var entries := new Entry[n](_ => Entry(Window(0, 0), NIL));
    var used := Fill(src, n, entries, hash, hashCount);
    NothingCulled(entries[..used], hash[..], hashCount[..]);
    for i := 0 to hsize
      invariant AllBucketsAt(entries[..used], hash[..], hashCount[..], i)
      invariant Windows(entries[..used]) == Collect(src, n, 0)
    {
      CullBucket(entries, used, hash, hashCount, i);
    }
    AllCulled(entries[..used], hash[..], hashCount[..]);
    index := new Index(src, entries, used, hash);
    if |src| < 0xffff_ffff {
      forall w
        ensures w in Windows(index.entries[..index.used]) <==> StartsRun(src, w)
      {
        EntriesAreRunStarts(index, w);
      }
      TableIsWellSized(n, hsize);
      assert n == (|src| - 1) / WINDOW;
    }
  }

  /** The index of that source, built: nothing is on offer for half of its blocks. */
  method IndexLosingBlocks() returns (index: Index)
    ensures index.Valid() && index.src == AlternatingBlocks()
    ensures BlockHash(index.src, 1) == 0 && index.Candidates(0) == [Window(WINDOW, 16)]
  {
    hide Index.Valid, AlternatingBlocks, BlockHash, Index.Candidates;
    index := CreateIndex(AlternatingBlocks());
    CullingLosesBlocks(index);
  }

  lemma NothingCulled(es: seq<Entry>, heads: seq<int>, counts: seq<nat>)
    requires Filled(es, |heads|, heads, counts)
    ensures AllBucketsAt(es, heads, counts, 0)
  {
  }

  lemma AllCulled(es: seq<Entry>, heads: seq<int>, counts: seq<nat>)
    requires AllBucketsAt(es, heads, counts, |heads|)
    ensures |heads| > 0 && Linked(es)
    ensures forall b :: 0 <= b < |heads| ==> CulledBucket(es, |heads|, b, heads[b])
  {
  }
}
