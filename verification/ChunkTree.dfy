/**
 A chunked file of a bup repository: a tree of trees of blobs whose meaning is one flat
 byte sequence, and the git objects that hold it. Objects may be missing and entry names
 unreadable, as in a damaged repository; what is there is what was backed up.
 */
module ChunkTree {
  import opened Common

  /** The file as it was written. */
  datatype Chunk = Leaf(data: seq<byte>) | Node(kids: seq<Chunk>)

  function Flatten(c: Chunk): seq<byte>
    decreases c, 1
  {
    match c
    case Leaf(data) => data
    case Node(kids) => FlattenAll(kids)
  }

  function FlattenAll(kids: seq<Chunk>): seq<byte>
    decreases kids, 0
  {
    if kids == [] then [] else Flatten(kids[0]) + FlattenAll(kids[1..])
  }

  /** The local offset of entry `i`: what its name says in hexadecimal. */
  function OffsetOf(kids: seq<Chunk>, i: nat): nat
    requires i <= |kids|
  {
    |FlattenAll(kids[..i])|
  }

  /** Non-empty nodes and blobs, blob sizes in an int, local offsets in a uint. */
  predicate WellFormed(c: Chunk)
    decreases c
  {
    match c
    case Leaf(data) => 0 < |data| < 0x8000_0000
    case Node(kids) =>
      && kids != []
      && (forall i :: 0 <= i < |kids| ==> WellFormed(kids[i]))
      && (forall i :: 0 <= i < |kids| ==> OffsetOf(kids, i) < 0x1_0000_0000)
  }

  // --------------------------------------------------------- the repository

  type Oid = seq<byte>

  /** `offset` is the parsed name, None when `offsetFromName` fails. */
  datatype TreeEntry = TreeEntry(offset: Option<nat>, isDir: bool, oid: Oid)

  datatype Object = Blob(content: seq<byte>) | Tree(entries: seq<TreeEntry>)

  type Store = map<Oid, Object>

  /** Whatever the store holds for `oid` is what was stored for `c`. */
  ghost predicate Consistent(store: Store, oid: Oid, c: Chunk)
    decreases c, 1
  {
    oid in store ==>
      match c
      case Leaf(data) => store[oid] == Blob(data)
      case Node(kids) => store[oid].Tree? && EntriesMatch(store, store[oid].entries, kids)
  }

  ghost predicate EntriesMatch(store: Store, entries: seq<TreeEntry>, kids: seq<Chunk>)
    decreases kids, 0
  {
    && |entries| == |kids|
    && forall i :: 0 <= i < |kids| ==>
         && entries[i].isDir == kids[i].Node?
         && (entries[i].offset.Some? ==> entries[i].offset.value == OffsetOf(kids, i))
         && Consistent(store, entries[i].oid, kids[i])
  }

  /** Nothing of `c` is missing or unreadable. */
  ghost predicate Complete(store: Store, oid: Oid, c: Chunk)
    decreases c, 1
  {
    && oid in store
    && (c.Node? ==> store[oid].Tree? && EntriesComplete(store, store[oid].entries, c.kids))
  }

  ghost predicate EntriesComplete(store: Store, entries: seq<TreeEntry>, kids: seq<Chunk>)
    decreases kids, 0
  {
    && |entries| == |kids|
    && forall i :: 0 <= i < |kids| ==> entries[i].offset.Some? && Complete(store, entries[i].oid, kids[i])
  }

  /** What the size is computed from is there: the last entry of every level. */
  ghost predicate LastIsReadable(store: Store, oid: Oid, c: Chunk)
    decreases c
  {
    && oid in store
    && match c
       case Leaf(_) => true
       case Node(kids) =>
         && kids != [] && store[oid].Tree? && |store[oid].entries| == |kids|
         && var last := store[oid].entries[|kids| - 1];
            last.offset.Some? && LastIsReadable(store, last.oid, kids[|kids| - 1])
  }

  lemma {:induction false} CompleteIsReadable(store: Store, oid: Oid, c: Chunk)
    requires Complete(store, oid, c) && WellFormed(c)
    ensures LastIsReadable(store, oid, c)
    decreases c
  {
    if c.Node? {
      var i := |c.kids| - 1;
      CompleteIsReadable(store, store[oid].entries[i].oid, c.kids[i]);
    }
  }

  // ------------------------------------------------------------- flattening

  lemma {:induction false} FlattenAllConcat(a: seq<Chunk>, b: seq<Chunk>)
    ensures FlattenAll(a + b) == FlattenAll(a) + FlattenAll(b)
    decreases |a|
  {
    if a == [] {
      assert a + b == b;
    } else {
      assert (a + b)[1..] == a[1..] + b;
      FlattenAllConcat(a[1..], b);
    }
  }

  /** Entry `i` occupies its own range of the flattened node. */
  lemma KidRange(kids: seq<Chunk>, i: nat)
    requires i < |kids|
    ensures OffsetOf(kids, i + 1) == OffsetOf(kids, i) + |Flatten(kids[i])|
    ensures OffsetOf(kids, i + 1) <= |FlattenAll(kids)|
    ensures FlattenAll(kids)[OffsetOf(kids, i)..OffsetOf(kids, i + 1)] == Flatten(kids[i])
  {
    var before, kid, after := kids[..i], [kids[i]], kids[i + 1..];
    assert kids[..i + 1] == before + kid;
    assert kids == before + kid + after;
    FlattenAllConcat(before, kid);
    FlattenAllConcat(before + kid, after);
    assert kid[1..] == [];
    assert FlattenAll(kid) == Flatten(kids[i]) + FlattenAll(kid[1..]);
  }

  lemma OffsetEnds(kids: seq<Chunk>)
    ensures OffsetOf(kids, 0) == 0 && OffsetOf(kids, |kids|) == |FlattenAll(kids)|
  {
    assert kids[..|kids|] == kids;
  }

  lemma {:induction false} WellFormedHasContent(c: Chunk)
    requires WellFormed(c)
    ensures |Flatten(c)| > 0
    decreases c
  {
    match c
    case Leaf(data) =>
    case Node(kids) =>
      WellFormedHasContent(kids[0]);
  }

  // ------------------------------------------------------------------ paths

  /** One level of a position: the node's children and the one stood at. */
  datatype Frame = Frame(kids: seq<Chunk>, index: nat)

  /** `lower` is the node that `upper` stands at. */
  ghost predicate Link(upper: Frame, lower: Frame) {
    upper.index < |upper.kids| && upper.kids[upper.index] == Node(lower.kids)
  }

  /** Each level below the first is the child the level above stands at. */
  ghost predicate Chained(root: seq<Chunk>, path: seq<Frame>) {
    path != [] &&
    var last, upper := path[|path| - 1], path[..|path| - 1];
    && last.index <= |last.kids|
    && if upper == [] then last.kids == root
       else Chained(root, upper) && Link(upper[|upper| - 1], last)
  }

  /** How many bytes lie before the position. */
  ghost function Passed(path: seq<Frame>): nat {
    if path == [] then 0
    else var last := path[|path| - 1];
      Passed(path[..|path| - 1]) + if last.index <= |last.kids| then OffsetOf(last.kids, last.index) else 0
  }

  /** What stands at the end of a path is found in the whole at the offset the path says. */
  lemma {:induction false} PathDenotes(root: seq<Chunk>, path: seq<Frame>)
    requires Chained(root, path)
    requires var last := path[|path| - 1]; last.index < |last.kids|
    ensures var last := path[|path| - 1];
            var here := Flatten(last.kids[last.index]);
            && Passed(path) + |here| <= |FlattenAll(root)|
            && FlattenAll(root)[Passed(path)..Passed(path) + |here|] == here
    decreases |path|
  {
    hide FlattenAll, OffsetOf;
    var last := path[|path| - 1];
    KidRange(last.kids, last.index);
    if |path| == 1 {
      assert path[..0] == [];
    } else {
      var upper := path[..|path| - 1];
      PathDenotes(root, upper);
      assert Passed(path) == Passed(upper) + OffsetOf(last.kids, last.index);
      SliceOfSlice(FlattenAll(root), Passed(upper), FlattenAll(last.kids),
                   OffsetOf(last.kids, last.index), OffsetOf(last.kids, last.index + 1));
    }
  }

  lemma SliceOfSlice(s: seq<byte>, at: nat, t: seq<byte>, lo: nat, hi: nat)
    requires at + |t| <= |s| && s[at..at + |t|] == t && lo <= hi <= |t|
    ensures s[at + lo..at + hi] == t[lo..hi]
  {
    forall k | 0 <= k < hi - lo
      ensures s[at + lo..at + hi][k] == t[lo..hi][k]
    {
      assert s[at..at + |t|][lo + k] == s[at + lo + k];
    }
  }

  /** The last frame moved to another index. */
  ghost function MovedTo(path: seq<Frame>, index: nat): seq<Frame>
    requires path != []
  {
    path[|path| - 1 := path[|path| - 1].(index := index)]
  }

  lemma MoveWithin(root: seq<Chunk>, path: seq<Frame>, index: nat)
    requires Chained(root, path) && path[|path| - 1].index == 0
    requires index <= |path[|path| - 1].kids|
    ensures Chained(root, MovedTo(path, index))
    ensures Passed(MovedTo(path, index)) == Passed(path) + OffsetOf(path[|path| - 1].kids, index)
  {
  }

  lemma NextSibling(root: seq<Chunk>, path: seq<Frame>)
    requires Chained(root, path)
    requires var last := path[|path| - 1]; last.index < |last.kids|
    ensures var last := path[|path| - 1];
            && Chained(root, MovedTo(path, last.index + 1))
            && Passed(MovedTo(path, last.index + 1)) == Passed(path) + |Flatten(last.kids[last.index])|
  {
    var last := path[|path| - 1];
    KidRange(last.kids, last.index);
    var moved := MovedTo(path, last.index + 1);
    assert moved[..|path| - 1] == path[..|path| - 1];
  }

  lemma Descend(root: seq<Chunk>, path: seq<Frame>)
    requires Chained(root, path)
    requires var last := path[|path| - 1]; last.index < |last.kids| && last.kids[last.index].Node?
    ensures var last := path[|path| - 1];
            var deeper := path + [Frame(last.kids[last.index].kids, 0)];
            Chained(root, deeper) && Passed(deeper) == Passed(path)
  {
  }

  /** An exhausted level is left by standing behind its node one level up. */
  lemma Ascend(root: seq<Chunk>, path: seq<Frame>)
    requires Chained(root, path) && |path| > 1
    requires var last := path[|path| - 1]; last.index == |last.kids|
    ensures var upper := path[..|path| - 1];
            var moved := MovedTo(upper, upper[|upper| - 1].index + 1);
            Chained(root, upper) && Chained(root, moved) && Passed(moved) == Passed(path)
  {
    var upper, last := path[..|path| - 1], path[|path| - 1];
    OffsetEnds(last.kids);
    NextSibling(root, upper);
  }

  // ------------------------------------------- how much of a walk is left

  function NodeCount(c: Chunk): nat
    decreases c, 1
  {
    match c
    case Leaf(_) => 1
    case Node(kids) => 2 + NodeCountAll(kids)
  }

  function NodeCountAll(kids: seq<Chunk>): nat
    decreases kids, 0
  {
    if kids == [] then 0 else NodeCount(kids[0]) + NodeCountAll(kids[1..])
  }

  /** Levels plus everything not yet entered: strictly less after each step of the walk. */
  ghost function Ahead(path: seq<Frame>): nat {
    if path == [] then 0
    else var last := path[|path| - 1];
      1 + (if last.index < |last.kids| then NodeCountAll(last.kids[last.index..]) else 0) + Behind(path[..|path| - 1])
  }

  ghost function Behind(path: seq<Frame>): nat {
    if path == [] then 0
    else var last := path[|path| - 1];
      1 + (if last.index < |last.kids| then NodeCountAll(last.kids[last.index + 1..]) else 0) + Behind(path[..|path| - 1])
  }

  lemma DescendGetsCloser(path: seq<Frame>)
    requires path != []
    requires var last := path[|path| - 1]; last.index < |last.kids| && last.kids[last.index].Node?
    ensures var last := path[|path| - 1];
            Ahead(path + [Frame(last.kids[last.index].kids, 0)]) < Ahead(path)
  {
    var last := path[|path| - 1];
    var kid := last.kids[last.index];
    var deeper := path + [Frame(kid.kids, 0)];
    assert deeper[..|path|] == path;
    assert last.kids[last.index..][1..] == last.kids[last.index + 1..];
    assert kid.kids[0..] == kid.kids;
    assert NodeCount(kid) == 2 + NodeCountAll(kid.kids);
  }

  lemma AscendGetsCloser(path: seq<Frame>)
    requires |path| > 1
    requires var last := path[|path| - 1]; last.index >= |last.kids|
    ensures var upper := path[..|path| - 1];
            Ahead(MovedTo(upper, upper[|upper| - 1].index + 1)) < Ahead(path)
  {
  }
}
