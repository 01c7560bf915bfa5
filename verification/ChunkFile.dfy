/**
 The file cursors of `bupvfs.cpp`. A `ChunkFile` walks the object tree with a stack of
 tree positions; the specification it is proved against is one flat byte sequence.
 */
module ChunkFile {
  import opened Common
  import opened ChunkTree

  /** KIO result codes; 0 is success. */
  datatype Code = Success | ErrNoContent | ErrCouldNotRead | ErrCouldNotSeek

  function LookupTree(store: Store, oid: Oid): Option<seq<TreeEntry>> {
    if oid in store && store[oid].Tree? then Some(store[oid].entries) else None
  }

  function LookupBlob(store: Store, oid: Oid): Option<seq<byte>> {
    if oid in store && store[oid].Blob? then Some(store[oid].content) else None
  }

  // -------------------------------------------------------------- the size

  /** `calculateChunkFileSize`: follows the last entry of each level only; 0 on any failure. */
  method CalculateChunkFileSize(store: Store, oid: Oid, ghost c: Chunk) returns (size: nat)
    requires WellFormed(c) && c.Node? && Consistent(store, oid, c)
    ensures size == if LastIsReadable(store, oid, c) then |Flatten(c)| else 0
  {
    var lastChunkOffset := 0;
    var current := oid;
    var isDir := true;
    ghost var here := c;
    while isDir
      invariant WellFormed(here) && Consistent(store, current, here) && isDir == here.Node?
      invariant lastChunkOffset + |Flatten(here)| == |Flatten(c)|
      invariant LastIsReadable(store, oid, c) <==> LastIsReadable(store, current, here)
      decreases here
    {
      var tree := LookupTree(store, current);
      if tree.None? {
        return 0;
      }
      var entry := tree.value[|tree.value| - 1];
      ghost var i := |here.kids| - 1;
      KidRange(here.kids, i);
      OffsetEnds(here.kids);
      if entry.offset.None? {
        return 0;
      }
      lastChunkOffset := lastChunkOffset + entry.offset.value;
      current := entry.oid;
      isDir := entry.isDir;
      here := here.kids[i];
    }
    var blob := LookupBlob(store, current);
    if blob.None? {
      return 0;
    }
    return lastChunkOffset + |blob.value|;
  }

  // ------------------------------------------------------------- the search

  /** The binary search of one level: the last entry whose offset is at most `local`. */
  method FindEntry(store: Store, entries: seq<TreeEntry>, ghost kids: seq<Chunk>, local: nat)
    returns (ok: bool, lower: nat, lowerOffset: nat)
    requires WellFormed(Node(kids)) && EntriesMatch(store, entries, kids) && local < |FlattenAll(kids)|
    ensures ok ==> lower < |kids| && lowerOffset == OffsetOf(kids, lower) <= local < OffsetOf(kids, lower + 1)
    ensures EntriesComplete(store, entries, kids) ==> ok
  {
    hide WellFormed, Consistent, Complete;
    KidsWellFormed(kids);
    OffsetEnds(kids);
    lower, lowerOffset, ok := 0, 0, true;
    var upper := |entries|;
    while upper - lower > 1
      invariant 0 <= lower < upper <= |kids|
      invariant lowerOffset == OffsetOf(kids, lower) <= local < OffsetOf(kids, upper)
    {
      var toCheck := lower + (upper - lower) / 2;
      var checkOffset := entries[toCheck].offset;
      if checkOffset.None? {
        ok := false;
        return;
      }
      if checkOffset.value > local {
        upper := toCheck;
      } else {
        lower := toCheck;
        lowerOffset := checkOffset.value % 0x1_0000_0000;  // a uint
        SmallOffset(kids, lower);
      }
    }
  }

  lemma KidsWellFormed(kids: seq<Chunk>)
    requires WellFormed(Node(kids))
    ensures kids != [] && forall i :: 0 <= i < |kids| ==> WellFormed(kids[i])
  {
  }

  lemma SmallOffset(kids: seq<Chunk>, i: nat)
    requires WellFormed(Node(kids)) && i < |kids|
    ensures OffsetOf(kids, i) % 0x1_0000_0000 == OffsetOf(kids, i)
  {
  }

  // ------------------------------------------------------------- the cursor

  /** One element of `mPositionStack`. */
  datatype TreePosition = TreePosition(tree: seq<TreeEntry>, index: nat, skipSize: nat)

  /**
   The stack holds the trees of the path's nodes at the path's indices; in an intact
   repository with nothing missing from them.
   */
  ghost predicate Mirrors(store: Store, intact: bool, stack: seq<TreePosition>, path: seq<Frame>) {
    && |stack| == |path|
    && forall j :: 0 <= j < |stack| ==>
         && stack[j].index == path[j].index
         && EntriesMatch(store, stack[j].tree, path[j].kids)
         && WellFormed(Node(path[j].kids))
         && (intact ==> EntriesComplete(store, stack[j].tree, path[j].kids))
         && (j < |stack| - 1 ==> stack[j].skipSize == 0)
  }

  /** A position `local` bytes into the entry the path ends at. */
  ghost predicate At(store: Store, intact: bool, root: seq<Chunk>, stack: seq<TreePosition>, path: seq<Frame>) {
    && path != [] && |stack| == |path|
    && Chained(root, path) && Mirrors(store, intact, stack, path)
    && path[|path| - 1].index < |path[|path| - 1].kids|
  }

  /** Where a cursor may rest: inside a blob, or before a subtree that cannot be read. */
  ghost predicate Resting(store: Store, intact: bool, root: seq<Chunk>, stack: seq<TreePosition>, path: seq<Frame>) {
    && At(store, intact, root, stack, path)
    && var last, top := path[|path| - 1], stack[|stack| - 1];
       match last.kids[last.index]
       case Leaf(data) => top.skipSize < |data|
       case Node(_) => top.skipSize == 0 && top.tree[top.index].oid !in store
  }

  /** What `At` gives for the top of the stack. */
  lemma TopEntry(store: Store, intact: bool, root: seq<Chunk>, stack: seq<TreePosition>, path: seq<Frame>)
    requires At(store, intact, root, stack, path)
    ensures var last, top := path[|path| - 1], stack[|stack| - 1];
            var kid := last.kids[last.index];
            && top.index == last.index < |top.tree| == |last.kids|
            && top.tree[top.index].isDir == kid.Node?
            && WellFormed(kid) && Consistent(store, top.tree[top.index].oid, kid)
            && (intact ==> Complete(store, top.tree[top.index].oid, kid))
            && Passed(path) + |Flatten(kid)| <= |FlattenAll(root)|
            && FlattenAll(root)[Passed(path)..Passed(path) + |Flatten(kid)|] == Flatten(kid)
  {
    hide Consistent, Passed, Chained;
    PathDenotes(root, path);
  }

  class ChunkFile {
    const store: Store
    const oid: Oid
    ghost const chunk: Chunk
    var offset: nat
    var cachedSize: nat
    var validSeekPosition: bool
    var currentBlob: Option<seq<byte>>
    var positionStack: seq<TreePosition>
    ghost var path: seq<Frame>

    ghost function Content(): seq<byte> {
      Flatten(chunk)
    }

    /** The file object and what was backed up belong together. */
    ghost predicate Source() {
      chunk.Node? && WellFormed(chunk) && Consistent(store, oid, chunk)
    }

    ghost predicate Intact() {
      Complete(store, oid, chunk)
    }

    /** The size can be computed; otherwise the code takes it to be 0. */
    ghost predicate Sizable() {
      LastIsReadable(store, oid, chunk)
    }

    lemma IntactIsSizable()
      requires Source()
      ensures Intact() ==> Sizable()
    {
      if Intact() {
        CompleteIsReadable(store, oid, chunk);
      }
    }

    /** A valid seek position: the stack denotes `offset`, or is empty at the very end. */
    ghost predicate Positioned()
      reads this`positionStack, this`path, this`offset, this`currentBlob
    {
      if positionStack == [] then offset == |Content()|
      else
        && chunk.Node? && Resting(store, Intact(), chunk.kids, positionStack, path)
        && offset == Passed(path) + positionStack[|positionStack| - 1].skipSize
        && (currentBlob.Some? && positionStack[|positionStack| - 1].skipSize != 0 ==>
              Leaf(currentBlob.value) == path[|path| - 1].kids[path[|path| - 1].index])
    }

    ghost predicate SizeKnown()
      reads this`cachedSize
    {
      cachedSize == 0 || (cachedSize == |Content()| && Sizable())
    }

    ghost predicate Valid()
      reads this
    {
      && Source() && SizeKnown()
      && offset <= |Content()| && (validSeekPosition ==> Positioned())
    }

    /** A new file object tries to stand at the beginning. */
    constructor (store: Store, oid: Oid, ghost chunk: Chunk)
      requires chunk.Node? && WellFormed(chunk) && Consistent(store, oid, chunk)
      ensures this.store == store && this.oid == oid && this.chunk == chunk
      ensures Valid() && offset == 0 && (Intact() ==> validSeekPosition)
    {
      this.store, this.oid, this.chunk := store, oid, chunk;
      offset, cachedSize, validSeekPosition, currentBlob, positionStack, path := 0, 0, false, None, [], [];
      new;
      WellFormedHasContent(chunk);
      var _ := Seek(0);
    }

    /** `File::size`: computed on demand and cached once it is not zero. */
    method Size() returns (size: nat)
      requires Source() && SizeKnown()
      modifies this`cachedSize
      ensures cachedSize == size == if Sizable() then |Content()| else 0
      ensures Intact() ==> Sizable()
    {
      hide Complete, LastIsReadable, Consistent, WellFormed, EntriesMatch;
      IntactIsSizable();
      if cachedSize == 0 {
        cachedSize := CalculateChunkFileSize(store, oid, chunk);
      }
      size := cachedSize;
    }

    /** The root level of a new stack. */
    method OpenRoot() returns (ok: bool)
      requires Source()
      modifies this`positionStack, this`path
      ensures ok ==> OpenLevel(positionStack, path, chunk.kids) && Passed(path) == 0
      ensures Intact() ==> ok
    {
      positionStack, path := [], [];
      var tree := LookupTree(store, oid);
      ok := tree.Some?;
      if ok {
        positionStack := [TreePosition(tree.value, 0, 0)];
        path := [Frame(chunk.kids, 0)];
        assert path[..0] == [];
        OffsetEnds(chunk.kids);
      }
    }

    /** A stack whose top level has just been opened on `kids`. */
    ghost predicate OpenLevel(stack: seq<TreePosition>, frames: seq<Frame>, kids: seq<Chunk>) {
      && chunk.Node? && At(store, Intact(), chunk.kids, stack, frames)
      && frames[|frames| - 1] == Frame(kids, 0) && stack[|stack| - 1].skipSize == 0
    }

    /** Moves the top of the stack to entry `lower`. */
    method MoveTop(lower: nat, ghost kids: seq<Chunk>)
      requires OpenLevel(positionStack, path, kids) && lower < |kids|
      modifies this`positionStack, this`path
      ensures chunk.Node? && At(store, Intact(), chunk.kids, positionStack, path)
      ensures path[|path| - 1] == Frame(kids, lower)
      ensures |positionStack| == old(|positionStack|)
      ensures positionStack[|positionStack| - 1] == old(positionStack)[|positionStack| - 1].(index := lower)
      ensures Passed(path) == old(Passed(path)) + OffsetOf(kids, lower)
    {
      hide EntriesMatch, EntriesComplete, WellFormed, Chained, Passed, Complete;
      MoveWithin(chunk.kids, path, lower);
      var top := |positionStack| - 1;
      positionStack := positionStack[top := positionStack[top].(index := lower)];
      path := MovedTo(path, lower);
    }

    /** Opens the subtree the top of the stack stands at. */
    method PushSubtree() returns (ok: bool)
      requires chunk.Node? && At(store, Intact(), chunk.kids, positionStack, path)
      requires path[|path| - 1].kids[path[|path| - 1].index].Node? && positionStack[|positionStack| - 1].skipSize == 0
      modifies this`positionStack, this`path
      ensures var kid := old(path[|path| - 1].kids[path[|path| - 1].index]);
              var entry := old(positionStack[|positionStack| - 1].tree[positionStack[|positionStack| - 1].index]);
              && (ok <==> entry.oid in store)
              && (!ok ==> positionStack == old(positionStack) && path == old(path))
              && (ok ==> OpenLevel(positionStack, path, kid.kids) && Passed(path) == old(Passed(path)))
              && (ok ==> path == old(path) + [Frame(kid.kids, 0)])
              && (Intact() ==> ok)
    {
      hide Chained, Passed, EntriesMatch;
      TopEntry(store, Intact(), chunk.kids, positionStack, path);
      Descend(chunk.kids, path);
      var top := positionStack[|positionStack| - 1];
      ghost var kid := path[|path| - 1].kids[path[|path| - 1].index];
      var tree := LookupTree(store, top.tree[top.index].oid);
      ok := tree.Some?;
      if ok {
        assert EntriesMatch(store, tree.value, kid.kids);
        MirrorsPush(store, Intact(), positionStack, path, TreePosition(tree.value, 0, 0), Frame(kid.kids, 0));
        positionStack := positionStack + [TreePosition(tree.value, 0, 0)];
        path := path + [Frame(kid.kids, 0)];
      }
    }

    /** Moves the top of the stack to the entry that holds `localOffset`; `rest` is the offset inside it. */
    method SelectEntry(localOffset: nat, ghost kids: seq<Chunk>) returns (ok: bool, rest: nat)
      requires OpenLevel(positionStack, path, kids) && localOffset < |FlattenAll(kids)|
      modifies this`positionStack, this`path
      ensures Intact() ==> ok
      ensures ok ==> chunk.Node? && At(store, Intact(), chunk.kids, positionStack, path)
      ensures ok ==> path[|path| - 1].kids == kids && rest < |Flatten(kids[path[|path| - 1].index])|
      ensures ok ==> positionStack[|positionStack| - 1].skipSize == 0
      ensures ok ==> Passed(path) + rest == old(Passed(path)) + localOffset
    {
      hide Chained, Passed, Consistent, WellFormed, EntriesMatch, EntriesComplete, Complete, Mirrors, Flatten, OffsetOf;
      var tree := positionStack[|positionStack| - 1].tree;
      LevelFacts(store, Intact(), chunk.kids, positionStack, path);
      var lower, lowerOffset;
      ok, lower, lowerOffset := FindEntry(store, tree, kids, localOffset);
      rest := 0;
      if ok {
        MoveTop(lower, kids);
        KidRange(kids, lower);
        rest := localOffset - lowerOffset;
      }
    }

    /** Builds the stack for `offset`, level by level. */
    method BuildStack() returns (ok: bool)
      requires Source() && offset < |Content()|
      modifies this`positionStack, this`path
      ensures ok ==> positionStack != [] && Resting(store, Intact(), chunk.kids, positionStack, path)
      ensures ok ==> path[|path| - 1].kids[path[|path| - 1].index].Leaf?
      ensures ok ==> offset == Passed(path) + positionStack[|positionStack| - 1].skipSize
      ensures Intact() ==> ok
    {
      hide Chained, Passed, Consistent, WellFormed, EntriesMatch, EntriesComplete, Complete, Mirrors;
      ok := OpenRoot();
      if !ok {
        return;
      }
      var localOffset: nat := offset;
      ghost var kids := chunk.kids;
      while true
        invariant OpenLevel(positionStack, path, kids)
        invariant Passed(path) + localOffset == offset && localOffset < |FlattenAll(kids)|
        decreases kids
      {
        ok, localOffset := SelectEntry(localOffset, kids);
        if !ok {
          return;
        }
        TopEntry(store, Intact(), chunk.kids, positionStack, path);
        var top := |positionStack| - 1;
        if positionStack[top].tree[positionStack[top].index].isDir {
          kids := kids[path[top].index].kids;
          ok := PushSubtree();
          if !ok {
            return;
          }
        } else {
          SkipInTop(store, Intact(), positionStack, path, localOffset);
          positionStack := positionStack[top := positionStack[top].(skipSize := localOffset)];
          return;
        }
      }
    }

    /** `ChunkFile::seek`. */
    method Seek(pOffset: nat) returns (code: Code)
      requires Valid()
      modifies this
      ensures Valid() && code in {Success, ErrCouldNotSeek}
      ensures code == Success ==> pOffset < |Content()| && offset == pOffset && validSeekPosition
      ensures Intact() ==> (code == Success <==> pOffset < |Content()|)
      ensures Sizable() && pOffset < |Content()| ==> offset == pOffset && (validSeekPosition <==> code == Success)
      ensures !Sizable() || pOffset >= |Content()| ==> code == ErrCouldNotSeek
      ensures !Sizable() || pOffset >= |Content()| ==>
                offset == old(offset) && validSeekPosition == old(validSeekPosition) && positionStack == old(positionStack)
    {
      hide Resting, Consistent, WellFormed, Complete, LastIsReadable;
      var size := Size();
      if pOffset >= size {
        return ErrCouldNotSeek;
      }
      if offset == pOffset && validSeekPosition {
        return Success;
      }
      offset := pOffset;
      validSeekPosition := false;
      currentBlob := None;
      var ok := BuildStack();
      if !ok {
        return ErrCouldNotSeek;
      }
      validSeekPosition := true;
      return Success;
    }

    /** Between two entries: every skip size is zero and the path says where we are. */
    ghost predicate Walking()
      reads this`positionStack, this`path, this`offset
    {
      && chunk.Node? && positionStack != [] && |positionStack| == |path|
      && Chained(chunk.kids, path) && Mirrors(store, Intact(), positionStack, path)
      && positionStack[|positionStack| - 1].skipSize == 0 && offset == Passed(path)
    }

    /** Leaves the entry the top of the stack stands at. */
    method StepOver()
      requires chunk.Node? && positionStack != [] && At(store, Intact(), chunk.kids, positionStack, path)
      requires offset == Passed(path) + |Flatten(path[|path| - 1].kids[path[|path| - 1].index])|
      modifies this`positionStack, this`path
      ensures Walking() && path == MovedTo(old(path), old(path)[|old(path)| - 1].index + 1)
    {
      hide Chained, Passed, EntriesMatch, EntriesComplete, WellFormed, Complete;
      NextSibling(chunk.kids, path);
      var top := |positionStack| - 1;
      positionStack := positionStack[top := positionStack[top].(skipSize := 0, index := positionStack[top].index + 1)];
      path := MovedTo(path, path[|path| - 1].index + 1);
    }

    /** Pops an exhausted level; at the root that leaves nothing. */
    method PopLevel()
      requires Source() && Walking() && path[|path| - 1].index == |path[|path| - 1].kids|
      modifies this`positionStack, this`path
      ensures positionStack == [] ==> offset == |Content()|
      ensures positionStack != [] ==> Walking() && Ahead(path) < Ahead(old(path))
    {
      hide Chained, Passed, EntriesMatch, EntriesComplete, WellFormed, Complete, Ahead, Mirrors;
      ghost var root := chunk.kids;
      if |path| == 1 {
        OnlyLevel(root, path);
      } else {
        Ascend(root, path);
        AscendGetsCloser(path);
      }
      MirrorsPop(store, Intact(), positionStack, path);
      positionStack := positionStack[..|positionStack| - 1];
      path := path[..|path| - 1];
      if positionStack == [] {
        return;
      }
      var top := |positionStack| - 1;
      positionStack := positionStack[top := positionStack[top].(index := positionStack[top].index + 1)];
      path := MovedTo(path, path[|path| - 1].index + 1);
    }

    /** The loop of `read` that finds the next blob, up and down the tree. */
    method NextBlob() returns (ok: bool)
      requires Source() && Walking()
      modifies this`positionStack, this`path
      ensures if positionStack == [] then offset == |Content()|
              else Resting(store, Intact(), chunk.kids, positionStack, path) && Walking()
      ensures Intact() ==> ok
    {
      hide Chained, Passed, EntriesMatch, EntriesComplete, WellFormed, Mirrors, Complete, Consistent;
      hide Ahead, Flatten, FlattenAll;
      while true
        invariant Walking()
        decreases Ahead(path)
      {
        WalkingTop();
        var top := positionStack[|positionStack| - 1];
        if top.index < |top.tree| {
          TopEntry(store, Intact(), chunk.kids, positionStack, path);
          if top.tree[top.index].isDir {
            DescendGetsCloser(path);
            ok := PushSubtree();
            if !ok {
              return;
            }
          } else {
            BlobFits(path[|path| - 1].kids[top.index].data);
            return true;
          }
        } else {
          PopLevel();
          if positionStack == [] {
            return true;
          }
        }
      }
    }

    lemma WalkingTop()
      requires Walking()
      ensures var last, top := path[|path| - 1], positionStack[|positionStack| - 1];
              top.index == last.index <= |last.kids| == |top.tree|
    {
    }

    /** The blob at the top of the stack, kept from the last read or looked up again. */
    method CurrentBlob() returns (ok: bool)
      requires Source() && Positioned() && positionStack != []
      modifies this`currentBlob
      ensures ok ==> currentBlob.Some? && path[|path| - 1].kids[path[|path| - 1].index] == Leaf(currentBlob.value)
      ensures Valid() == old(Valid()) && (Intact() ==> ok)
    {
      hide Chained, Passed, WellFormed, Mirrors;
      TopEntry(store, Intact(), chunk.kids, positionStack, path);
      var top := positionStack[|positionStack| - 1];
      if currentBlob.Some? && top.skipSize == 0 {
        currentBlob := None;
      }
      if currentBlob.None? {
        currentBlob := LookupBlob(store, top.tree[top.index].oid);
      }
      ok := currentBlob.Some?;
    }

    /** The bytes between two offsets. */
    ghost function Slice(from: nat, to: nat): seq<byte>
      requires from <= to <= |Content()|
    {
      Content()[from..to]
    }

    /** The next read continues at the start of an entry, or there is nothing left. */
    ghost predicate AtEntryStart()
      reads this
    {
      positionStack == [] || positionStack[|positionStack| - 1].skipSize == 0
    }

    /**
     `ChunkFile::read`. Whatever is delivered continues the content where the last read
     or seek left off; a read stops early only at the end of a blob.
     */
    method Read(readSize: int) returns (code: Code, data: seq<byte>)
      requires Valid()
      modifies this
      ensures Valid() && old(offset) <= offset && data == Slice(old(offset), offset)
      ensures |data| < 0x8000_0000 && (readSize > 0 ==> |data| <= readSize)
      ensures code == Success ==> data != [] && validSeekPosition
      ensures code == Success ==> |data| == readSize || AtEntryStart()
      ensures !Sizable() || old(offset) == |Content()| <==> code == ErrNoContent
      ensures code == ErrNoContent ==> data == []
      ensures code in {Success, ErrNoContent, ErrCouldNotRead}
      ensures validSeekPosition == old(validSeekPosition)
      ensures Intact() && old(validSeekPosition) ==>
                code == if old(offset) < |Content()| then Success else ErrNoContent
    {
      hide Complete, Consistent, WellFormed, Chained, Passed, Mirrors, LastIsReadable;
      data := [];
      var size := Size();
      if offset >= size {
        return ErrNoContent, data;
      }
      if !validSeekPosition {
        return ErrCouldNotRead, data;
      }
      var ok := CurrentBlob();
      if !ok {
        return ErrCouldNotRead, data;
      }
      TopEntry(store, Intact(), chunk.kids, positionStack, path);
      BlobFits(currentBlob.value);
      data := Take(readSize);
      ok := LeaveExhausted();
      if !ok {
        return ErrCouldNotRead, data;
      }
      return Success, data;
    }

    /** Goes on to the next blob if the current one has been read to its end. */
    method LeaveExhausted() returns (ok: bool)
      requires Source() && chunk.Node? && positionStack != [] && currentBlob.Some?
      requires At(store, Intact(), chunk.kids, positionStack, path)
      requires path[|path| - 1].kids[path[|path| - 1].index] == Leaf(currentBlob.value)
      requires var skip := positionStack[|positionStack| - 1].skipSize;
               skip <= |currentBlob.value| && offset == Passed(path) + skip
      modifies this`positionStack, this`path
      ensures Positioned() && (Intact() ==> ok)
      ensures old(positionStack[|positionStack| - 1].skipSize) == |currentBlob.value| ==> AtEntryStart()
    {
      hide Complete, Consistent, WellFormed, Chained, Passed, Mirrors;
      ok := true;
      if positionStack[|positionStack| - 1].skipSize == |currentBlob.value| {
        StepOver();
        ok := NextBlob();
      }
    }

    /** The blob a path leads to lies in the content behind what the path has passed. */
    lemma SliceOfBlob(blob: seq<byte>, skip: nat, to: nat)
      requires chunk.Node? && At(store, Intact(), chunk.kids, positionStack, path)
      requires path[|path| - 1].kids[path[|path| - 1].index] == Leaf(blob) && skip <= to <= |blob|
      ensures Passed(path) + to <= |Content()| && Slice(Passed(path) + skip, Passed(path) + to) == blob[skip..to]
    {
      hide Chained, Passed, WellFormed, Consistent, Complete, Mirrors;
      TopEntry(store, Intact(), chunk.kids, positionStack, path);
      SliceOfSlice(Content(), Passed(path), blob, skip, to);
    }

    /** Delivers from the current blob and moves the offset and the skip size. */
    method Take(readSize: int) returns (data: seq<byte>)
      requires Source() && Positioned() && positionStack != [] && currentBlob.Some?
      requires path[|path| - 1].kids[path[|path| - 1].index] == Leaf(currentBlob.value)
      modifies this`offset, this`positionStack
      ensures chunk.Node? && positionStack != [] && At(store, Intact(), chunk.kids, positionStack, path)
      ensures var top := positionStack[|positionStack| - 1];
              && offset == Passed(path) + top.skipSize && 0 < top.skipSize <= |currentBlob.value|
              && |data| <= top.skipSize && (|data| == readSize || top.skipSize == |currentBlob.value|)
      ensures old(offset) < offset <= |Content()| && data == Slice(old(offset), offset)
      ensures readSize > 0 ==> |data| <= readSize
    {
      hide Chained, Passed, WellFormed, Consistent, Complete, Mirrors, Flatten;
      var top := |positionStack| - 1;
      var skip := positionStack[top].skipSize;
      var blob := currentBlob.value;
      var available := |blob| - skip;  // never negative: a valid position lies inside its blob
      var size := available;
      if readSize > 0 && readSize < available {
        size := readSize;
      }
      data := blob[skip..skip + size];
      SliceOfBlob(blob, skip, skip + size);
      SkipInTop(store, Intact(), positionStack, path, skip + size);
      offset := offset + size;
      positionStack := positionStack[top := positionStack[top].(skipSize := skip + size)];
    }
  }

  lemma BlobFits(data: seq<byte>)
    requires WellFormed(Leaf(data))
    ensures 0 < |data| < 0x8000_0000
  {
  }

  lemma OnlyLevel(root: seq<Chunk>, path: seq<Frame>)
    requires Chained(root, path) && |path| == 1 && path[0].index == |path[0].kids|
    ensures Passed(path) == |FlattenAll(root)|
  {
    assert path[..0] == [];
    OffsetEnds(path[0].kids);
  }

  lemma MirrorsPush(store: Store, intact: bool, stack: seq<TreePosition>, path: seq<Frame>, p: TreePosition, f: Frame)
    requires Mirrors(store, intact, stack, path) && p.index == f.index
    requires EntriesMatch(store, p.tree, f.kids) && WellFormed(Node(f.kids))
    requires intact ==> EntriesComplete(store, p.tree, f.kids)
    requires stack == [] || stack[|stack| - 1].skipSize == 0
    ensures Mirrors(store, intact, stack + [p], path + [f])
  {
  }

  /** The levels below the top, the new top moved on by one entry. */
  lemma MirrorsPop(store: Store, intact: bool, stack: seq<TreePosition>, path: seq<Frame>)
    requires Mirrors(store, intact, stack, path)
    ensures |stack| > 1 ==>
              var n := |stack| - 2;
              && Mirrors(store, intact, stack[..n + 1][n := stack[n].(index := stack[n].index + 1)],
                         MovedTo(path[..n + 1], path[n].index + 1))
              && stack[n].skipSize == 0
  {
    hide EntriesMatch, EntriesComplete, WellFormed;
  }

  lemma SkipInTop(store: Store, intact: bool, stack: seq<TreePosition>, path: seq<Frame>, skip: nat)
    requires Mirrors(store, intact, stack, path) && stack != []
    ensures Mirrors(store, intact, stack[|stack| - 1 := stack[|stack| - 1].(skipSize := skip)], path)
  {
  }

  lemma LevelFacts(store: Store, intact: bool, root: seq<Chunk>, stack: seq<TreePosition>, path: seq<Frame>)
    requires At(store, intact, root, stack, path)
    ensures EntriesMatch(store, stack[|stack| - 1].tree, path[|path| - 1].kids)
    ensures WellFormed(Node(path[|path| - 1].kids))
    ensures intact ==> EntriesComplete(store, stack[|stack| - 1].tree, path[|path| - 1].kids)
  {
  }

  // ------------------------------------------------- a file that is one blob

  class BlobFile {
    const store: Store
    const oid: Oid
    ghost const data: seq<byte>
    var offset: nat
    var cachedSize: nat
    var blob: Option<seq<byte>>

    ghost function Content(): seq<byte> {
      data
    }

    ghost predicate Intact() {
      oid in store
    }

    ghost predicate Valid()
      reads this
    {
      && |data| < 0x8000_0000 && Consistent(store, oid, Leaf(data))
      && offset <= |data| && (cachedSize == 0 || (cachedSize == |data| && Intact()))
      && (blob.Some? ==> blob.value == data && Intact())
    }

    constructor (store: Store, oid: Oid, ghost data: seq<byte>)
      requires |data| < 0x8000_0000 && Consistent(store, oid, Leaf(data))
      ensures this.store == store && this.oid == oid && this.data == data
      ensures Valid() && offset == 0
    {
      this.store, this.oid, this.data := store, oid, data;
      offset, cachedSize, blob := 0, 0, None;
    }

    method CachedBlob()
      requires Valid()
      modifies this`blob
      ensures Valid() && (blob.Some? <==> Intact())
    {
      if blob.None? {
        blob := LookupBlob(store, oid);
      }
    }

    method Size() returns (size: nat)
      requires Valid()
      modifies this`cachedSize, this`blob
      ensures Valid() && cachedSize == size == if Intact() then |Content()| else 0
    {
      if cachedSize == 0 {
        CachedBlob();
        cachedSize := if blob.None? then 0 else |blob.value|;
      }
      size := cachedSize;
    }

    /** `File::seek`. */
    method Seek(pOffset: nat) returns (code: Code)
      requires Valid()
      modifies this
      ensures Valid() && code in {Success, ErrCouldNotSeek}
      ensures code == Success ==> pOffset < |Content()| && offset == pOffset
      ensures code != Success ==> offset == old(offset)
      ensures code == Success <==> Intact() && pOffset < |Content()|
    {
      var size := Size();
      if pOffset >= size {
        return ErrCouldNotSeek;
      }
      offset := pOffset;
      return Success;
    }

    /** `BlobFile::read`: everything that is left, or as much as was asked for. */
    method Read(readSize: int) returns (code: Code, chunk: seq<byte>)
      requires Valid()
      modifies this
      ensures Valid() && old(offset) <= offset && chunk == Content()[old(offset)..offset]
      ensures |chunk| < 0x8000_0000 && (readSize > 0 ==> |chunk| <= readSize)
      ensures code == Success ==> chunk != []
      ensures code == Success ==> |chunk| == readSize || offset == |Content()|
      ensures code != Success ==> chunk == [] && code == ErrNoContent
      ensures code == Success <==> Intact() && old(offset) < |Content()|
    {
      var size := Size();
      if offset >= size {
        return ErrNoContent, [];
      }
      CachedBlob();
      if blob.None? {
        return ErrCouldNotRead, [];
      }
      var available := size - offset;
      var length := available;
      if readSize > 0 && readSize < available {
        length := readSize;
      }
      chunk := blob.value[offset..offset + length];
      offset := offset + length;
      return Success, chunk;
    }
  }
}
