/**
 The loops of `bupslave.cpp` that hand file content to a KIO client. They run over either
 kind of file; what they emit depends on nothing but the content and the position.
 */
module FileDelivery {
  import opened Common
  import opened ChunkTree
  import opened ChunkFile

  /** `File *`: the two classes that implement `seek` and `read`. */
  datatype File = Chunked(chunked: ChunkFile) | Plain(plain: BlobFile) {

    ghost function Object(): object {
      match this
      case Chunked(f) => f
      case Plain(f) => f
    }

    ghost predicate Valid()
      reads Object()
    {
      match this
      case Chunked(f) => f.Valid()
      case Plain(f) => f.Valid()
    }

    ghost function Content(): seq<byte> {
      match this
      case Chunked(f) => f.Content()
      case Plain(f) => f.Content()
    }

    ghost function Offset(): nat
      reads Object()
    {
      match this
      case Chunked(f) => f.offset
      case Plain(f) => f.offset
    }

    /** Nothing of the file is missing from the repository. */
    ghost predicate Intact() {
      match this
      case Chunked(f) => f.Intact()
      case Plain(f) => f.Intact()
    }

    /** The size can be computed from what the repository holds. */
    ghost predicate Sizable() {
      match this
      case Chunked(f) => f.Sizable()
      case Plain(f) => f.Intact()
    }

    /** The last seek, if there was one, went well. */
    ghost predicate Ready()
      reads Object()
    {
      match this
      case Chunked(f) => f.validSeekPosition
      case Plain(_) => true
    }

    method Size() returns (size: nat)
      requires Valid()
      modifies Object()
      ensures Valid() && size == (if Sizable() then |Content()| else 0) && (Intact() ==> Sizable())
      ensures Offset() == old(Offset()) && Ready() == old(Ready())
    {
      match this
      case Chunked(f) => size := f.Size();
      case Plain(f) => size := f.Size();
    }

    method Seek(pOffset: nat) returns (code: Code)
      requires Valid()
      modifies Object()
      ensures Valid() && code in {Success, ErrCouldNotSeek}
      ensures code == Success ==> Ready() && Offset() == pOffset < |Content()|
      ensures Sizable() && pOffset < |Content()| ==> Offset() == pOffset && (Ready() <==> code == Success)
      ensures !Sizable() || pOffset >= |Content()| ==>
                code == ErrCouldNotSeek && Offset() == old(Offset()) && Ready() == old(Ready())
      ensures Intact() ==> (code == Success <==> pOffset < |Content()|)
    {
      match this
      case Chunked(f) => code := f.Seek(pOffset);
      case Plain(f) => code := f.Seek(pOffset);
    }

    method Read(readSize: int) returns (code: Code, data: seq<byte>)
      requires Valid()
      modifies Object()
      ensures Valid() && old(Offset()) <= Offset() <= |Content()|
      ensures data == Content()[old(Offset())..Offset()]
      ensures |data| < 0x8000_0000 && (readSize > 0 ==> |data| <= readSize)
      ensures code == Success ==> data != []
      ensures Ready() == old(Ready()) && (code == Success ==> Ready())
      ensures code in {Success, ErrNoContent, ErrCouldNotRead}
      ensures !Sizable() || old(Offset()) == |Content()| <==> code == ErrNoContent
      ensures Intact() && old(Ready()) ==>
                code == if old(Offset()) < |Content()| then Success else ErrNoContent
    {
      match this
      case Chunked(f) => code, data := f.Read(readSize);
      case Plain(f) => code, data := f.Read(readSize);
    }
  }

  /** What a client sees: data blocks, then `finished` or an error. */
  datatype Reply = Reply(blocks: seq<seq<byte>>, error: Option<Code>)

  /** The blocks in a row. */
  function Joined(blocks: seq<seq<byte>>): seq<byte> {
    if blocks == [] then [] else Joined(blocks[..|blocks| - 1]) + blocks[|blocks| - 1]
  }

  /** Where `get` starts: a resume offset counts if it lies inside the file. */
  function Start(resume: Option<int>, size: nat): nat {
    if resume.Some? && 0 < resume.value < size then resume.value else 0
  }

  /** A file with no content is ready to be read: there is nothing to seek to. */
  lemma EmptyIsReady(file: File)
    requires file.Valid()
    ensures file.Offset() <= |file.Content()|
    ensures file.Content() == [] ==> file.Ready()
  {
    if file.Chunked? {
      WellFormedHasContent(file.chunked.chunk);
    }
  }

  /** `blocks` in a row are the content between two offsets. */
  ghost predicate Delivered(file: File, blocks: seq<seq<byte>>, from: nat, to: nat) {
    from <= to <= |file.Content()| && Joined(blocks) == file.Content()[from..to]
  }

  lemma DeliverBlock(file: File, blocks: seq<seq<byte>>, from: nat, mid: nat, to: nat, block: seq<byte>)
    requires Delivered(file, blocks, from, mid) && mid <= to <= |file.Content()| && block == file.Content()[mid..to]
    ensures Delivered(file, blocks + [block], from, to)
  {
  }

  /** The seeks of `get`: back to the beginning, then to the resume offset if there is one. */
  method SeekToStart(file: File, resume: Option<int>)
    requires file.Valid()
    modifies file.Object()
    ensures file.Valid() && file.Offset() <= |file.Content()| && (file.Intact() ==> file.Sizable())
    ensures file.Sizable() && file.Ready() ==> file.Offset() == Start(resume, |file.Content()|)
    ensures file.Sizable() && !file.Ready() ==> file.Offset() < |file.Content()|
    ensures file.Intact() ==> file.Ready()
  {
    EmptyIsReady(file);
    var size := file.Size();
    var code := file.Seek(0);
    if resume.Some? && 0 < resume.value < size {
      code := file.Seek(resume.value);
    }
    EmptyIsReady(file);
  }

  /** The read loop of `get`, which runs until a read does not succeed. */
  method EmitAll(file: File) returns (reply: Reply, ghost to: nat)
    requires file.Valid()
    modifies file.Object()
    ensures file.Valid() && Delivered(file, reply.blocks, old(file.Offset()), to)
    ensures !file.Sizable() ==> reply == Reply([], None)
    ensures file.Sizable() ==> (reply.error.None? <==> to == |file.Content()|)
    ensures !old(file.Ready()) ==> reply.blocks == [] && to == old(file.Offset())
    ensures file.Intact() && old(file.Ready()) ==> reply.error.None?
  {
    EmptyIsReady(file);
    ghost var from := file.Offset();
    to := from;
    var blocks: seq<seq<byte>> := [];
    var code;
    while true
      invariant file.Valid() && to == file.Offset() && Delivered(file, blocks, from, to)
      invariant file.Ready() == old(file.Ready())
      invariant !file.Sizable() || !file.Ready() ==> blocks == [] && to == from
      decreases |file.Content()| - file.Offset()
    {
      var block;
      code, block := file.Read(-1);
      if code != Success {
        break;
      }
      DeliverBlock(file, blocks, from, to, file.Offset(), block);
      to := file.Offset();
      blocks := blocks + [block];
    }
    reply := Reply(blocks, if code == ErrNoContent then None else Some(code));
  }

  /**
   `BupSlave::get`: the content from the resume offset on, in blocks, and no error exactly if
   all of it has been delivered. But where the size cannot be computed nothing is delivered
   and no error reported.
   */
  method Get(file: File, resume: Option<int>) returns (reply: Reply, ghost to: nat)
    requires file.Valid()
    modifies file.Object()
    ensures file.Valid() && (file.Intact() ==> file.Sizable() && reply.error.None?)
    ensures var n := |file.Content()|;
            Delivered(file, reply.blocks, if resume.Some? && 0 < resume.value < n then resume.value else 0, to)
    ensures file.Sizable() ==> (reply.error.None? <==> to == |file.Content()|)
    ensures !file.Sizable() ==> reply == Reply([], None)
  {
    SeekToStart(file, resume);
    ghost var ready := file.Ready();
    reply, to := EmitAll(file);
    if !file.Sizable() || !ready {
      to := Start(resume, |file.Content()|);
    }
  }

  /** What is left of the content from a resume offset on. */
  lemma DeliveredToEnd(file: File, blocks: seq<seq<byte>>, from: nat)
    requires Delivered(file, blocks, from, |file.Content()|)
    ensures Joined(blocks) == file.Content()[from..]
  {
  }

  /**
   Such a file: two chunks, of which the repository has lost the second. The first could be
   read, but neither it nor an error reaches the client.
   */
  method LastChunkMissing() returns (reply: Reply)
    ensures reply == Reply([], None)
  {
    var first, second := TreeEntry(Some(0), false, [1]), TreeEntry(Some(1), false, [2]);
    var store: Store := map[[0] := Tree([first, second]), [1] := Blob([97])];
    ghost var kids := [Leaf([97]), Leaf([98])];
    TwoChunks(kids[0], kids[1]);
    assert [0] in store && [1] in store && [2] !in store;
    assert store[[0]] == Tree([first, second]) && store[[1]] == Blob([97]);
    assert Consistent(store, [1], kids[0]) && Consistent(store, [2], kids[1]);
    assert EntriesMatch(store, [first, second], kids);
    assert !LastIsReadable(store, [2], kids[1]);
    assert !LastIsReadable(store, [0], Node(kids));
    var file := new ChunkFile(store, [0], Node(kids));
    ghost var to;
    reply, to := Get(Chunked(file), None);
  }

  lemma TwoChunks(a: Chunk, b: Chunk)
    requires a.Leaf? && b.Leaf? && |a.data| == |b.data| == 1
    ensures WellFormed(Node([a, b])) && OffsetOf([a, b], 0) == 0 && OffsetOf([a, b], 1) == 1
  {
    assert [a, b][..0] == [] && [a, b][..1] == [a] && [a][1..] == [];
    assert FlattenAll([a]) == a.data + FlattenAll([]);
  }

  /** An unsigned number passed on as an int: its low 32 bits, taken as signed. */
  function IntOf(n: nat): int {
    var low := n % 0x1_0000_0000;
    if low < 0x8000_0000 then low else low - 0x1_0000_0000
  }

  /** However a request is cut down to an int, it never asks for more than is wanted. */
  lemma IntOfBounds(n: nat)
    ensures IntOf(n) <= n && (n < 0x8000_0000 ==> IntOf(n) == n)
    ensures -0x8000_0000 <= IntOf(n) < 0x8000_0000 && (n - IntOf(n)) % 0x1_0000_0000 == 0
  {
  }

  /**
   `BupSlave::read` of `size` bytes, each read of the file being asked for what an int can
   express of it. Asking for more than is left delivers what is left and then reports the
   end of the content as an error.
   */
  method Read(file: File, size: nat) returns (reply: Reply, ghost to: nat)
    requires file.Valid()
    modifies file.Object()
    ensures file.Valid() && old(file.Offset()) <= file.Offset()
    ensures Delivered(file, reply.blocks, old(file.Offset()), to) && to - old(file.Offset()) <= size
    ensures file.Intact() && old(file.Ready()) ==>
              var left := |file.Content()| - old(file.Offset());
              && to == old(file.Offset()) + (if size < left then size else left) == file.Offset()
              && reply.error == if size <= left then None else Some(ErrNoContent)
  {
    hide IntOf;
    EmptyIsReady(file);
    ghost var from := file.Offset();
    to := from;
    var remaining := size;
    var code := Success;
    var blocks: seq<seq<byte>> := [];
    while remaining > 0
      invariant file.Valid() && Delivered(file, blocks, from, to)
      invariant code == Success && to == file.Offset()
      invariant 0 <= remaining && remaining + (to - from) == size
      invariant file.Ready() == old(file.Ready())
      decreases remaining
    {
      IntOfBounds(remaining);
      var block;
      code, block := file.Read(IntOf(remaining));
      if code != Success {
        break;
      }
      DeliverBlock(file, blocks, from, to, file.Offset(), block);
      to := file.Offset();
      remaining := remaining - |block|;
      blocks := blocks + [block];
    }
    reply := Reply(blocks, if code == Success then None else Some(code));
  }

  /** A chunked file and a plain one with the same content deliver the same bytes. */
  method SameBytes(chunked: ChunkFile, plain: BlobFile, resume: Option<int>) returns (a: Reply, b: Reply)
    requires chunked.Valid() && plain.Valid() && chunked.Intact() && plain.Intact()
    requires chunked.Content() == plain.Content()
    modifies chunked, plain
    ensures Joined(a.blocks) == Joined(b.blocks) && a.error == b.error == None
  {
    var first, second := Chunked(chunked), Plain(plain);
    ghost var to;
    a, to := Get(first, resume);
    DeliveredToEnd(first, a.blocks, Start(resume, |first.Content()|));
    b, to := Get(second, resume);
    DeliveredToEnd(second, b.blocks, Start(resume, |second.Content()|));
  }

  // ------------------------------------------------------- arbitrary use

  datatype Command = SeekTo(offset: nat) | ReadUpTo(size: int)

  datatype Response = Sought(ok: bool) | Got(code: Code, data: seq<byte>)

  /**
   How a flat byte sequence with a cursor at `from`, which then stands at `to`, answers one
   command. With objects missing a command may also fail, but nothing wrong is delivered.
   */
  ghost predicate Answers(content: seq<byte>, intact: bool, from: nat, command: Command, response: Response, to: nat) {
    match (command, response)
    case (SeekTo(offset), Sought(ok)) =>
      && (ok ==> to == offset < |content|)
      && (!ok ==> to == from || (to == offset < |content|))
      && (intact ==> (ok <==> offset < |content|))
    case (ReadUpTo(size), Got(code, data)) =>
      && from <= to <= |content| && data == content[from..to]
      && (size > 0 ==> |data| <= size) && (code == Success ==> data != [])
      && (intact ==> code == if from < |content| then Success else ErrNoContent)
    case _ => false
  }

  /** Each command is answered, one after the other, by a cursor that starts at `from`. */
  ghost predicate Conforms(content: seq<byte>, intact: bool, from: nat, commands: seq<Command>, responses: seq<Response>)
    decreases |commands|
  {
    && |commands| == |responses|
    && (commands == [] ||
        exists to: nat :: Answers(content, intact, from, commands[0], responses[0], to)
                          && Conforms(content, intact, to, commands[1..], responses[1..]))
  }

  /** One seek or read. */
  method Execute(file: File, command: Command) returns (response: Response)
    requires file.Valid() && (file.Intact() ==> file.Ready())
    modifies file.Object()
    ensures file.Valid() && (file.Intact() ==> file.Ready())
    ensures Answers(file.Content(), file.Intact(), old(file.Offset()), command, response, file.Offset())
  {
    EmptyIsReady(file);
    match command {
      case SeekTo(offset) =>
        var code := file.Seek(offset);
        response := Sought(code == Success);
      case ReadUpTo(size) =>
        var code, data := file.Read(size);
        response := Got(code, data);
    }
  }

  /** Any sequence of seeks and reads is answered as by the file's flat content. */
  method Use(file: File, commands: seq<Command>) returns (responses: seq<Response>)
    requires file.Valid() && (file.Intact() ==> file.Ready())
    modifies file.Object()
    ensures file.Valid() && Conforms(file.Content(), file.Intact(), old(file.Offset()), commands, responses)
    decreases |commands|
  {
    hide Answers;
    if commands == [] {
      return [];
    }
    var first := Execute(file, commands[0]);
    ghost var to := file.Offset();
    var rest := Use(file, commands[1..]);
    responses := [first] + rest;
    assert responses[0] == first && responses[1..] == rest;
    assert Answers(file.Content(), file.Intact(), old(file.Offset()), commands[0], responses[0], to);
  }
}
