# Verified model of Kup's delta codec, file cursor, folder selection, object cache and text formats

Kup is a backup program with a KIO slave for bup repositories and a bundled libgit2. This
project models five of its parts in Dafny and proves them against simple meanings.

1. **Binary deltas** (`DeltaFormat`, `DeltaApply`, `RabinHash`, `HashBuckets`, `DeltaIndex`,
   `DeltaEncoding`, `DeltaCreate`, `DeltaTheorems`). The meaning of an instruction stream is a recursive
   copy/insert interpreter. The decoder's loops are proved equal to it on every byte string.
   The encoder is an object whose fields are the locals of the C function; it back-patches
   literal counts, un-writes literals, splits copies and grows its buffer in place, and whatever
   delta it returns decodes to the target, for any index of any quality. Independently of that,
   the rolling hash is exact at every loop head, the index holds exactly the merged blocks and
   the culled chains it should, the early exit of the search never misses a longer match, and
   what an iteration copies is the longest match on offer. A delta has at most eight bytes for
   every five of its target, plus ten.
2. **Chunked files** (`ChunkTree`, `ChunkFile`, `FileDelivery`). A file is a tree of blobs, its
   meaning one flat byte sequence. The object store may lack objects and entry names may be
   unreadable: in such a damaged repository everything that is delivered is still the right
   slice, and in an intact one seeks and reads never fail.
3. **Folder selection** (`FolderPaths`, `FolderStatus`, `FolderSelection`, `FileScanner`,
   `SelectionWiring`). Two objects hold include and exclude lists and are kept in step by a queue
   of signals; one decides by recursion to the parent folder, the other by longest textual match.
4. **Object cache** (`ObjectCache`). A table of reference-counted objects with memory accounting.
5. **Text formats**. Config values written and read back (`ConfigText`, `ConfigFile`), and
   line-ending conversion with its statistics (`LineEndings`).

Conventions. Functions and predicates give meanings; methods follow the source's loops and branches
and are proved against them. A C pointer into a block is an index, NULL is -1 or the end position, a
parallel array of structs is an array of a datatype. Hash values are 32-bit vectors. Tables T and U
of `delta.c` are XOR-linear and are given by their eight power-of-two entries, from which the facts
the encoder relies on are proved. Masking a hash value is written as taking a remainder, which
`MaskIsRemainder` proves to be the same. A C string is a sequence of characters, each of which
stands for the number the code compares; where C `char` is signed, bytes from 0x80 on are negative,
equal none of the characters the code looks for (0x85 included) and are other characters of the
model, so the results about all text hold for either kind. The store of git objects is a map, a hash
table a sequence of optional slots, a queue of signals a sequence.

Where the code falls short of what one would expect, the model follows the code, says exactly
when, and names an input.

- Culling leaves every entry of a bucket that has fewer than 64 or 128 to 255 of them, only the
  first one of 64 to 127, and every floor(n/128)-th of n from 256 on, never more than 255
  (`CandidatesAreCulledMembers`). On a source of 64 blocks half of the blocks lose their only
  candidate (`CullingLosesBlocks`, `IndexLosingBlocks`).
- The size of the encoder's buffer wraps in 32 bits when it would grow beyond 1,570,824,171 bytes.
  The code then reallocates to 208,752,608 bytes and goes on behind them; the model stops with the
  outcome `SizeWraps`. That takes a target of at least 981,765,080 bytes and a max_size of 0 or
  above 1,570,824,171 (`Create`). For a source of at most 16 bytes, for which there is no index
  entry, it happens exactly from 1,558,552,067 bytes on (`RoundTrip`, `LiteralsWrapExactly`); the
  input is in `ShortestWrap`.
- `includePath`, `excludePath` and the toggle do not have their effect on paths that are listed
  without making a difference, which the setters allow, and the first two do nothing about
  exceptions below a listed path (`IncludeExactly`, `ExcludeExactly`, `ToggleExactly`; inputs in
  `IncludeFails`, `IncludeKeepsException`, `ToggleFails`).
- Overlapping lists can make the two inclusion rules differ (`OverlapAgreesExactly`,
  `OverlapFails`).
- A config value comes back only if it holds no `;` or `#` and neither starts nor ends with white
  space that is not escaped (`RoundTripExactly`, `CommentIsLost`).
- Normalising line endings is lossless only without CR CR LF (`NormalisingExactly`,
  `NormalisingFails`).
- A chunked file whose last chunk, or a tree on the way to it, is missing has size 0 for the code:
  `BupSlave::get` then delivers nothing, not even what could be read, and reports no error. With a
  computable size it reports none exactly when everything was delivered (`FileDelivery.Get`,
  `LastChunkMissing`).
- Reading past the end of a file through `BupSlave::read` delivers what is left and then an error
  (`FileDelivery.Read`).

## Model

| member | source | states |
|---|---|---|
| DeltaFormat.VarintRoundTrip | libgit2-0.19.0/src/delta-apply.c:18-37 | a size header written in base 128 is read back with its length, whatever follows it |
| DeltaFormat.FieldRoundTrip | libgit2-0.19.0/src/delta-apply.c:91-98 | operand bytes with zero bytes left out are read back from their presence flags |
| DeltaFormat.CopyReadsBack | libgit2-0.19.0/src/delta.c:367-384 | a copy instruction as the encoder lays it out is read back as that copy, 0x10000 having no size bytes |
| DeltaFormat.ReadIsLocal | libgit2-0.19.0/src/delta-apply.c:84-123 | reading an instruction never looks past its own bytes |
| DeltaFormat.InterpretConcat | libgit2-0.19.0/src/delta-apply.c:84-123 | a complete stream followed by another means the two results in a row, and fails exactly when the second does |
| DeltaFormat.InterpretCopy | libgit2-0.19.0/src/delta-apply.c:86-105 | a copy instruction alone means the named range of the base |
| DeltaFormat.InterpretInsert | libgit2-0.19.0/src/delta-apply.c:107-116 | a count byte and that many literals mean the literals |
| DeltaFormat.VarintExactly | libgit2-0.19.0/src/delta-apply.c:18-37 | a size is read from the bytes up to the first below 0x80, seven bits of each, low ones first, and not at all if there is none |
| DeltaFormat.CopyOperands | libgit2-0.19.0/src/delta-apply.c:86-99 | what every copy command says, flag by flag and byte by byte, and that it is malformed exactly if its operands are not all there |
| DeltaFormat.InsertOperands | libgit2-0.19.0/src/delta-apply.c:107-122 | an insert is its count and that many bytes; a zero command and missing bytes are malformed |
| DeltaFormat.OutOfRangeIsRefused | libgit2-0.19.0/src/delta-apply.c:101-102 | a copy that reaches beyond the base makes the whole stream fail |
| DeltaFormat.OtherBaseIsRefused | libgit2-0.19.0/src/delta-apply.c:65-68 | a delta whose first header is not the size of the base is refused |
| DeltaApply.HdrSz | libgit2-0.19.0/src/delta-apply.c:18-37 | the shifting loop reads exactly the base-128 number, and fails only when the bytes run out |
| DeltaApply.ReadHeader | libgit2-0.19.0/src/delta-apply.c:39-50 | yields both sizes exactly when both headers are complete |
| DeltaApply.ReadOp | libgit2-0.19.0/src/delta-apply.c:85-122 | decodes the instruction at the cursor or fails, as the format defines it |
| DeltaApply.ApplyOps | libgit2-0.19.0/src/delta-apply.c:84-133 | the command loop succeeds exactly when the stream is well formed, stays inside the base and yields the announced length, and then holds that result |
| DeltaApply.Apply | libgit2-0.19.0/src/delta-apply.c:52-134 | for every base and every delta bytes: a result exactly if the first header is the size of the base, the second is complete, and the instructions yield exactly as many bytes as it says; then these bytes and a NUL, otherwise null |
| RabinHash.TLinear | libgit2-0.19.0/src/delta.c:16-60 | table T is linear under exclusive or |
| RabinHash.PushStays31 | libgit2-0.19.0/src/delta.c:184 | a hash step keeps bit 31 clear, so indexing T stays inside 256 entries |
| RabinHash.FoldLinear | libgit2-0.19.0/src/delta.c:298 | hashing bytes onto a value splits into the faded value and the bytes on their own |
| RabinHash.UIsFade | libgit2-0.19.0/src/delta.c:62-106 | every entry of table U is its index pushed through fifteen zero bytes |
| RabinHash.SlideIsExact | libgit2-0.19.0/src/delta.c:307-308 | removing the leaving byte with U and pushing the entering one gives the new window's hash from scratch |
| HashBuckets.MaskIsOneLess | libgit2-0.19.0/src/delta.c:149 | the mask of a table of 2^k buckets is, as a number, one less than the table size |
| HashBuckets.MaskIsRemainder | libgit2-0.19.0/src/delta.c:190 | masking any 32-bit value with it is taking the remainder by the table size |
| DeltaIndex.HashBlock | libgit2-0.19.0/src/delta.c:182-184 | computes the hash of the sixteen bytes that end at the block's entry position |
| DeltaIndex.CollectIsSound | libgit2-0.19.0/src/delta.c:178-197 | the windows collected are genuine, in range, and at strictly decreasing positions |
| DeltaIndex.CollectIsComplete | libgit2-0.19.0/src/delta.c:185-187 | every block is represented by a window of its hash at or below it, runs by their lowest block |
| DeltaIndex.CollectIsExact | libgit2-0.19.0/src/delta.c:178-197 | exactly the blocks that start a run of equal hashes are collected |
| DeltaIndex.Fill | libgit2-0.19.0/src/delta.c:177-197 | after the fill loop the entries are the collected windows and each bucket chains exactly its own, latest first, with the right count |
| DeltaIndex.MembersIsComplete | libgit2-0.19.0/src/delta.c:190-195 | no entry is missing from the list of its bucket |
| DeltaIndex.SkipAhead | libgit2-0.19.0/src/delta.c:218-221 | the inner culling loop ends where the chain continues after skipping, or at its end; with skip 0 always at its end |
| DeltaIndex.CullChain | libgit2-0.19.0/src/delta.c:215-223 | relinks one bucket in place to every skip-th entry and leaves every other chain alone |
| DeltaIndex.ThinIsSubsequence | libgit2-0.19.0/src/delta.c:215-223 | thinning keeps the first entry and a subsequence |
| DeltaIndex.CulledExactly | libgit2-0.19.0/src/delta.c:211-224 | for a chain of any length which entries stay: all, the first, or every floor(n/128)-th, and never more than 255; all exactly below 64 and from 128 to 255 |
| DeltaIndex.CullBucket | libgit2-0.19.0/src/delta.c:211-224 | one step of the culling loop culls its bucket if it is long, leaves at most 255 entries of it and changes no other |
| DeltaIndex.TableSize | libgit2-0.19.0/src/delta.c:146-149 | the smallest power of two from 16 up that is at least a quarter of the entries, at most 2^31 |
| DeltaIndex.TableIsWellSized | libgit2-0.19.0/src/delta.c:146-149 | the table is a power of two, at least 16, and the smallest that has a bucket for four entries |
| DeltaIndex.CreateIndex | libgit2-0.19.0/src/delta.c:122-228 | NULL only for an empty buffer; otherwise each chain is the culled member list of its bucket, and below 4 GiB the entries are exactly the windows of the blocks, up to the last that fits behind the first byte, that do not repeat the hash of the block below them; the table size fits their number |
| DeltaIndex.FirstBlockIsHead | libgit2-0.19.0/src/delta.c:193-224 | the first block of the source heads its chain, culled or not |
| DeltaIndex.CandidatesAscend | libgit2-0.19.0/src/delta.c:193-194 | every chain, culled or not, lists genuine in-range windows at strictly increasing positions |
| DeltaIndex.CandidatesAreCulledMembers | libgit2-0.19.0/src/delta.c:211-224 | a search meets at most 255 candidates: a subsequence of the bucket with the same head, the whole bucket exactly below 64 entries and from 128 to 255, otherwise the first entry or every floor(n/128)-th |
| DeltaIndex.BlockIsOffered | libgit2-0.19.0/src/delta.c:177-224 | in a bucket that culling leaves complete every block that fits into the source behind its first byte has a candidate of its hash at or below it |
| DeltaIndex.MaskFindsBucket | libgit2-0.19.0/src/delta.c:309 | masking a hash value with the index's mask finds the bucket whose chain is searched |
| DeltaIndex.CullingLosesBlocks | libgit2-0.19.0/src/delta.c:211-224 | a source of 64 blocks on whose index only the first block is on offer and the hash of every second block has no candidate left |
| DeltaIndex.IndexLosingBlocks | libgit2-0.19.0/src/delta.c:122-228 | building the index of that source ends in this state |
| DeltaEncoding.CloseRun | libgit2-0.19.0/src/delta.c:338 | filling in the count slot turns the pending literals into an insert that extends the decoded prefix |
| DeltaEncoding.UnwriteRun | libgit2-0.19.0/src/delta.c:352-356 | dropping the only pending literal and its slot leaves a finished stream one byte shorter |
| DeltaEncoding.CommonSuffixIsLongest | libgit2-0.19.0/src/delta.c:347-350 | the number of bytes that can be matched backwards: these agree, and one more would differ, be missing or not be pending |
| DeltaEncoding.AppendCopy | libgit2-0.19.0/src/delta.c:363-388 | a copy of a true match extends the decoded prefix by the match |
| DeltaEncoding.FinishedDecodes | libgit2-0.19.0/src/delta.c:273-287 | a finished buffer decodes to the whole target |
| DeltaCreate.EarlyExitIsExact | libgit2-0.19.0/src/delta.c:316-319 | stopping at the first candidate that cannot beat the best match loses no longer match further on |
| DeltaCreate.Search | libgit2-0.19.0/src/delta.c:310-329 | the result is the carried-in match, or the first candidate with the longest match, or the first with 4096 bytes; below 4096 no candidate on the chain matches longer |
| DeltaCreate.SearchIsMaximum | libgit2-0.19.0/src/delta.c:310-329 | a search that ends below 4096 has found the maximum of the carried-in match and all same-hash candidates |
| DeltaCreate.Encoder.Begin | libgit2-0.19.0/src/delta.c:273-303 | headers and the first sixteen literals establish the invariant of the main loop, including the exact hash |
| DeltaCreate.Encoder.EmitLiteral | libgit2-0.19.0/src/delta.c:332-341 | one target byte joins the pending run, which is closed at 127; a slot is taken exactly when a run opens |
| DeltaCreate.Encoder.ExtendBackwards | libgit2-0.19.0/src/delta.c:346-361 | exactly as many literals are un-written as the match extends backwards, with the slot if none is left, even when the count reaches -1; the rest of the run is closed and the match stays true |
| DeltaCreate.Encoder.PutCopy | libgit2-0.19.0/src/delta.c:367-384 | writes exactly the copy instruction of the format in at most seven bytes, command byte patched last |
| DeltaCreate.Encoder.EmitCopy | libgit2-0.19.0/src/delta.c:342-397 | the output loses exactly the literals that the match extended backwards covers, and gains one copy of up to 64 KiB of it; the rest is carried over as a true match, the hash is exact again when it will be used |
| DeltaCreate.Encoder.FindMatch | libgit2-0.19.0/src/delta.c:305-330 | the match is true and the one the search settles for: the carried one, or the first that beats it as far as any does, up to 4096 bytes |
| DeltaCreate.Encoder.Iterate | libgit2-0.19.0/src/delta.c:304-397 | an iteration keeps the invariant; the match chosen, short of 4096 bytes the longest on offer, is copied with its backward extension if it has four bytes, else a literal comes out |
| DeltaCreate.Encoder.WholeCopy | libgit2-0.19.0/src/delta.c:304-397 | the first iteration on a target equal to the base un-writes all sixteen literals and copies the base as a whole |
| DeltaCreate.Encoder.GrowIfNeeded | libgit2-0.19.0/src/delta.c:399-411 | gives up exactly beyond max_size, wraps exactly when the output comes within MAX_OP_SIZE of 1,570,824,171 bytes and max_size does not stop it before, the new size then being below what is written; otherwise restores the slack |
| DeltaCreate.GrownIsLarger | libgit2-0.19.0/src/delta.c:401 | the new size is half as large again up to 0x55555555 and smaller than the old one beyond |
| DeltaCreate.NextSize | libgit2-0.19.0/src/delta.c:266-403 | the sizes a buffer grows through are never cut by the wrap up to 1,570,824,171 |
| DeltaCreate.Create | libgit2-0.19.0/src/delta.c:249-424 | every delta returned decodes to the target, respects max_size and has at most 8n/5 + 10 bytes; NULL only for an empty target or a max_size below that; the wrap only above 981,765,079 bytes; for a source of at most 16 bytes the outcome and the size exactly; for a target equal to the source, of 20 to 65,536 bytes, the delta is exactly the headers and one copy |
| DeltaTheorems.RoundTrip | libgit2-0.19.0/src/delta.c:249-424 | index, encode, decode: whenever a delta is made the decoder returns exactly the target; without max_size one is made for every target below 981,765,080 bytes, and for a source of at most 16 bytes exactly below 1,558,552,067 |
| DeltaTheorems.LiteralsWrapExactly | libgit2-0.19.0/src/delta.c:399-406 | literals alone reach the wrap exactly from 1,558,552,067 bytes on, if max_size lets the buffer grow so far |
| DeltaTheorems.ShortestWrap | libgit2-0.19.0/src/delta.c:399-406 | a source of one byte and a target of that size: the buffer size wraps |
| DeltaTheorems.EqualWindowsAreFound | libgit2-0.19.0/src/delta.c:305-330 | where a chained window equals the target's and the agreement goes on for n bytes, the longest match on offer has at least n |
| DeltaTheorems.AgreementIsCopied | libgit2-0.19.0/src/delta.c:304-397 | where it goes on for four bytes or more, the iteration copies, and copies or carries over at least as much as agrees, short of 4096 |
| ChunkTree.KidRange | kioslave/bupvfs.cpp:235 | an entry's subtree is the slice of its node's content that starts at its local offset |
| ChunkTree.PathDenotes | kioslave/bupvfs.cpp:209-248 | what stands at the end of a root-to-entry path is found in the flat content at the sum of the local offsets |
| ChunkTree.Ascend | kioslave/bupvfs.cpp:308-314 | leaving an exhausted level for the next entry above denotes the same offset |
| ChunkTree.DescendGetsCloser | kioslave/bupvfs.cpp:293-316 | entering a subtree reduces what is left to walk |
| ChunkTree.AscendGetsCloser | kioslave/bupvfs.cpp:293-316 | leaving a level reduces what is left to walk, so the loop ends |
| ChunkFile.CalculateChunkFileSize | kioslave/vfshelpers.cpp:153-182 | following last entries only gives the length of the whole content, or 0 exactly when something on the way is missing |
| ChunkFile.FindEntry | kioslave/bupvfs.cpp:213-232 | the binary search finds the last entry whose offset is at most the local offset |
| ChunkFile.ChunkFile.Size | kioslave/bupvfs.h:58-63 | caches the content's length; 0 exactly when it cannot be computed |
| ChunkFile.ChunkFile.BuildStack | kioslave/bupvfs.cpp:204-248 | the stack is a path to a blob and with the skip size denotes exactly the offset |
| ChunkFile.ChunkFile.Seek | kioslave/bupvfs.cpp:185-251 | success puts the cursor at the offset; in an intact repository it succeeds exactly below the size; an offset at or beyond the size changes nothing |
| ChunkFile.ChunkFile.NextBlob | kioslave/bupvfs.cpp:293-316 | the walk ends at the next blob, at the very end of the content, or before a missing subtree, at the same offset |
| ChunkFile.ChunkFile.Take | kioslave/bupvfs.cpp:276-287 | delivers the content from the offset on, as much as asked for or the rest of the blob |
| ChunkFile.ChunkFile.Read | kioslave/bupvfs.cpp:253-319 | every read returns the slice between old and new offset, non-empty and no longer than asked when it succeeds, and in an intact repository fails only at the end |
| ChunkFile.BlobFile.Read | kioslave/bupvfs.cpp:137-153 | the same for a file that is one blob |
| FileDelivery.Get | kioslave/bupslave.cpp:88-117 | emits the content from a valid resume offset on, otherwise from the start, and ends without error exactly when all of it has been emitted, as in an intact repository; but if the size cannot be computed it emits nothing and still ends without error |
| FileDelivery.LastChunkMissing | kioslave/bupslave.cpp:88-117 | a file of two chunks whose second is missing: nothing is emitted and no error reported |
| FileDelivery.Read | kioslave/bupslave.cpp:187-204 | emits the requested number of bytes or what is left, for requests of any size, and reports an error exactly when more was asked for than is left |
| FileDelivery.SameBytes | kioslave/bupslave.cpp:88-117 | a chunked file and a plain file of the same content deliver the same bytes |
| FileDelivery.Use | kioslave/bupvfs.cpp:185-319 | every sequence of seeks and reads is answered as by one flat byte sequence; in a damaged repository a command may fail, but nothing wrong is delivered |
| FolderPaths.CoversIsPrefix | kcm/folderselectionmodel.cpp:279-281 | the textual test with an appended slash is the prefix relation on components |
| FolderPaths.BelowIsProperPrefix | kcm/backupplanwidget.cpp:199-200 | the test with the slash alone leaves out the path itself |
| FolderPaths.LongerText | kcm/backupplanwidget.cpp:163 | of two covering paths the textually longer one has more components |
| FolderStatus.StateExactly | kcm/folderselectionmodel.cpp:228-251 | each of the five states, by the path's own entry or the nearest listed folder above it |
| FolderStatus.ToggleExactly | kcm/folderselectionmodel.cpp:135-158 | for any lists a toggle gives everything at or below the path the opposite of the path's status and changes nothing else, exactly when the path is not listed or its entry makes a difference |
| FolderStatus.ToggleTwice | kcm/folderselectionmodel.cpp:135-158 | for any lists the second toggle of a path takes effect, and two of them leave the first status exactly when the first one took effect |
| FolderStatus.NormalFormIsKept | kcm/folderselectionmodel.cpp:135-184 | in normal form every listed path makes a difference, and including, excluding and toggling keep normal form |
| FolderStatus.IncludeExactly | kcm/folderselectionmodel.cpp:160-171 | for any lists: everything at or below the path is included and nothing else changes, exactly when a path listed as included has no exception below it and one listed as excluded has an included parent |
| FolderStatus.ExcludeExactly | kcm/folderselectionmodel.cpp:173-184 | for any lists the same for excluding: a path listed as included has a parent that is not, one listed as excluded has no inclusion below it |
| FolderStatus.IncludeFails | kcm/folderselectionmodel.cpp:160-171 | an exclusion without an inclusion above it: including that path has no effect |
| FolderStatus.IncludeKeepsException | kcm/folderselectionmodel.cpp:160-164 | including a folder that is listed already leaves the exception below it |
| FolderStatus.ToggleFails | kcm/folderselectionmodel.cpp:135-158 | an inclusion below another one: the toggle leaves the path included |
| FolderStatus.AlgorithmsAgree | kcm/backupplanwidget.cpp:159-175 | for disjoint lists longest textual match and recursion to the parent decide alike for every path |
| FolderStatus.OverlapAgreesExactly | kcm/backupplanwidget.cpp:88-109 | with overlapping lists the mirrored scanner agrees on every path exactly when each doubly listed path is included by its parent |
| FolderStatus.OverlapFails | kcm/backupplanwidget.cpp:88-109 | a folder listed on both sides and nothing else: the model includes it, the mirrored scanner does not |
| FolderSelection.MirrorStep | kcm/backupplanwidget.cpp:305-312 | one announced change of the model keeps the scanner's lists the two set differences |
| FolderSelection.MirrorAfterRun | kcm/backupplanwidget.cpp:305-312 | so does any run of announced changes delivered in order |
| FolderSelection.FolderSelectionModel.State | kcm/folderselectionmodel.cpp:228-251 | computes the inclusion state by recursion to the parent |
| FolderSelection.FolderSelectionModel.RemoveSubDirs | kcm/folderselectionmodel.cpp:277-297 | erases exactly the listed paths at or below the given one, each announced once, in any order |
| FolderSelection.FolderSelectionModel.IncludePath | kcm/folderselectionmodel.cpp:160-171 | the new lists, with the pending signals still leading the scanner to their mirror |
| FolderSelection.FolderSelectionModel.ExcludePath | kcm/folderselectionmodel.cpp:173-184 | the new lists, with the pending signals still leading the scanner to their mirror |
| FolderSelection.FolderSelectionModel.Toggle | kcm/folderselectionmodel.cpp:135-158 | the method toggles: the effect of the toggle law exactly when the path's entry makes a difference, normal form kept |
| FolderSelection.FolderSelectionModel.SetIncludedPaths | kcm/folderselectionmodel.cpp:186-199 | the list is replaced at once and the differences announced afterwards lead to the mirror, for any set and order |
| FolderSelection.FolderSelectionModel.SetExcludedPaths | kcm/folderselectionmodel.cpp:201-214 | the same for the excluded list |
| FileScanner.ProblematicExactly | kcm/backupplanwidget.cpp:196-201 | a link is problematic exactly if its target exists, is not in the backup and not below one of the two folders for temporary files |
| FileScanner.FoldersInExactly | kcm/backupplanwidget.cpp:185-187 | of the entries scanned exactly the folders are scheduled |
| FileScanner.UpdatesAreMonotone | kcm/backupplanwidget.cpp:88-109 | including never takes a path out of the backup, excluding never adds one, and the lists stay disjoint |
| FileScanner.FileScanner.IsPathIncluded | kcm/backupplanwidget.cpp:159-175 | the two loops over the lists decide as the recursion would |
| FileScanner.FileScanner.CheckPathForProblems | kcm/backupplanwidget.cpp:177-194 | a link is recorded on the side its target calls for, a folder is scheduled, nothing else changes |
| FileScanner.FileScanner.IncludePath | kcm/backupplanwidget.cpp:88-104 | every recorded link ends on the right side and none is lost |
| FileScanner.FileScanner.ExcludePath | kcm/backupplanwidget.cpp:106-149 | every recorded link ends on the right side and exactly those outside the backup are dropped |
| FileScanner.FileScanner.HandleScan | kcm/backupplanwidget.cpp:77-86 | a posted folder that is still included contributes exactly its links and subfolders |
| FileScanner.FileScanner.SidesAreDisjoint | kcm/backupplanwidget.cpp:177-201 | no link is recorded both as problematic and as fine |
| SelectionWiring.Deliver | kcm/backupplanwidget.cpp:305-312 | delivering the oldest signal keeps model and scanner connected |
| SelectionWiring.DeliverAll | kcm/backupplanwidget.cpp:305-312 | once all signals are delivered the scanner holds the two differences of the model's lists and, for disjoint lists, decides alike |
| ObjectCache.CachedObj.Decref | libgit2-0.19.0/src/cache.c:261-280 | the count drops by one and the object is freed when it reaches zero |
| ObjectCache.Cache.MappedIsAlive | libgit2-0.19.0/src/cache.c:150-172 | an object in the table has not been freed and has a reference |
| ObjectCache.Cache.Release | libgit2-0.19.0/src/cache.c:261-280 | giving back an outside reference frees the object exactly if it was the last one and the object is not in the table |
| ObjectCache.Cache.Clear | libgit2-0.19.0/src/cache.c:79-93 | empties the table, frees exactly the objects nobody else holds, gives back its share of the global storage |
| ObjectCache.SeedStep | libgit2-0.19.0/src/cache.c:127 | the probe position advances by one round the table, also where the 32-bit seed wraps |
| ObjectCache.GapShrinks | libgit2-0.19.0/src/cache.c:126-138 | a probe that finds nothing comes closer to an occupied slot |
| ObjectCache.Cache.EvictFrom | libgit2-0.19.0/src/cache.c:126-138 | the probing loop ends, removes exactly the number asked for, frees exactly those nobody holds and sums up their sizes |
| ObjectCache.Cache.Evict | libgit2-0.19.0/src/cache.c:114-142 | removes exactly eight objects if there are eight, else all, frees exactly those nobody holds, adjusting memory and global storage alike |
| ObjectCache.Cache.Get | libgit2-0.19.0/src/cache.c:150-172 | hands out one more reference to a live stored object with acceptable flags, or nothing if there is none or the cache is disabled |
| ObjectCache.Cache.Upgrade | libgit2-0.19.0/src/cache.c:218-224 | a parsed object takes the place of the raw one, key and value, which is freed exactly if nobody holds it; the memory account is unchanged |
| ObjectCache.Cache.Insert | libgit2-0.19.0/src/cache.c:188-231 | a new oid is added; a stored object of the same flags is handed out, a raw one gives way to a parsed one, else the table stays; the caller's reference is on the object returned and all counts are right |
| ObjectCache.Cache.Store | libgit2-0.19.0/src/cache.c:174-232 | a disabled cache that holds something is cleared; above the storage limit eight objects go, or all of fewer, before an object is stored; then the table changes as for Insert; the caller gains exactly one reference, to an object of the same oid that has not been freed; whoever leaves is freed exactly if nobody holds it; counts, memory and global storage stay consistent |
| ConfigText.UnescapeEscape | libgit2-0.19.0/src/config_file.c:1283-1353 | un-escaping an escaped value gives the value |
| ConfigText.EscapedExactly | libgit2-0.19.0/src/config_file.c:1287-1314 | which five characters are escaped, and as what |
| ConfigText.UnescapeQuoted | libgit2-0.19.0/src/config_file.c:1327-1328 | plain quotes are not part of the value |
| ConfigText.UnescapeInvalid | libgit2-0.19.0/src/config_file.c:1331-1345 | a backslash before any other character is an error, one at the very end stays |
| ConfigText.EscapedRunIsEven | libgit2-0.19.0/src/config_file.c:1355-1366 | escaped text never ends in an odd run of backslashes, so it is never taken for a continued line |
| ConfigText.ContinuedExactly | libgit2-0.19.0/src/config_file.c:1355-1366 | a run of backslashes continues the line exactly if it is odd and something stands before it |
| ConfigText.ScanEscaped | libgit2-0.19.0/src/config_file.c:944-957 | the comment scan counts no quote in escaped text and stops exactly at its first comment character |
| ConfigText.WrittenReadsBack | libgit2-0.19.0/src/config_file.c:1203 | for every value, the line written is read back under the same name with exactly the part of the value that survives, and exactly the text behind the line is left to read |
| ConfigText.RoundTripExactly | libgit2-0.19.0/src/config_file.c:1203 | the same value comes back exactly when it holds no comment character and neither begins nor ends with unescaped white space |
| ConfigText.CommentIsLost | libgit2-0.19.0/src/config_file.c:944-957 | a value that is one semicolon comes back empty |
| ConfigText.SpaceInFront | libgit2-0.19.0/src/config_file.c:1453-1454 | all white space in front is left off, however much there is |
| ConfigText.SpaceAtEnd | libgit2-0.19.0/src/config_file.c:711 | all white space at the end of a line or a name is left off |
| ConfigText.CommentTakesOneSpace | libgit2-0.19.0/src/config_file.c:944-966 | a comment takes one white space character in front of it along, and no more |
| ConfigText.SoftExactly | libgit2-0.19.0/src/config_file.c:960 | the white space that escaping leaves as it is |
| ConfigText.QuotedIsKept | libgit2-0.19.0/src/config_file.c:1420-1483 | a value in quotes is read without them and with all its white space and comment characters, and the text behind the line is left |
| ConfigText.BackslashContinues | libgit2-0.19.0/src/config_file.c:1456-1472 | a value that ends in a backslash goes on in the next line |
| ConfigText.BareName | libgit2-0.19.0/src/config_file.c:1434-1447 | a name without an equals sign has no value |
| ConfigFile.EscapeValue | libgit2-0.19.0/src/config_file.c:1287-1314 | the loop over the two character tables computes the escaped text |
| ConfigFile.FixupLine | libgit2-0.19.0/src/config_file.c:1317-1353 | computes the un-escaped text, or fails exactly at an invalid escape |
| ConfigFile.IsMultilineVar | libgit2-0.19.0/src/config_file.c:1355-1366 | decides whether an odd run of backslashes ends the text behind something else |
| ConfigFile.StripComments | libgit2-0.19.0/src/config_file.c:944-966 | cuts at the first comment character outside quotes and one space before it, counting quotes |
| ConfigFile.Reader.CfgReadline | libgit2-0.19.0/src/config_file.c:682-723 | returns the next line without trailing space and moves behind its newline, noting the end of the text |
| ConfigFile.Reader.ParseVariable | libgit2-0.19.0/src/config_file.c:1420-1483 | the name and value of the next line, a missing value, a continued value or an invalid escape; the reader moves behind that line |
| ConfigFile.WriteThenRead | libgit2-0.19.0/src/config_file.c:1420-1483 | writing a value with the loops above in front of any text and reading it back gives the value exactly when it is storable, and leaves that text |
| LineEndings.CrlfToLf | libgit2-0.19.0/src/buf_text.c:63-100 | copying in chunks drops exactly the carriage returns in front of line feeds; not found means nothing to drop |
| LineEndings.LfToCrlf | libgit2-0.19.0/src/buf_text.c:102-138 | copying in chunks adds a carriage return to exactly the line feeds that lack one |
| LineEndings.ToCrlfIdempotent | libgit2-0.19.0/src/buf_text.c:121-122 | adding carriage returns twice is adding them once |
| LineEndings.NoBareLf | libgit2-0.19.0/src/buf_text.c:102-138 | afterwards every line feed follows a carriage return |
| LineEndings.LfOfCrlf | libgit2-0.19.0/src/buf_text.c:63-138 | dropping carriage returns after adding them is dropping them |
| LineEndings.NormalisingExactly | libgit2-0.19.0/src/buf_text.c:63-138 | normalising before adding makes no difference exactly when the text holds no CR CR LF |
| LineEndings.NormalisingFails | libgit2-0.19.0/src/buf_text.c:63-138 | on CR CR LF the two conversions give different texts |
| LineEndings.NoLoneCrExactly | libgit2-0.19.0/src/buf_text.c:89-91 | no carriage return is left exactly when none stood alone |
| LineEndings.StatsTellLoneCr | libgit2-0.19.0/src/buf_text.c:252-279 | equal CR and CRLF counts mean no lone carriage return in the whole buffer, whatever mark or EOF character is left out of the count |
| LineEndings.BomExactly | libgit2-0.19.0/src/buf_text.c:194-242 | which bytes are which mark, and how long it is |
| LineEndings.WindowShifts | libgit2-0.19.0/src/buf_text.c:253-259 | what is counted lies behind the mark, if that is skipped, and in front of a final EOF character |
| LineEndings.TallyCounts | libgit2-0.19.0/src/buf_text.c:262-287 | each counter is the number of bytes of its class, and the classes exhaust the bytes |
| LineEndings.CleanWhenCountsAgree | libgit2-0.19.0/src/buf_text.c:244-291 | with equal counts conversion to line feeds leaves no carriage return and loses nothing |
| LineEndings.GatherStats | libgit2-0.19.0/src/buf_text.c:244-291 | the counting loop gives the tally of the counted part and the binary verdict |

## Left out

- DeltaApply.Apply: offset and size operands are mathematical integers (the shift of a promoted byte by 24 into the sign bit is not modelled), and operands that would be read past the end of the delta count as a failure.
- DeltaApply.ReadOp: as for DeltaApply.Apply, operands read past the end count as a failure and C integer widths are not modelled.
- DeltaApply.HdrSz: the width of size_t and shifts beyond it are not modelled.
- DeltaCreate.Create: bases and targets have fewer than 2^31 bytes, the range in which 32-bit headers and offsets are exact; allocation failure is not modelled.
- DeltaCreate.Encoder.GrowIfNeeded: at the wrap the model stops; what C does from there on, writing behind a buffer that is shorter than its content, is undefined and not modelled.
- DeltaTheorems.RoundTrip: for sources of more than 16 bytes whether the wrap is reached at or above 981,765,080 bytes depends on the matches and is not described further.
- ChunkFile.ChunkFile.Read: trees are well formed (no empty nodes or blobs, local offsets that fit a uint, blobs that fit an int), so the test for a negative available size never fires and is not written; stack elements are values, so the sharing of a TreePosition between the list and a local pointer is not modelled.
- ChunkTree.KidRange: entry names are already parsed; the hexadecimal parsing of Qt is not part of this model.
- FolderStatus.AlgorithmsAgree: the root folder "/", which both algorithms treat specially, is not a path of the model.
- FileScanner.FileScanner.ExcludePath: the lists of unreadable files and folders and all timers are not modelled.
- FileScanner.FileScanner.CheckPathForProblems: a file that cannot be read is not recorded.
- FileScanner.FileScanner.HandleScan: a folder that cannot be read is not recorded.
- ObjectCache.Cache.Store: the hashing and rehashing of khash is not modelled; a new entry goes to any vacant slot of a table that may first be doubled, and locks and allocations never fail.
- ConfigFile.Reader.ParseVariable: joining continued lines (parse_multiline_variable) is not modelled; a continued value is reported as such.
- ConfigText.WrittenReadsBack: values are C strings without NUL.
- Section headers, multivars and the rewriting of whole config files are not modelled.
- Growth of git_buf in the line-ending code is not modelled.
- The Qt and KDE user interface, KIO signalling beyond the delivered blocks, plan executors and process launching are not modelled.
