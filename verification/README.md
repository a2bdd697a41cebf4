# AmiSync: a verified model

AmiSync is a Syncthing daemon for the Amiga. This project models the parts of it that live
in memory and carry its correctness, in Dafny 4.11, and proves what they keep.
`dafny verify dfyconfig.toml` checks everything.

| part | modules | what is proved about it |
|---|---|---|
| LZ4 block codec (`src/lz4.c`) | `Lz4Format`, `Lz4Laws`, `Lz4Copy`, `Lz4Decompress`, `Lz4Emit`, `Lz4Compress`, `Lz4RoundTrip` | the safe decoder refines a byte-at-a-time one and stays in bounds; exactly which blocks it accepts; everything the compressor emits decodes to its source |
| shared folder index (`src/foldstate.c`) | `FoldRows`, `FoldState`, `FoldWants`, `FoldShare` | parallel arrays and hash chains act as a simple map through any run of calls, with allocations failing at will; wanted-content sets; fetch claims |
| index persistence (`src/pbuf.c`, `src/index_store.c`, the saving half of `src/scanner.c`, the loading half of `src/daemon.c`) | `PbufFormat`, `Pbuf`, `IndexFormat`, `IndexLaws`, `IndexBytes`, `IndexStore`, `IndexLoad`, `SaveProtocol` | round trip, refusal of every truncated file, an exact condition for the size estimate, and: clean means saved, over all runs |
| BEP framing and Index batches (`src/bep.c`) | `BepFormat`, `BepBytes`, `BepConn`, `IndexMessage`, `MessageBytes`, `IndexBatch` | message streams survive every chunking of reads and writes; a cut stream yields only whole messages; batches iterate back |
| scan passes (`src/scanner.c`) | `ScanPass`, `ScanFields`, `ScanSteps` | the deletion sweep against interleaved commits |
| worker supervision (`src/peer.c`) | `Supervision`, `PeerManager`, `PeerFields` | one startup block per slot, signals only to live workers, totals that count each session once, a shutdown that returns only when all are gone |
| small kernels (`src/pathsafe.c`, `src/ignore.c`, `src/log.c`, `src/daemon.c`, `src/device_id.c`) | `Utf8Names`, `Utf8Rules`, `PathSafe`, `Glob`, `GlobRules`, `CivilDate`, `DeviceId`, `DeviceIdText` | name mapping, glob matching, dates, device IDs |

How it is built. Every C function that loops or updates something is a method with the same
branches, constants and error results, on arrays or on a class with the same fields, proved
against a specification function or against a ghost value of the object. What the function is
for is then proved about the specification by lemmas. Specifications are not taken on trust either: what they say is
also stated without them, in bytes, fields and numbers (`Lz4Laws.DecodesExactly`, `IndexBytes`, `BepBytes`, `MessageBytes`,
`ScanFields`, `PeerFields`, `Utf8Rules`, `GlobRules`, `DeviceIdText`). Characters and bytes are
`byte` values; integer widths are written out where they matter.

Nondeterminism. An allocation may fail at any time and the transport may deliver or take any
number of bytes, or fail. The constants `ample` (no allocation fails) and `reliable` (the transport
does not fail) appear only in ensures clauses, and in the round trips that need them, to say
that nothing else makes an operation fail. Workers may end whenever the supervisor calls GetMsg
or WaitPort outside Forbid(), and just before Forbid() takes effect; these are the only places where
it could tell. The name hash is a
parameter, wanted content is its key, and of the LZ4 hash only its range is used: no result depends on
the value of a hash.

## What turned out false, or differs from the comments

- The decoder's shortcut lets a match run to the very end of the output, although the last
  five bytes are documented as literals (`src/lz4.c:2221-2260`, `Lz4Laws.ShortcutSkipsEndRules`). The exact set of
  accepted blocks is `Lz4Laws.DecodeEncode`. Offset 0 is accepted too, and yields zero bytes (`src/lz4.c:2406-2414`).
- The estimate of `index_store_size` is too small in one family only: a negative sequence,
  no record, and a folder id and short id of more than 72 bytes together (`IndexLaws.EstimateIsEnough`).
  Its comment counts one byte for the value of the type field, which can take two; the spare bytes cover it (`src/index_store.c:72-83`).
- Loading an index can leave it clean while the disk holds something else: when the file was not read
  whole (`src/daemon.c:250-257`), and when memory fails inside decoding, which costs a record, a block
  list or counters without a word (`src/index_store.c:241-248`). `SaveProtocol.LoadIsSaved` and
  `SavedIndexLoads` are the exact condition, `LoadWithoutMemory` and `LoadWithoutBlocks` inputs.
- `sync_bump_version` is documented to force our counter strictly up; it does not when the vector
  is full without ours, or when ours is the largest 64-bit number (`ScanPass.BumpRaisesOurs`).
- An entry the walk listed but that vanished before it was hashed is swept; the code does this
  on purpose (`src/scanner.c:652-666`), so "reported" in `ScanPass.PassIsSafe` means marked or committed.
- The seventeenth owner of wanted content records nothing, where the comment above the code
  has everything count as wanted (`src/foldstate.c:185-204`, `FoldShare.Wants.WantAdd`).
- The Index iterator's error flag misses a tag that cannot be read, at the end or anywhere, and with it
  all that follows; exactly when is `IndexMessage.UnnoticedExactly`, an input `LongTagHidesTheRest`.
- A connection lost after the first of the two bytes of a header length reads as a clean close
  (`src/bep.c:1299-1304`, `BepFormat.OneByteReadsAsClosed`); exactly when is `BepFormat.AcceptedCut`.
- Two different accepted device IDs can stand for the same bytes, the last data character having four
  bits to spare; `DeviceId.WrittenAgain` is the exact condition.
- The wire-to-disk name mapping is not an inverse on names some component of which is, as Latin-1,
  again valid UTF-8; the exact condition is `Utf8Names.WireNameRoundTrip`.

## Model

| member | source | states |
|---|---|---|
| `Lz4Decompress.DecompressSafe` | src/lz4.c:2023-2456 | For every source, destination and capacity the two-stage loop with its shortcut and wild copies returns what the byte-at-a-time decoder `Decode` gives: the decoded length with exactly those bytes in front, or minus the failing position minus one; no byte at or past the capacity changes. |
| `Lz4Laws.DecodeEncode` | src/lz4.c:2023-2445 | A block written from any list of sequences decodes to its meaning exactly when `Accepted` holds (room for output and the end-of-block tests, shortcut included), and is refused as corrupt in every other case. |
| `Lz4Laws.DecodedIsWellFormed` | src/lz4.c:2214-2445 | Whatever decodes at all is the encoding of some list of sequences whose offsets reach only into earlier output, and the result is what that list means. |
| `Lz4Laws.EndRulesSuffice` | src/lz4.c:245-246 | A block whose every match starts at least 12 bytes and ends at least 5 bytes before the end of the output decodes to its meaning in any buffer that holds it. |
| `Lz4Laws.EndRulesAre` | src/lz4.c:245-246 | The end rules hold of a list of sequences exactly when they hold of each one where it stands. |
| `Lz4Laws.DecodesExactly` | src/lz4.c:2214-2434 | Which blocks decode, sequence by sequence and in numbers: fewer than 15 literals, 16 bytes of block and 32 of room for the shortcut; 12 bytes of room and 8 of block otherwise; 5 bytes of room behind a match; and that what decodes is the meaning. |
| `Lz4Laws.LateMatchRefused` | src/lz4.c:2302-2434 | Outside the shortcut a match that starts less than 12 or ends less than 5 bytes before the end of the room is refused, wherever it stands. |
| `Lz4Laws.LiteralsInBytes` | src/lz4.c:2217-2334 | A literal run byte by byte: high half of the token, bytes of 255 and a rest adding up to the length less 15, the literals. |
| `Lz4Laws.SequenceInBytes` | src/lz4.c:2336-2384 | A sequence byte by byte: the offset least byte first, the match length less 4 in the low half of the token or 15 and a rest behind the offset. |
| `Lz4Laws.ExtShape` | src/lz4.c:1979-2014 | The extension of a length is so many bytes of 255 and one of the remainder. |
| `Lz4Laws.OutputLenGrows` | src/lz4.c:245-246 | The output never gets shorter from sequence to sequence. |
| `Lz4Laws.ShortcutSkipsEndRules` | src/lz4.c:2221-2260 | A concrete block whose match runs to the very end of the output, against the last-five-literals rule, is accepted through the shortcut. |
| `Lz4Laws.ReadOneSequence` | src/lz4.c:2218-2440 | One sequence in place is taken as itself exactly when `SequenceAccepted` says so, given how much input follows and how much room is left, and refused otherwise. |
| `Lz4Laws.RunOfExt` | src/lz4.c:1979-2014 | A length extension reads back as the length it was written for, if and only if it ends by the limit and stays under the largest length. |
| `Lz4Laws.ExtOfRun` | src/lz4.c:1979-2014 | Every length the reader accepts is written in the one way the encoder writes it. |
| `Lz4Decompress.ReadVariableLength` | src/lz4.c:1979-2014 | The loop reads what `ReadRun` reads, or stops with an error where it does; with the initial check nothing is read at the limit. |
| `Lz4Decompress.ScanLiterals` | src/lz4.c:2217-2334 | The literal stage decides as `ReadLiterals` does: bad, last literals of the block, or more to come, by the shortcut or not. |
| `Lz4Decompress.CopyLiterals` | src/lz4.c:2230-2334 | A 16-byte or wild copy leaves the output so far followed by exactly the literals, and writes nothing at or past the capacity. |
| `Lz4Decompress.CopyLast` | src/lz4.c:2308-2322 | The last literals are copied exactly. |
| `Lz4Decompress.CopyEighteen` | src/lz4.c:2245-2256 | The shortcut's fixed 18-byte copy makes the byte-wise match copy of any length up to 18 when the offset is at least eight. |
| `Lz4Decompress.DecodeMatch` | src/lz4.c:2336-2434 | The match stage appends the byte-wise overlapping copy, or refuses at the position `ReadMatch` refuses. |
| `Lz4Decompress.DecodeTurn` | src/lz4.c:2215-2443 | One turn of the loop is one step of the byte-wise decoder: same end, same error position, or the same output extended by one sequence. |
| `Lz4Copy.CopyMatchInPlace` | src/lz4.c:2387-2434 | In place, by the offset tables, wild copies and the careful end, a match becomes the byte-wise copy exactly when it leaves five bytes of room; otherwise it is refused. |
| `Lz4Copy.WildCopy8` | src/lz4.c:465-472 | Eight bytes at a time at distance d makes the output repeat with period d up to the last byte written, at most seven past the end. |
| `Lz4Copy.RepeatsIsCopyMatch` | src/lz4.c:2387-2434 | A region repeats with an offset if and only if it is what copying the match one byte at a time gives. |
| `Lz4Copy.CopyMatchBytes` | src/lz4.c:2387-2434 | A match copy is right if and only if each of its bytes is the one an offset before it, or zero for offset 0. |
| `Lz4Copy.CopyFirstEight` | src/lz4.c:2406-2419 | The first eight bytes of a match, by the two offset tables, repeat with the true offset, also for offsets 0 to 7. |
| `Lz4Copy.DistanceIsWhole` | src/lz4.c:474-475 | The distance the tables switch to is a whole number of true offsets, for every offset above 0. |
| `Lz4Copy.RepeatsContinue` | src/lz4.c:2406-2434 | Eight right bytes continued at that distance stay right for the whole match. |
| `Lz4Copy.ContinueMatch` | src/lz4.c:2421-2434 | The rest of the match, wild or byte by byte near the end, repeats at its distance and never writes past the capacity. |
| `Lz4RoundTrip.RoundTrip` | src/lz4.c:1382-1475 | Compressing and then decompressing into a buffer with room for the source gives back its length and every byte whenever the compressor returned nonzero; with n + n/255 + 16 bytes of room it always does. |
| `Lz4Compress.CompressDefault` | src/lz4.c:1382-1403 | A nonzero result is within the capacity and its bytes encode the source by the end rules; with the worst-case capacity it succeeds within n + n/255 + 16; nothing is written before the start, past the capacity or past that bound. |
| `Lz4Compress.CompressBlock` | src/lz4.c:930-1338 | From any table kind, acceleration and start position the output encodes the source; unlimited mode always succeeds; limited mode fails or stays below the limit, wild copies included. |
| `Lz4Compress.CompressRound` | src/lz4.c:1014-1300 | One search and the matches found from it keep the output so far an encoding of the input so far, and the size bound. |
| `Lz4Compress.EmitMatches` | src/lz4.c:1104-1295 | Matches that follow one another directly keep the same, and the table holds only earlier positions. |
| `Lz4Compress.EmitMatch` | src/lz4.c:1138-1226 | Offset and length bytes after the token and literals make one encoded sequence whose match really occurs at that offset; failing only in limited mode. |
| `Lz4Compress.FinishBlock` | src/lz4.c:1302-1338 | The last literals complete the encoding of the whole source; unlimited mode cannot fail. |
| `Lz4Compress.FindMatch` | src/lz4.c:1019-1103 | A match found starts with four equal bytes, lies before its place, within the distance limit, and twelve bytes or more before the end. |
| `Lz4Compress.CatchUp` | src/lz4.c:1104-1109 | Stepping back keeps the match equal and goes neither past the anchor nor the start. |
| `Lz4Compress.Count` | src/lz4.c:680-703 | The length found is the longest common run up to the limit: equal so far, and different next unless at the limit. |
| `Lz4Compress.TestNext` | src/lz4.c:1235-1300 | A hit right after a match is a true four-byte match within the distance limit. |
| `Lz4Compress.EncodingDecodes` | src/lz4.c:245-246 | Any block the compressor's rules describe decodes to the source, in a buffer of exactly its size or more. |
| `Lz4Emit.EmitLiterals` | src/lz4.c:1111-1129 | Token, length bytes and wildly copied literals are the encoded literals, and nothing past the room that was checked changes. |
| `Lz4Emit.WriteExt` | src/lz4.c:1123-1128 | The length bytes of literals, one 255 at a time, are the length extension. |
| `Lz4Emit.EmitToken` | src/lz4.c:1111-1129 | The token carries the literal length or 15 with its extension. |
| `Lz4Emit.EmitMatchLength` | src/lz4.c:1213-1225 | The match length fills the lower half of the token already written, or 15 with its extension. |
| `Lz4Emit.WriteMatchExt` | src/lz4.c:1187-1226 | The length bytes of a match, written four 255s at a time, are the length extension; the overrun stays inside the budget. |
| `Lz4Emit.EmitLast` | src/lz4.c:1317-1328 | The last literals, copied exactly. |
| `FoldRows.RunAgrees` | src/foldstate.c:677-875 | After any list of operations, any of whose allocations may have failed, the table of rows still shows exactly the simple map from names to entries the same operations make. |
| `FoldRows.StepShows` | src/foldstate.c:677-875 | Each operation on the rows is the matching operation on the map. |
| `FoldRows.StepInFields` | src/foldstate.c:677-875 | What each call does to the entry of any name, field by field: which names stay, what an upsert stores of metadata, counters and blocks under which allocation, what marking and clearing touch. |
| `FoldRows.PruneKeeps` | src/foldstate.c:838-875 | After a prune a record is there if and only if it was and is live or not older than the cutoff. |
| `FoldRows.ForgetUnseenKeeps` | src/foldstate.c:794-835 | After forgetting the unseen a record is there if and only if it was and is deleted, invalid, marked or newer than the walk. |
| `FoldRows.ForgetKeeps` | src/foldstate.c:757-792 | After forgetting a name exactly the records of other names are there, as they were. |
| `FoldRows.CompactKeeps` | src/foldstate.c:794-875 | The compaction loop, looking again at the slot it filled, keeps exactly the records its test does not select. |
| `FoldRows.CompactShrinks` | src/foldstate.c:794-875 | It removes something if and only if its test selects something. |
| `FoldRows.FindIsLookup` | src/foldstate.c:620-636 | Finding a name among the rows is looking it up in the map, present or not. |
| `FoldRows.ShownMapIsUnique` | src/foldstate.c:620-636 | There is only one map a table can show. |
| `FoldRows.UpsertShows` | src/foldstate.c:677-720 | An upsert changes the entry of its name and no other, keeping the seen mark of an existing one; without room it changes nothing. |
| `FoldRows.ForgetShows` | src/foldstate.c:757-792 | Swap-remove takes exactly the one name out of the map. |
| `FoldRows.CompactShows` | src/foldstate.c:794-875 | Compaction by swap-remove while walking takes out exactly the entries its condition selects, visiting the rows that moved. |
| `FoldRows.MetaRoundTrip` | src/foldstate.c:472-550 | A record gives back the metadata put in, its vector too when it is short enough to be kept inside or there was memory to spill it. |
| `FoldState.FolderState.FindSlot` | src/foldstate.c:620-630 | The walk down one hash chain ends, and finds the slot of the name or that there is none, whatever the hash function. |
| `FoldState.FolderState.HashLink` | src/foldstate.c:366-371 | Linking a slot makes every bucket chain, of strictly falling slots, hold one more. |
| `FoldState.FolderState.HashRebuild` | src/foldstate.c:377-384 | Chains rebuilt from the names are right for all slots. |
| `FoldState.FolderState.EnsureCap` | src/foldstate.c:392-452 | Growing keeps every row and chain, whether or not memory for the new arrays was there; success means room. |
| `FoldState.FolderState.Grow` | src/foldstate.c:409-452 | Five data arrays and two hash arrays are moved slot by slot and the chains rebuilt; no row is lost. |
| `FoldState.FolderState.GrownCap` | src/foldstate.c:392-407 | The new capacity holds what is needed and stays within the ceiling. |
| `FoldState.FolderState.SetBlocks` | src/foldstate.c:659-675 | The list of block hashes is replaced whole, or emptied when there is no memory; no other slot changes. |
| `FoldState.FolderState.Replace` | src/foldstate.c:701-704 | The record and blocks of one slot are replaced where they are, name, mark and chains kept. |
| `FoldState.FolderState.Append` | src/foldstate.c:686-704 | The new record goes last, unmarked and linked; without memory for its name nothing changes. |
| `FoldState.FolderState.Insert` | src/foldstate.c:683-704 | A new name goes in exactly if there is room below the ceiling and memory. |
| `FoldState.FolderState.Upsert` | src/foldstate.c:677-720 | The rows afterwards are the specified ones for what the allocations did; a failed upsert leaves everything as it was; a successful one leaves the index dirty. |
| `FoldState.FolderState.Forget` | src/foldstate.c:757-792 | The row of the name is swap-removed and the chains are rebuilt; dirty flag and prune generation move only then. |
| `FoldState.FolderState.TakeTail` | src/foldstate.c:769-786 | Swap-remove moves the last slot of all five arrays into the hole. |
| `FoldState.FolderState.LinearSearch` | src/foldstate.c:761-765 | The search without chains finds the same slot. |
| `FoldState.FolderState.DropUnseen` | src/foldstate.c:798-829 | The loop looks again at a slot it has just filled, and counts what it removed. |
| `FoldState.FolderState.DropTombstones` | src/foldstate.c:842-868 | The same for tombstones. |
| `FoldState.FolderState.ForgetUnseen` | src/foldstate.c:794-836 | Exactly the live, unmarked, old enough records go; the count is right; nothing else happens when it is zero. |
| `FoldState.FolderState.PruneTombstones` | src/foldstate.c:838-875 | Exactly the tombstones older than the cutoff go; the sequence stays. |
| `FoldState.FolderState.ClearSeen` | src/foldstate.c:722-726 | Every mark is cleared and nothing else. |
| `FoldState.FolderState.MarkSeen` | src/foldstate.c:728-733 | The mark of that name is set and nothing else. |
| `FoldState.FolderState.NextSeq` | src/foldstate.c:735-739 | A number never given before, and the index is dirty. |
| `FoldState.FolderState.Find` | src/foldstate.c:632-653 | The entry found in the arrays is the one in the simple map. |
| `FoldState.FolderState.Reset` | src/foldstate.c:60-96 | Empty again, with chains and arrays in order. |
| `FoldState.FolderState.constructor` | src/foldstate.c:30-40 | A new index is empty, valid and clean. |
| `FoldShare.Claims.Claim` | src/foldstate.c:130-153 | A name hash has one holder at most: the claim is granted to the present holder or to the first who asks while a slot is free, and refused otherwise without change. |
| `FoldShare.Claims.Unclaim` | src/foldstate.c:155-166 | All the owner's claims go and nobody else's. |
| `FoldShare.Wants.WantAny` | src/foldstate.c:266-300 | True if and only if some owner still wants this content or some owner's set has overflowed. |
| `FoldShare.Wants.WantAdd` | src/foldstate.c:248-264 | The content is recorded for its owner; a new owner gets a slot while there is one, and the seventeenth records nothing. |
| `FoldShare.Wants.WantClear` | src/foldstate.c:302-325 | Nothing is wanted by this owner any more, others untouched. |
| `FoldShare.Wants.WantRelease` | src/foldstate.c:343-363 | The owner is forgotten and its slot free. |
| `FoldShare.Wants.WantIdle` | src/foldstate.c:327-341 | True exactly when no owner wants anything and none has overflowed. |
| `FoldShare.Wants.FindSet` | src/foldstate.c:188-204 | The owner's own set, else a free one, else none. |
| `FoldWants.FolderWantSet.Put` | src/foldstate.c:207-219 | Probing to the key or an empty slot adds just this key and keeps every other key findable. |
| `FoldWants.FolderWantSet.Grow` | src/foldstate.c:223-246 | Rehashing into a larger table keeps the wanted keys; when it fails nothing changes; on success the table is less than half full. |
| `FoldWants.FolderWantSet.Add` | src/foldstate.c:248-264 | The key is added, or the set is marked as overflowing for good. |
| `FoldWants.FolderWantSet.Holds` | src/foldstate.c:266-300 | The probe stops, and says exactly whether the key is wanted. |
| `FoldWants.FolderWantSet.Clear` | src/foldstate.c:302-325 | The table is emptied and the overflow forgotten. |
| `FoldWants.FolderWantSet.Release` | src/foldstate.c:343-363 | The table is freed and the slot given up. |
| `FoldWants.PutIsNew` | src/foldstate.c:207-219 | A probe that comes to an empty slot was for a key that is not there, so the count is right. |
| `FoldWants.PutFindable` | src/foldstate.c:207-219 | Filling the first empty slot on its probe path adds one member and breaks no other probe. |
| `FoldWants.AnswersMembers` | src/foldstate.c:266-300 | In a findable table a probe answers membership, both ways. |
| `PbufFormat.VarintRoundTrip` | src/pbuf.c:28-53 | A 64-bit number is read back as itself, wherever it stands, and the cursor is just past it. |
| `PbufFormat.VarintInBytes` | src/pbuf.c:172-183 | A varint byte by byte: the digits to base 128, least first, 128 added to all but the last, and no more of them than needed. |
| `PbufFormat.FieldInBytes` | src/pbuf.c:185-222 | A field in bytes: number times eight plus 0, 2, 1 or 5 as tag, then the number, or length and bytes, or eight or four bytes. |
| `PbufFormat.LongNumberWraps` | src/pbuf.c:55-68 | Of a longer field number the low 32 bits are kept. |
| `PbufFormat.SignedRoundTrip` | src/pbuf.c:196-214 | Signed 64- and 32-bit numbers survive their unsigned image. |
| `PbufFormat.FieldRoundTrip` | src/pbuf.c:55-133 | Any field written is read back with its number, type and value. |
| `PbufFormat.FieldCut` | src/pbuf.c:28-84 | A field cut short anywhere after its start is refused. |
| `PbufFormat.ParseExactly` | src/pbuf.c:28-133 | A list of fields parses as exactly that list, with a clean end. |
| `PbufFormat.ParseStrictPrefix` | src/pbuf.c:28-133 | A strict prefix parses as some of the first fields, never all. |
| `PbufFormat.VarintFails` | src/pbuf.c:28-53 | A number cannot be read if and only if every byte up to the tenth, or up to the end, says that another follows. |
| `PbufFormat.CleanIsEnded` | src/pbuf.c:55-68 | Parsing is clean exactly when it stops neither at a tag nor at a value. |
| `Pbuf.PbufReader.ReadVarint` | src/pbuf.c:28-53 | At most ten bytes, added up in 64-bit arithmetic, give the value the format assigns; a cut or overlong number sets the sticky error. |
| `Pbuf.PbufReader.ReadTag` | src/pbuf.c:55-68 | A tag is split into number and type; a clean end and a failure are told apart by the error flag. |
| `Pbuf.PbufReader.ReadBytes` | src/pbuf.c:70-84 | The bytes of a length-delimited value, refused when they reach past the end. |
| `Pbuf.PbufReader.ReadFixed` | src/pbuf.c:86-115 | Four or eight bytes are passed over, or the error is set. |
| `Pbuf.PbufReader.Skip` | src/pbuf.c:117-133 | Any value of a known type is passed over exactly; an unknown type is an error. |
| `Pbuf.PbufReader.Eof` | src/pbuf.c:23-26 | True at the end without an error only. |
| `Pbuf.PbufWriter.PutByte` | src/pbuf.c:145-155 | The byte is added to the output, the error stays set once the output no longer fits, and no byte past the capacity is touched. |
| `Pbuf.PbufWriter.PutRaw` | src/pbuf.c:157-170 | The same for many bytes: all of them or none. |
| `Pbuf.PbufWriter.WriteVarint` | src/pbuf.c:172-183 | The output grows by the varint of the number. |
| `Pbuf.PbufWriter.WriteTag` | src/pbuf.c:185-188 | The output grows by the tag of field number and type. |
| `Pbuf.PbufWriter.WriteUint64` | src/pbuf.c:190-194 | Tag and number make one field. |
| `Pbuf.PbufWriter.WriteInt64` | src/pbuf.c:196-201 | A negative number goes out sign-extended. |
| `Pbuf.PbufWriter.WriteEnum` | src/pbuf.c:211-214 | An enum is cut to 32 bits, not sign-extended. |
| `Pbuf.PbufWriter.WriteBool` | src/pbuf.c:203-206 | A flag is written as 1 or 0. |
| `Pbuf.PbufWriter.WriteBytes` | src/pbuf.c:216-221 | Tag, length and bytes make one field. |
| `Pbuf.PbufWriter.WriteMessage` | src/pbuf.c:228-235 | A finished message becomes a field; the failure of its writer spreads. |
| `IndexLaws.IndexRoundTrip` | src/index_store.c:250-379 | Decoding the encoding of any index restores the sequence and, in order, every record, block list and version vector; flags come back as 0 or 1, a content hash only if there was one, and no seen mark. |
| `IndexBytes.RecordsComeBack` | src/index_store.c:250-379 | Under the ranges of the C types, written out, every field of every record comes back from the file as it was, flags as 0 or 1, the content hash where there was one. |
| `IndexBytes.HeaderInBytes` | src/index_store.c:110-120 | The first bytes of a file: 08 and the magic, 10 02, 1A and the folder id, 20 and the short id, 28 and the sequence. |
| `IndexBytes.RecordInBytes` | src/index_store.c:122-148 | A record byte for byte: every tag, the order, what is left out when. |
| `IndexBytes.VectorInBytes` | src/index_store.c:54-75 | A version vector byte for byte, counter by counter. |
| `IndexBytes.CounterInBytes` | src/index_store.c:54-75 | A counter is 08, the id, 10, the value. |
| `IndexBytes.FileInBytes` | src/index_store.c:110-151 | Header, records one after the other, 30 and their number. |
| `IndexBytes.HeaderAndCountChecked` | src/index_store.c:233-370 | A file is accepted if and only if magic, format, folder and short id are right and it counts its records right. |
| `IndexBytes.WrongKindRefused` | src/index_store.c:216-278 | A known field with the wrong wire type anywhere has the file refused. |
| `IndexBytes.UnknownFieldIgnored` | src/index_store.c:346-348 | An unknown field anywhere changes nothing. |
| `IndexLaws.FileWritten` | src/index_store.c:110-151 | What a written file says is its sequence, its count and its records in order. |
| `IndexLaws.RestoredIfGranted` | src/index_store.c:241-248 | The rows restored from records of different names are all there and whole if and only if each had room, its long vector memory and its block list memory. |
| `IndexLaws.TruncatedRefused` | src/index_store.c:360-370 | Every strict prefix of an encoded index is refused for what it says, before any question of memory. |
| `IndexLaws.EstimateIsEnough` | src/index_store.c:94-108 | The size estimate holds the encoding if and only if the sequence is not negative, or there is a record, or folder id and short id take at most 72 bytes. |
| `IndexLaws.EstimateIsTight` | src/index_store.c:83-108 | Headers exist that take the whole 96-byte allowance. |
| `IndexLaws.RecordLen` | src/index_store.c:83-108 | A record never takes more than its share of the estimate, with six bytes to spare. |
| `IndexFormat.VectorRoundTrip` | src/index_store.c:157-195 | A version vector of up to 16 counters survives. |
| `IndexFormat.SplitFlat` | src/index_store.c:244-248 | Block hashes written end to end are cut apart again as they were. |
| `IndexStore.IndexStoreEncode` | src/index_store.c:110-151 | The whole encoding is written and its length returned exactly when it fits; otherwise 0. |
| `IndexStore.IndexStoreSize` | src/index_store.c:94-108 | The loop adds up the estimate of `EstimateIsEnough`. |
| `IndexStore.EncodeVector` | src/index_store.c:54-70 | The two scratch buffers are always enough, so the vector is written whole. |
| `IndexStore.WriteRecord` | src/index_store.c:122-146 | One slot of the arrays is written as the fields of its record. |
| `IndexStore.WriteHeader` | src/index_store.c:115-120 | The five header fields. |
| `IndexStore.EncodeCounter` | src/index_store.c:62-66 | The 32-byte scratch buffer is always enough for a counter. |
| `IndexLoad.IndexStoreDecode` | src/index_store.c:250-379 | For every file, and however the allocations for each record went, the in-place loop accepts exactly what `Restore` accepts and leaves exactly those records and that sequence; a refused file leaves the index empty at sequence 0; the index is clean either way. |
| `IndexLoad.DecodeCut` | src/index_store.c:360-378 | An index file cut short anywhere is refused in place, with any memory, and the index left empty. |
| `IndexLoad.LoadFields` | src/index_store.c:250-349 | The loop, committing each record when the next begins, keeps step with the records the file says, with or without memory. |
| `IndexLoad.OneField` | src/index_store.c:270-348 | One field is refused, for its type or for the header, exactly when the specification refuses it, else taken up. |
| `IndexLoad.CommitRecord` | src/index_store.c:244-248 | The record is upserted with its cut-apart hashes, for whatever the allocations did; beyond the ceiling a new one is dropped. |
| `IndexLoad.ReadVector` | src/index_store.c:176-195 | The lenient vector decoder reads what `DecodeVector` says, dropping the seventeenth counter and later ones. |
| `IndexLoad.ReadCounter` | src/index_store.c:157-174 | The counter decoder on any bytes. |
| `SaveProtocol.CleanMeansSaved` | src/scanner.c:771-826 | In every run of upserts, removals, numbers, snapshots, writes that fail and writes that succeed, whenever the index is clean and no save is under way the file on disk reloads as the present index. |
| `SaveProtocol.SaveCompletes` | src/scanner.c:771-826 | From any dirty state a save nothing interferes with takes its five steps to a clear flag and a disk holding exactly the encoding of the index, pruned if asked. |
| `SaveProtocol.FlagHolds` | src/scanner.c:771-826 | A raised flag stays up through every step until the next snapshot. |
| `SaveProtocol.DirtyExactly` | src/foldstate.c:677-875 | Which calls raise the flag, in terms of the records: an upsert that takes effect, a removal of something there, nothing else. |
| `SaveProtocol.NothingWaitsForASave` | src/scanner.c:771-826 | Records, marks, removals and new numbers are possible in every state of a save, with their full effect. |
| `SaveProtocol.StepKeeps` | src/scanner.c:771-826 | Each step keeps the invariant behind it. |
| `SaveProtocol.NeverHalfWritten` | src/folder.c:1536-1562 | With the temporary file growing bit by bit and any step failing, the disk holds at every moment what was there at the start, nothing, or the whole index of some earlier moment. |
| `SaveProtocol.SnapshotReloads` | src/scanner.c:771-793 | A snapshot reloads as the index it was taken of. |
| `SaveProtocol.ChangeSound` | src/foldstate.c:677-875 | An operation that leaves the index clean has changed nothing a reload would show, and every operation keeps it storable. |
| `SaveProtocol.LoadIsSaved` | src/daemon.c:242-268 | For any file that counts its records and names none twice: after loading, clean means saved if and only if all of the file was read and every allocation asked for was granted, or there was nothing to miss. |
| `SaveProtocol.SavedIndexLoads` | src/daemon.c:242-268 | The same for the file of any index, in terms of its rows: read whole, room for each, memory for each vector over four counters and each block list; or an empty index at sequence 0. |
| `SaveProtocol.LoadOfAnyFile` | src/daemon.c:242-268 | For any bytes at all: unread, clean means saved exactly when there was nothing to miss; with nothing missing it always does. |
| `SaveProtocol.LoadFolderIndex` | src/daemon.c:242-268 | The loading function leaves on the index what `Loaded` says for how far reading got and how the allocations went. |
| `SaveProtocol.LoadWithoutMemory` | src/daemon.c:254-256 | Any saved record, loaded without memory for the read buffer, leaves the index clean and different from the disk. |
| `SaveProtocol.LoadWithoutBlocks` | src/foldstate.c:659-675 | Any saved record with blocks, loaded without memory for its block list, comes back without it, clean and different from the disk. |
| `SaveProtocol.SnapshotInPlace` | src/scanner.c:771-793 | Prune, estimate, encode and clearing the flag do to the real index what the protocol's snapshot step says, buffer included. |
| `BepConn.Relay` | src/bep.c:1145-1363 | Any list of acceptable messages sent and then read back arrives as it was, types and bodies, under every chunking of short reads and writes, compressed or not. |
| `BepFormat.StreamRoundTrip` | src/bep.c:1290-1363 | Reading a stream of frames gives the messages up to the first over-long one, and all of them with a clean end if and only if all are acceptable. |
| `BepFormat.StreamCut` | src/bep.c:1290-1363 | A connection lost after n bytes delivers the messages whose frames had arrived whole, up to an over-long one, and reads as a clean close if and only if none was over-long and at most one byte of the next frame had come. |
| `BepFormat.AcceptedCut` | src/bep.c:1299-1304 | Of acceptable messages those that arrived whole are delivered, and the loss reads as a clean close if and only if it fell between two frames or one byte after. |
| `BepFormat.OneByteReadsAsClosed` | src/bep.c:1299-1304 | After any messages, the first byte of any further frame and then the end read as a clean close. |
| `BepFormat.WholeBeforeIs` | src/bep.c:1299-1363 | How many frames lie within n bytes, and that the next does not. |
| `BepFormat.FrameRoundTrip` | src/bep.c:1145-1363 | A frame is read back as its message exactly when the message is not too long; otherwise it is refused. |
| `BepFormat.FrameCut` | src/bep.c:1290-1363 | A frame cut short never yields a message. |
| `BepFormat.HeaderRoundTrip` | src/bep.c:122-161 | Every header of 32-bit fields survives. |
| `BepBytes.FramesInBytes` | src/bep.c:1145-1250 | A plain frame is 00 02 08 k, four bytes of length, the body. |
| `BepBytes.LzFramesInBytes` | src/bep.c:1145-1250 | A compressed frame is 00 04 08 k 10 01, length, original length, block; for bodies from 1024 bytes up to the limit that get shorter, never for a Response. |
| `BepBytes.HeaderInBytes` | src/bep.c:122-133 | The header bytes: 08 and the kind, 10 and the compression unless it is none. |
| `BepBytes.Be32InBytes` | src/bep.c:51-68 | Four bytes are the big-endian form of a number if and only if their weighted sum is the number. |
| `BepBytes.PlainRead` | src/bep.c:1290-1363 | A frame in these bytes reads as its body up to 1114112 bytes and as broken beyond; so does one with a compression other than LZ4. |
| `BepBytes.EmptyHeaderRead` | src/bep.c:1306-1312 | An empty header means kind 0 and no compression. |
| `BepBytes.LzRead` | src/bep.c:1334-1363 | A frame that says LZ4 reads as what the block decodes to, of exactly the length stated and within the limit, and as broken otherwise. |
| `BepFormat.Be32RoundTrip` | src/bep.c:51-68 | Four big-endian bytes survive. |
| `BepFormat.Be16RoundTrip` | src/bep.c:45-62 | Two big-endian bytes survive. |
| `BepConn.BepConn.SendMessage` | src/bep.c:1145-1194 | On success the stream grew by one frame of this message, compressed only where allowed, and on failure by some prefix of it; while a handler reads a body in the plain buffer that buffer is untouched, and the body being read stays as it is in every case. |
| `BepConn.BepConn.Squeeze` | src/bep.c:1162-1174 | A compressed body is used only when it is shorter, and then it decodes to the message. |
| `BepConn.BepConn.SendFrame` | src/bep.c:1176-1193 | One write for a short frame and two for a long one make the same frame. |
| `BepConn.BepConn.ReadMessage` | src/bep.c:1290-1363 | However the bytes arrive the outcome, body and stream position are those of reading one frame; failures beyond that come only from transport or memory. |
| `BepConn.BepConn.ReadRest` | src/bep.c:1321-1363 | From the body length on, the outcome is that of the specification. |
| `BepConn.BepConn.Expand` | src/bep.c:1334-1356 | An LZ4 body is expanded whole or refused. |
| `BepConn.BepConn.constructor` | src/bep.c:910-924 | A connection starts with separate buffers and no body. |
| `BepConn.Transport.Read` | src/bep.c:1042-1056 | The transport: any number of bytes from one on, the end, or a failure. |
| `BepConn.Transport.Write` | src/bep.c:1058-1069 | The transport: any number of bytes taken, or a failure. |
| `BepConn.ReadFull` | src/bep.c:1042-1056 | All the bytes wanted, in order, or a clean end, or a failure; the rest of the buffer is untouched. |
| `BepConn.WriteFull` | src/bep.c:1058-1069 | All the bytes, or a prefix of them and a failure. |
| `BepConn.GrowBuf` | src/bep.c:947-976 | The same buffer, or a larger one with the same bytes in front, within the limit; nothing is lost when memory fails. |
| `BepConn.ReadHeader` | src/bep.c:137-161 | The field loop on any bytes decides as `DecodeHeader`. |
| `BepConn.WriteHeader` | src/bep.c:122-135 | The 16-byte scratch buffer is always enough for the header. |
| `BepConn.SendAll` | src/bep.c:1145-1194 | A list of messages makes the concatenation of their frames. |
| `IndexBatch.BatchRoundTrip` | src/bep.c:771-898 | A batch, however it was built up, iterates back as the same folder id and the same entries in order, block geometry derived. |
| `IndexBatch.Batch.Add` | src/bep.c:790-828 | The entry is added exactly when tag, length and body fit; a refused one changes neither the length, the count nor any byte of the batch. |
| `IndexBatch.Batch.constructor` | src/bep.c:771-788 | The batch starts with its folder id, in error exactly when that does not fit. |
| `IndexBatch.Batch.EncodeTail` | src/bep.c:790-812 | The body is encoded into the free tail exactly when it fits there, and the batch before it stays. |
| `IndexBatch.Batch.Shift` | src/bep.c:812-828 | The move within the buffer puts the prefix before the body without losing a byte. |
| `IndexBatch.IndexIter.Next` | src/bep.c:868-898 | Each call gives the next entry of the walk from where the last one stopped, or its end. |
| `IndexBatch.IndexIter.Folder` | src/bep.c:839-866 | The folder id is found wherever it stands. |
| `IndexBatch.IndexIter.constructor` | src/bep.c:839-866 | An iterator stands before the first entry. |
| `IndexBatch.IterateAll` | src/bep.c:839-906 | Repeated calls collect the whole walk. |
| `IndexMessage.BodyRoundTrip` | src/bep.c:771-898 | The body of an Index message reads back as folder and entries. |
| `IndexMessage.InfoRoundTrip` | src/bep.c:359-554 | A FileInfo arrives as sent, its blocks with offset and size derived from file and block size. |
| `MessageBytes.BlocksTile` | src/bep.c:384-396 | The blocks that arrive tile the file: the first at 0, each where the one before ends, all of the block size but a shorter last one that ends where the file does, each with its own hash. |
| `MessageBytes.BlockAt` | src/bep.c:384-396 | For any sizes a block starts at its index times the block size and is as long as that or as what is left. |
| `MessageBytes.EntryComesBack` | src/bep.c:359-554 | Under the ranges of the C types, written out, every field of an entry arrives as it was, the flags as 0 or 1. |
| `MessageBytes.FrontInBytes` | src/bep.c:362-372 | The first fields of an entry byte for byte, kind and permissions only when not zero. |
| `MessageBytes.MiddleInBytes` | src/bep.c:373-380 | Nanoseconds, modifier and flags byte for byte, each only when not zero. |
| `MessageBytes.BackInBytes` | src/bep.c:381-383 | Vector, sequence and block size byte for byte. |
| `MessageBytes.BlockInBytes` | src/bep.c:322-337 | A block entry byte for byte: offset, size, hash. |
| `MessageBytes.BlockListInBytes` | src/bep.c:384-396 | Each block is a field 16 of its own. |
| `MessageBytes.BodyInBytes` | src/bep.c:771-828 | A body is 0A and the folder id, then 12, length and bytes of each entry. |
| `MessageBytes.MalformedPartRefused` | src/bep.c:467-563 | An entry with a version vector or a block that is not whole fields is refused. |
| `MessageBytes.OtherFieldIgnored` | src/bep.c:492-563 | Unknown fields, and known ones of another wire type, change nothing in an entry. |
| `IndexMessage.StrictVectorRead` | src/bep.c:467-490 | The strict vector decoder accepts what was written and gives it back. |
| `IndexMessage.BlockRead` | src/bep.c:415-441 | A block entry survives. |
| `IndexMessage.WalkIs` | src/bep.c:868-898 | For any body: the entries found are those of its fields up to the first that cannot be decoded, and the error flag stays clear if and only if none is bad and reading does not stop at a value. |
| `IndexMessage.UnnoticedExactly` | src/bep.c:868-898 | A malformed body passes for a whole one if and only if reading stops at a tag, all of whose first ten bytes (or all to the end) say another follows, and no entry before is bad. |
| `IndexMessage.LongTagHidesTheRest` | src/bep.c:868-898 | After any batch, ten such bytes hide whatever follows, and fewer at the end go unnoticed. |
| `IndexBatch.WriteInfo` | src/bep.c:359-401 | The writer makes the field list of the entry, blocks included. |
| `IndexBatch.WriteBlock` | src/bep.c:322-333 | The 64-byte scratch buffer is always enough for a block. |
| `IndexBatch.WriteBlocks` | src/bep.c:385-400 | The block list with offsets and sizes derived from the file's geometry. |
| `IndexBatch.ReadInfo` | src/bep.c:492-554 | The field loop on any bytes decides as `DecodeInfo`, collecting the blocks in order. |
| `IndexBatch.ReadBlock` | src/bep.c:415-441 | The block decoder on any bytes. |
| `IndexBatch.ReadStrictCounter` | src/bep.c:443-465 | The counter decoder on any bytes. |
| `IndexBatch.ReadStrictVector` | src/bep.c:467-490 | The vector decoder on any bytes; a seventeenth counter and later ones are dropped, a malformed counter before that is an error. |
| `ScanPass.PassIsSafe` | src/scanner.c:709-765 | In every interleaving of a pass with workers' upserts the sweep leaves each record the pass reported as it is, treats every other record by the rules (ignored ones hidden, live unmarked old ones tombstoned with a fresh number, the rest kept), keeps slots and their order, and all numbers stay distinct and at most the high-water mark. |
| `ScanFields.PassInFields` | src/scanner.c:709-765 | The pass record by record, in fields: a doomed record, never a reported one, ends as our deletion with a fresh number, its kind and permissions kept, no blocks, and a version in which ours is greater and all others the same; an ignored file ends invalid with everything else kept; any other record is unchanged. |
| `ScanFields.SettledInFields` | src/scanner.c:411-516 | The same for one slot of the sweep. |
| `ScanFields.FileCommitted` | src/scanner.c:344-374 | A hashed file is recorded with what was found, as ours, live, marked, under the next number and with a greater version; other records stay. |
| `ScanFields.DirCommitted` | src/scanner.c:376-409 | A directory with a live record is only marked; otherwise it is recorded as a directory of ours in the same way. |
| `ScanFields.Looked` | src/scanner.c:305-331 | A file needs hashing unless its record is live, valid, of that size and time (as the disk can hold it) and has blocks; else it is marked and reported. |
| `ScanFields.WhatIsReported` | src/scanner.c:567-701 | Commits and kept files are reported, workers' writes are not. |
| `ScanFields.Bumps` | src/syncmodel.c:89-115 | A stored new version keeps every other counter and raises ours to the stamp or one more than before, but for a full vector or counter. |
| `ScanPass.RunKeeps` | src/scanner.c:567-701 | Through any run of scan steps and worker commits every reported name is marked or numbered after the pass began. |
| `ScanPass.EventKeeps` | src/scanner.c:567-701 | Each single step keeps that. |
| `ScanPass.SweepSettles` | src/scanner.c:411-528 | The sweep over the slots treats each by the rules with a number of its own, and no slot it has not come to. |
| `ScanPass.BumpRaisesOurs` | src/syncmodel.c:89-115 | A bump leaves every other counter alone and raises ours, to the larger of the stamp and one more than before, exactly when the vector has it or room for it and it is not the largest number. |
| `ScanPass.VanishedIsSwept` | src/scanner.c:652-666 | An entry listed but gone before it was read is not reported, and the sweep tombstones it. |
| `ScanSteps.SweepDeletions` | src/scanner.c:411-528 | The in-place loop with its upserts does to the index what `Sweep` says. |
| `ScanSteps.SweepSlot` | src/scanner.c:422-515 | One slot: hidden, tombstoned or left, in place. |
| `ScanSteps.LookAt` | src/scanner.c:641-647 | The locked look at a file marks an unchanged one and says whether it changed. |
| `ScanSteps.RecChanged` | src/scanner.c:314-337 | Changed exactly when the record is missing, deleted, invalid, of another size, of a time the disk does not turn into the listed one, or without blocks. |
| `ScanSteps.CommitTheFile` | src/scanner.c:344-373 | The record with a bumped vector and a fresh number is upserted and marked. |
| `ScanSteps.CommitTheDir` | src/scanner.c:376-401 | A record that is not deleted is only marked; otherwise a directory record with a fresh number is committed and marked. |
| `ScanSteps.StartPass` | src/scanner.c:716-719 | The marks are cleared and the high-water mark noted. |
| `PeerManager.PeerManager.SignalWorkers` | src/peer.c:456-474 | The signals sent are exactly those to the chosen slots that still hold a worker, every one of which exists at that moment; peers of workers that ended before Forbid() are dialled again, later ones only folded. |
| `PeerManager.PeerManager.Lock` | src/peer.c:461-462 | After Forbid() and the drain every process a slot holds is running, and nothing waits. |
| `PeerManager.PeerManager.Drain` | src/peer.c:429-437 | Every waiting reply is folded, no worker starts, and no setting or backoff changes. |
| `PeerManager.PeerManager.Handle` | src/peer.c:361-393 | Every reply that waited or came in meanwhile is handled once, in order; the dials, their delays and the backoffs left behind are those that order calls for. |
| `PeerManager.BackoffSeries` | src/peer.c:383-391 | The waits are 2, 4, 8, 16, 32 and from then on 60 seconds by the number of failures in a row; a session starts the series again. |
| `PeerManager.PeerManager.Shutdown` | src/peer.c:476-499 | It returns with no worker running and no reply waiting, has dialled nobody, and the totals of each slot are the sums over all sessions ever ended. |
| `PeerManager.PeerManager.AwaitAll` | src/peer.c:484-495 | The wait ends with every slot free. |
| `PeerManager.PeerManager.Spawn` | src/peer.c:284-328 | A slot without a worker gets one new process with its startup block, or nothing changes. |
| `PeerManager.PeerManager.Fold` | src/peer.c:349-359 | The session's bytes go into the totals of its slot, which is free again; no other slot changes. |
| `PeerManager.PeerManager.Answer` | src/peer.c:365-392 | One reply folded and answered keeps backoffs and dials what the replies so far call for. |
| `PeerManager.PeerManager.HandleOne` | src/peer.c:365-392 | Taking and answering the next reply keeps all of that, or none waits. |
| `PeerManager.PeerManager.Redial` | src/peer.c:376-392 | A dialable slot is dialled with the right delay and its backoff moves on; any other is left alone. |
| `PeerManager.PeerManager.Start` | src/peer.c:330-344 | Every slot with an address is dialled at once, in order. |
| `PeerManager.PeerManager.Retry` | src/peer.c:406-420 | Every dialable slot is dialled with its backoff, in order; none while shutting down. |
| `PeerManager.RetryFor` | src/peer.c:406-427 | A retry dials a slot, after its own backoff, if and only if it has an address and no worker and is neither paused nor removed, and none while shutting down. |
| `PeerManager.DialsFor` | src/peer.c:361-393 | Every dial that follows from replies is for a slot with an address, neither paused nor removed, outside shutdown. |
| `PeerManager.ResumeFor` | src/peer.c:796-820 | A resume dials exactly the paused slots meant that have an address and no worker, at once. |
| `PeerFields.DialStep` | src/peer.c:361-393 | One more reply adds the dial of its slot, two seconds ahead after a session and the backoff so far otherwise, if the slot may be dialled, and else none. |
| `PeerFields.BackoffStep` | src/peer.c:383-391 | One more reply sets the backoff to two seconds after a session, doubles it up to a minute otherwise, and leaves it where no dial follows. |
| `PeerFields.StartFor` | src/peer.c:330-343 | The start dials exactly the slots with an address, at once. |
| `PeerFields.QuietAfterPause` | src/peer.c:760-793 | After a pause neither waiting replies nor a retry dial a peer that was meant, whatever workers end meanwhile. |
| `PeerFields.SentIs` | src/peer.c:456-474 | Who is signalled: the workers of all, paused or removed slots as asked, and nobody else. |
| `PeerFields.SentOnce` | src/peer.c:456-474 | And nobody twice. |
| `PeerFields.CountMeantIs` | src/peer.c:760-820 | The answer of pause and resume is how many peers were meant. |
| `PeerFields.AddResultIs` | src/peer.c:898-974 | The answer of an add in terms of the table: no ID, already there, full, out of step, or added. |
| `PeerManager.PeerManager.Pause` | src/peer.c:760-794 | Every peer meant is paused and counted, and the workers of all paused peers are told to stop. |
| `PeerManager.PeerManager.Resume` | src/peer.c:796-820 | Every peer meant is counted, and if it was paused starts afresh and is dialled at once where possible; nothing happens while shutting down. |
| `PeerManager.PeerManager.Remove` | src/peer.c:866-896 | Every slot of the device becomes a tombstone, none is left live, and their workers are told to stop. |
| `PeerManager.PeerManager.AddPeer` | src/peer.c:898-974 | 0 for no ID, -1 if the device is there, -2 for a full table, -3 for a table out of step, in the order of the code, all without change; else exactly its removed slot or a new last one changes, is live, and is dialled at once where possible. |
| `PeerManager.PeerManager.Discovered` | src/peer.c:822-851 | The first live slot of the device gets the address and, if free, is dialled at once with a fresh backoff; nothing else changes, and nothing at all without an address or while shutting down. |
| `PeerManager.PeerManager.Has` | src/peer.c:853-864 | True exactly when some slot of the device is not removed. |
| `PeerManager.DeviceEqual` | src/device_id.c:138-145 | Two texts are equal IDs exactly when both normalise, to the same. |
| `PeerManager.PeerManager.constructor` | src/peer.c:237-262 | A free slot for each configured peer, its backoff at the minimum, its address from the configuration. |
| `PeerManager.PeerManager.RescanAll` | src/peer.c:976-982 | Every worker still there is signalled once. |
| `Supervision.PostKeeps` | src/peer.c:349-393 | When a worker ends, each slot still has at most one startup block outstanding, running or replied. |
| `PeerFields.OneBlockPerSlot` | src/peer.c:280-327 | Spelled out: no two processes of one slot, no reply of a slot with a process, no two replies of one slot, and every held process runs or has its reply waiting. |
| `PeerFields.SumIs` | src/peer.c:349-359 | The totals owed to a slot grow by exactly what its own replies moved. |
| `Supervision.ReapKeeps` | src/peer.c:349-359 | Taking a reply frees its slot and keeps that. |
| `Supervision.SpawnKeeps` | src/peer.c:284-328 | A new process for a free slot keeps that. |
| `Supervision.ReapFolds` | src/peer.c:349-359 | Folding keeps totals plus waiting replies equal to all that ended sessions moved. |
| `Supervision.GrowFolds` | src/peer.c:946-960 | A new slot with empty totals keeps that. |
| `Supervision.GrowMatches` | src/peer.c:946-960 | A new free slot keeps the one-block rule. |
| `Supervision.PostFolds` | src/peer.c:349-359 | A session that ends adds to what waits and to what all sessions moved. |
| `Supervision.FlowsOn` | src/peer.c:365-372 | Replies taken and replies still waiting are, in order, all that were ever posted. |
| `Supervision.Exec.GetMsg` | src/peer.c:365 | The oldest waiting reply, workers being free to end before the call unless forbidden. |
| `Supervision.Exec.CreateProc` | src/peer.c:312-327 | A new process with a block of its own, or none. |
| `Supervision.Exec.Signal` | src/peer.c:471 | May be called only for a process that exists and cannot end meanwhile. |
| `Supervision.Exec.Forbid` | src/peer.c:461 | Workers may still end until it takes effect, none afterwards. |
| `Supervision.Exec.WaitPort` | src/peer.c:493-494 | Returns with a reply waiting. |
| `Utf8Names.DecodesExactly` | src/pathsafe.c:65-108 | The decoder accepts exactly the UTF-8 encodings of scalar values (RFC 3629, section 4) and yields those values. |
| `Utf8Rules.Sequences` | src/pathsafe.c:65-90 | The lengths accepted are those of the grammar in section 4 of RFC 3629, byte range by byte range. |
| `Utf8Rules.CodePoints` | src/pathsafe.c:65-90 | A sequence stands for the low bits of its bytes, one after the other. |
| `Utf8Rules.ToLocalIs` | src/pathsafe.c:116-144 | On the way to the disk a component that is Latin-1 spread into UTF-8 becomes that Latin-1, and any other stays. |
| `Utf8Rules.FromLocalIs` | src/pathsafe.c:146-178 | On the way back a component stays if it is UTF-8 with a character beyond Latin-1, and is spread otherwise. |
| `Utf8Rules.SafeNames` | src/pathsafe.c:14-44 | A name is safe if and only if between any two slashes something stands, neither one dot nor two, with no colon and no backslash. |
| `Utf8Names.DiskNameRoundTrip` | src/pathsafe.c:116-178 | Every disk name mapped to the wire and back is itself. |
| `Utf8Names.WireNameRoundTrip` | src/pathsafe.c:116-178 | A wire name mapped to disk and back is itself if and only if each component is `Faithful`: valid UTF-8, and not one whose Latin-1 form is itself valid UTF-8 with a wide character. |
| `Utf8Names.DiskRoundTrip` | src/pathsafe.c:116-178 | The same for one component, whose wire form is always valid UTF-8. |
| `Utf8Names.WireRoundTrip` | src/pathsafe.c:116-178 | The same for one component, both ways. |
| `Utf8Names.NameNeverLonger` | src/pathsafe.c:116-144 | The disk form is never longer. |
| `Utf8Names.ComponentsMapped` | src/pathsafe.c:116-178 | A mapped name has the mapped components, no more and no fewer. |
| `Utf8Names.AsciiKept` | src/pathsafe.c:116-178 | Neither direction creates or removes an ASCII character. |
| `Utf8Names.SafetyKept` | src/pathsafe.c:14-44 | Neither direction makes an unsafe name safe or a safe one unsafe. |
| `PathSafe.Utf8Seq` | src/pathsafe.c:65-90 | One sequence at the cursor: its length and value, or 0. |
| `PathSafe.Utf8Class` | src/pathsafe.c:94-108 | The class of a component. |
| `PathSafe.PutNameToLocal` | src/pathsafe.c:116-144 | The mapped name and its terminator are written exactly when they fit, also when output and input are the same buffer. |
| `PathSafe.PutNameFromLocal` | src/pathsafe.c:146-178 | The mapped name and its terminator are written exactly when they fit. |
| `PathSafe.PutLocal` | src/pathsafe.c:127-135 | One component is written mapped exactly when it fits, also over its own bytes, which it never outruns; what follows it in the name stays. |
| `PathSafe.PutFrom` | src/pathsafe.c:157-169 | One component is written mapped exactly when it fits. |
| `PathSafe.PathNameSafe` | src/pathsafe.c:14-44 | The scan accepts exactly the safe names. |
| `Glob.GlobIsRight` | src/ignore.c:30-99 | A hit is always a match of the declarative relation; while the budget lasts the answer is exact; the work is bounded by the budget plus one scan of the string per star. |
| `GlobRules.PlainRules` | src/ignore.c:56-90 | What the end of a pattern, a question mark and a plain character match, letters in either case. |
| `GlobRules.StarRule` | src/ignore.c:47-55 | A star stands for any bytes without a slash. |
| `GlobRules.DoubleStarRule` | src/ignore.c:34-46 | Two stars, with or without a slash behind, stand for any bytes. |
| `GlobRules.ClassRule` | src/ignore.c:60-85 | A class matches a byte, no slash, that it lists singly or within a range, whatever its case; a negated one exactly the others. |
| `GlobRules.RangeRule` | src/ignore.c:68-75 | The same for one range and its negation, character by character. |
| `GlobRules.UnclosedRule` | src/ignore.c:80-81 | A class without its end matches nothing. |
| `GlobRules.OneStarIsExact` | src/ignore.c:95-99 | With at most one star the budget is no limit: the answer is exact for names up to 199996 bytes. |
| `GlobRules.ScanWritten` | src/ignore.c:68-79 | The loop over a class finds its end and whether the byte is listed, for any list of bytes and ranges that can be written. |
| `Glob.RecRight` | src/ignore.c:30-93 | The same for every pattern, string and remaining budget. |
| `Glob.HitsBeneath` | src/ignore.c:107-144 | A pattern that hits a path shorter than 384 bytes hits everything beneath it; so for every name under BEP_PATH_MAX. |
| `Glob.LongPathEndsThere` | src/ignore.c:101-115 | The prefix buffer of the matcher itself ends at 384 bytes: there `a*` hits a path and not what is beneath; no name the daemon handles is that long. |
| `Glob.IgnoredBeneath` | src/ignore.c:232-243 | What lies beneath an ignored path shorter than 384 bytes, so beneath every name under BEP_PATH_MAX, is ignored, unless a negated rule that does not hit the path hits it. |
| `Glob.GlobRec` | src/ignore.c:30-93 | The loop with its recursion computes answer and remaining budget of `Rec`. |
| `Glob.DeepLoop` | src/ignore.c:41-46 | The double-star loop tries every suffix until a hit or the budget ends. |
| `Glob.ShallowLoop` | src/ignore.c:49-55 | The single-star loop does so up to the next slash. |
| `Glob.ReadClass` | src/ignore.c:63-81 | A character class is read to its end with ranges and negation, or found unclosed. |
| `Glob.MatchPath` | src/ignore.c:119-128 | A pattern with a slash hits a path exactly when it matches it or a leading part of it that ends at a slash. |
| `Glob.MatchSegment` | src/ignore.c:131-144 | A pattern without one hits exactly when it matches some segment. |
| `Glob.IgnoreMatch` | src/ignore.c:232-243 | The first rule that hits decides; a path no rule hits is not ignored. |
| `CivilDate.DateRoundTrip` | src/log.c:147-159 | Counting the days of any valid proleptic Gregorian date and turning the count back gives the date. |
| `CivilDate.DayRoundTrip` | src/daemon.c:164-174 | Every day number, negative ones too, is a valid date whose count it is. |
| `CivilDate.CountsDays` | src/daemon.c:164-174 | The next calendar day has the next number, and the epochs are right. |
| `CivilDate.MonthsCounted` | src/daemon.c:164-174 | The calendar in numbers: 31, 28 or 29, 31, 30 and so on, leap years by 4, 100 and 400, days and months counted accordingly. |
| `CivilDate.YearFound` | src/log.c:151-153 | The closed formula for the year of an era inverts the placing of leap days. |
| `DeviceId.RoundTrip` | src/device_id.c:78-173 | An ID made from any 32 bytes reads back as those bytes. |
| `DeviceIdText.AlphabetIs` | src/device_id.c:23-34 | The 32 characters in order. |
| `DeviceIdText.SymbolBits` | src/device_id.c:54-74 | Which bits of the 32 bytes each of the 52 characters carries: five at a time from the top, four zero bits at the end. |
| `DeviceIdText.CheckBalances` | src/device_id.c:36-52 | Check and weighted sum of thirteen characters, every second counted twice less 31 where that exceeds 31, are together divisible by 32. |
| `DeviceIdText.CheckIsOnly` | src/device_id.c:36-52 | No other character does that. |
| `DeviceIdText.CanonicalText` | src/device_id.c:104-136 | An ID is 56 characters of the alphabet with the check of each thirteen in its place. |
| `DeviceIdText.ShownInGroups` | src/device_id.c:94-100 | Shown, it is 63 characters: eight groups of seven, a dash between them. |
| `DeviceIdText.SeparatorsIgnored` | src/device_id.c:104-136 | Dashes, blanks and small letters make no difference anywhere. |
| `DeviceIdText.ForeignRefused` | src/device_id.c:104-136 | Any other character has the text refused. |
| `DeviceId.FromRaw` | src/device_id.c:78-102 | The ID is the base32 text (RFC 4648, section 6) of the bytes with a check symbol after every 13, dashes after every 7. |
| `DeviceId.GroupUp` | src/device_id.c:94-101 | Eight groups of seven, a dash between each two. |
| `DeviceId.ToRaw` | src/device_id.c:147-173 | Exactly the texts that normalise are accepted, and give the number their data symbols stand for. |
| `DeviceId.WrittenAgain` | src/device_id.c:78-173 | An accepted ID turned into bytes and written again is the same ID if and only if the four spare bits of its last data character are zero. |
| `DeviceId.SpareBits` | src/device_id.c:157-172 | Symbols for the bytes of an ID, with zeros in the spare bits, are its own exactly then. |
| `DeviceId.Normalize` | src/device_id.c:104-136 | Skipping, upper-casing and the four checks decide as `Normalized`. |
| `DeviceId.Collect` | src/device_id.c:112-124 | Letters and digits are kept in upper case and separators skipped; it fails only when a character is foreign or the count is not 56. |
| `DeviceId.VerifyChecks` | src/device_id.c:128-131 | All four check symbols are right. |
| `DeviceId.PickData` | src/device_id.c:160-162 | The data symbols without the checks. |
| `DeviceId.WritingIsFree` | src/device_id.c:104-136 | Dashes, spaces and lower case make no difference. |
| `DeviceId.OneChangeRefused` | src/device_id.c:41-136 | Changing one character of the 56 of a canonical ID is refused if and only if the character really differs. |
| `DeviceId.ShownChangeRefused` | src/device_id.c:78-136 | In the dashed text an ID is shown as, a dash may become another separator and a letter its small form; any other single change is refused. |
| `DeviceId.SwapRefused` | src/device_id.c:41-136 | Swapping two neighbours among the data characters of one chunk is refused if and only if they differ and are not A and 7. |
| `DeviceId.ChangeSeen` | src/device_id.c:41-52 | One symbol changed changes the check symbol, always. |
| `DeviceId.SwapSeen` | src/device_id.c:41-52 | Two neighbours swapped change it unless equal or A and 7. |
| `DeviceId.Luhn32` | src/device_id.c:41-52 | The loop computes the check symbol. |
| `DeviceId.Encode256` | src/device_id.c:56-73 | The 52 symbols stand for 16 times the number the 32 bytes stand for. |
| `DeviceId.Decode260` | src/device_id.c:164-172 | The 32 bytes stand for a sixteenth of the number the symbols stand for. |

## Left out

- LZ4: streaming, dictionary, destSize, partial and obsolete entry points, the x86 fast loop and the 64-bit word variants; `src/bep.c` reaches none of them on a 68000.
- Lz4Compress.CompressDefault: does not say how small the result is; how well the input is compressed depends on the hash and is no promise of the code.
- Lz4Compress.FindMatch: does not say that a match is found whenever a repetition exists; which candidates are tried depends on the hash.
- Pointers are indices and buffers do not wrap around the address space, so the overflow tests on pointers have nothing to catch.
- FNV and SHA-256 values: uninterpreted; two names or contents with the same hash share a claim or a want, as in the code.
- Byte totals, prune generations and process ids are unbounded; a process id is never used again.
- PeerManager.PeerManager.Handle: ends because the workers that end during one call are finitely many; the code relies on the same.
- Supervision.Exec.WaitPort: takes it for granted that some worker told to stop does end.
- Hello identity in `slot_fold`, status strings, warning latches, `wreg_signal` to inbound workers, and the rest of `src/worker.c` and `src/spill.c`; host and port are one address.
- Reset of an index in the middle of a scan pass; the folder is fixed for a pass.
- The receive-only branch of the scan; its sweep is `FoldState.FolderState.ForgetUnseen`.
- Directory walking: the entries reported are inputs, and nothing is claimed of files that were never reported.
- The want queue and version comparison in `src/syncmodel.c`; only `sync_bump_version` is modelled.
- Log lines, change notes (`chg_verb`, `chg_name`), scan stamps and the folder list.
- Growing the send buffer between two batches (`grow_out_step`).
- Hello, ClusterConfig, Request and Response codecs of `src/bep.c`: the same field lists with fewer cases.
- BepConn.BepConn.SendMessage: the message to send is a value, so the send buffer it may come from is not one of the buffers modelled; nor does it say that a body that would shrink is compressed, which is a matter of policy and memory.
- FoldState.FolderState.Reset: the wanted-content sets, whose release is `FoldShare.Wants.WantRelease`, and the display state that foldstate_free also clears are not part of that class.
- SaveProtocol.LoadIsSaved: for a file that names a record twice or miscounts its records, which index_store_encode never writes, only the directions of `LoadOfAnyFile` are stated.
- Parsing of ignore files and `text_field_safe`.
- `src/config.c`, `src/offered.c`, `src/disco.c`, `src/wreg.c`, `src/netbase.c` and all foreign calls.
- Days and years are unbounded; the 32-bit range of the clock is not modelled.
