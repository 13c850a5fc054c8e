# Libtheo: the cell, the chunker and the MD5 contexts

Libtheo caches chunks of streams by checksum. This project models the parts of it whose
correctness is not visible from any single function, and proves what they promise.

**The cell.** A cell is one slab of bytes. From its bottom grows a chain of entries, each a
36-byte header and a payload, closed by a top entry; the chain is reused as a ring. From its
top, below the fixed header, grows the overflow of a two-level directory of 256 blocks of
three records. Inserting a chunk may append it, replace an entry of the same size, evict a run
of entries and split it, lower the top, go back to offset 0, or delete the entry below the top
to make room for a directory record.

- `Types.dfy`, `Ring.dfy`: the cell as a value, its invariant, and one insertion as a function
  of it (`Ring.Insert`), with a third outcome for a failed assertion.
- `RingInvariant.dfy`, `RingMap.dfy`, `RingTheorems.dfy`, `RingExact.dfy`: what one insertion keeps
  and guarantees, and exactly what it does, in offsets and sizes.
- `RingRuns.dfy`, `RingRetention.dfy`: what whole runs guarantee, and how long a chunk stays.
- `RingHazard.dfy`, `RingDrop.dfy`: a run that fails an assertion, and a run that loses a chunk.
- `Slab.dfy`, `Layout.dfy`, `CellLemmas.dfy`, `CellParts.dfy`: slab memory, and how a chain lies
  in it. A slot holds one payload byte, or the first byte of a header or record, so structures
  that overlap destroy each other.
- `CellDir.dfy`, `Cell.dfy`, `CellRuns.dfy`: the directory and the cell in place, in the source's
  own steps on one shared array, and runs of it. Every method is proved against the functions of
  `Ring.dfy`, so that what is proved of those holds of the memory.
- `CellWords.dfy`: the words of a cell as they lie in its file, and what it means that they hold
  a state.
- `Integrity.dfy`, `Recovery.dfy`: the magic, the codes and the bracket of an update on a device
  that may lose any subset of the stores made since the last barrier, and what reopening makes of
  what is left.

**The chunker.** `RollingHash.dfy` has the rolling hash on 64-bit words; `Chunker.dfy` and
`ChunkStreamer.dfy` cut a stream by content.

**MD5.** `Md5Context.dfy` and `Md5Manager.dfy` have the streaming contexts and their manager,
with a scheduler that may return finished jobs in any order.

## What was found

The source asserts with `ALWAYS`, which stays active outside coverage builds. Three of its
promises do not hold on all inputs. The code is modelled as it is, and each has its exact
condition.

- *Tail hazard.* When an insertion replaces an entry of exactly its size that lies right below
  the top, and there is no room for a directory record, `cell_body_add_dir_entry` takes the entry
  just written for the one to delete, and the assertion that its record can be removed fails
  (src/theo/cell_body.c:220-231 with 171-188, src/theo/cell_header.c:66-68).
  `RingInvariant.InsertKeepsInv` proves that an insertion aborts if and only if
  `Ring.TailHazard` holds beforehand; `RingHazard.HazardReached` gives sixteen chunks of the
  chunker's largest size that lead an empty cell there, in a slab of 196984 bytes below the fixed
  header rather than the 1 MiB cell of the cache; `RingRuns.CalmRun` proves that it cannot happen
  while no block has more than three of the checksums in the cell.
- *Silent drop.* `cell_add_chunk` returns true for a chunk that is not there afterwards:
  `cell_body_push_down_top` ignores what `cell_body_add_top` returns
  (src/theo/cell_body.c:143-145 with 91-100). `RingTheorems.DroppedIff` proves that a chunk is
  dropped if and only if the walk evicts everything up to the top and the lowered top has no room
  for it; `RingDrop.DropReached` gives eighteen chunks of accepted sizes the last of which is
  dropped, in a slab of 199116 bytes; `RingTheorems.RetryStores` proves that adding it again
  stores it.
- *Torn initialisation.* `cell_header_init` clears the whole header before its first barrier. If
  the magic was valid, a crash may keep the cleared codes and lose the cleared magic, and what is
  left is taken for a sane cell (src/theo/cell_header.c:25-35). `Integrity.TornInitIff` proves that
  this is possible if and only if the magic was valid beforehand. One crash is harmless
  (`Integrity.AddRecovers`), but after any update that changes the number of records a second
  crash, in the reopening, can leave a sane cell that holds no state at all
  (`Integrity.TwoCrashes`). A slab that never held a cell is safe
  (`Integrity.FormatSurvivesCrashes`).

## Assumptions

- `Ring.Geometry.Valid`: chunks have at least one byte and at most 32732, the slab below the fixed
  header has at least 7 times the largest chunk and 394 bytes, and less than 2^31 and 4096 times
  the smallest entry. The source does not check this; its own constants (1 MiB, chunks of 2049 to
  24576 bytes) meet it. Nothing else is asked of a caller: a checksum that is present already is
  refused, as in the source.
- Each operation on a cell runs under its lock, so it is one step here.
- Checksums are opaque 32-byte keys; the hash table of the rolling hash and the answers of the
  cache to the streamer are parameters.

## Model

| member | source | states |
|---|---|---|
| RingInvariant.InsertKeepsInv | src/theo/cell_body.c:295-323 | inserting an absent checksum keeps the whole invariant (chain, ring order, single free entry, directory, sizes), and aborts if and only if the state is in the tail hazard |
| RingInvariant.RewindPath | src/theo/cell_body.c:313-320 | an insertion that finds no room at the top and starts again at 0 always stores its chunk and keeps the invariant |
| RingInvariant.TruncatingKeepsInv | src/theo/cell_body.c:135-146 | pushing the top down keeps the invariant and never aborts; it leaves the entries before next, then only the new one if that is stored, and the top right above; the chunk is dropped exactly when the space above the lowered top is less than the chunk and 72 bytes |
| RingInvariant.PlaceByPop | src/theo/cell_body.c:159-198 | without room for a record, the entry below the top is used and indexed, deleting it gives at least its size of space, and the core invariant holds with nothing pending |
| RingInvariant.RewindLeavesTwo | src/theo/cell_header.c:69-74 | an insertion from 0 leaves at least two entries beyond those it evicts, so no removal empties the counters |
| RingInvariant.VictimsBounded | src/theo/cell_body.c:233-257 | the run that the walk evicts ends less than the chunk, one largest chunk and three headers above where it starts |
| RingInvariant.UsedBound | src/theo/cell_body.c:66-73 | the used entries below a boundary number at most its offset divided by the smallest entry |
| RingMap.ContentsIndexed | src/theo/cell_body.c:116-118 | the directory has a record for exactly the checksums of the used entries, and its offset is the entry's |
| RingMap.RecordLeads | src/theo/cell.c:111-114 | every record leads to the used entry of its checksum, whose bytes are the cell's contents for it |
| RingTheorems.LossyMap | src/theo/cell_body.c:200-323 | an insertion adds at most its own chunk; every other chunk it keeps keeps its bytes and its offset; stored means exactly that the key maps to the data afterwards |
| RingTheorems.AtTopStores | src/theo/cell_body.c:311-320 | an insertion that starts with next at the top always stores its chunk |
| RingTheorems.InsertShape | src/theo/cell_body.c:200-293 | every insertion leaves the old chain but for one run, from next or 0 to where room is found, and perhaps the entry below the top, and that only without room for a record; a run that ends at the top leaves no remainder |
| RingTheorems.InsertExplained | src/theo/cell_body.c:200-293 | every used entry afterwards was there before or is the new one, and the new one is the entry before next |
| RingTheorems.EvictsOldest | src/theo/cell_body.c:237-257 | whatever is lost was inserted before whatever is kept, except the entry below the top when there is no room for a record |
| RingTheorems.VictimsShortest | src/theo/cell_body.c:237-257 | no shorter run from next has room for the chunk and a remainder's header; the run has, unless it reaches the top |
| RingTheorems.DroppedIff | src/theo/cell_body.c:91-100 | a chunk is dropped if and only if the walk evicts everything up to the top and the space above the lowered top is less than the chunk and 72 bytes |
| RingTheorems.EnoughIsStored | src/theo/cell_body.c:259-267 | when the run that ends at the top is big enough, the push-down stores the chunk |
| RingTheorems.RetryStores | src/theo/cell_body.c:241-248 | after a drop next is at the top, and the same insertion again stores the chunk |
| RingTheorems.FieldsFit | src/theo/cell_body_entry.h:29-32 | the body and the overflow records never meet; sizes fit 15 bits, offsets 31 bits, overflow counts 12 and 16 bits |
| RingTheorems.CountExact | src/theo/cell_header.c:61-86 | the directory has exactly as many records as the chain has used entries |
| RingTheorems.CountersFit | src/theo/cell_header.c:88-96 | entry and byte counts together stay below the top offset |
| RingTheorems.TopIsSpent | src/theo/cell_header.c:61-96 | conservation: the top offset is the sum of all headers, of the payload that the byte count counts, and of the remainder, of which there is at most one |
| RingTheorems.RestKeepsRoom | src/theo/cell_body.c:159-198 | with chunks of at least 36 bytes, a remainder right below the top implies room for a directory record after every insertion |
| RingExact.AppendStep | src/theo/cell_body.c:75-133 | when next is the top and the chunk, two headers, a record and the overflow records fit, the new state is exactly the old one with the entry at the old top |
| RingExact.PlaceStep | src/theo/cell_body.c:215-289 | when the entry has the size of the chunk, or the shortest run with room for it and a header ends before the top, exactly that run is replaced by the entry and a remainder that fills it, the top stays, and the record is added, at the price of the entry below the top when there are no 36 bytes for it; an abort only if that is the new entry |
| RingExact.TruncateStep | src/theo/cell_body.c:135-146 | when the run reaches the top, the new state is exactly the entries before it, with the top where it began, and with the new entry there if and only if it, a top, a record and the remaining overflow records fit |
| RingExact.TruncatesIff | src/theo/cell_body.c:237-267 | the walk reaches the top if and only if the entry differs in size from the chunk and is the last one, or the last one begins less than the chunk and 72 bytes above it |
| RingExact.SomeRun | src/theo/cell_body.c:200-293 | one of these cases is met by every state of the cell in which an insertion starts at an entry |
| RingRuns.AddChunk | src/theo/cell.c:55-88 | adding a chunk keeps the invariant and the geometry, and fails exactly for an absent checksum in the tail hazard |
| RingRuns.HoldsLastStored | src/theo/cell.c:90-120 | after any run, whatever the cell holds for a checksum are the bytes of the last chunk of that run that was stored under it |
| RingRuns.FailsIff | src/theo/cell_body.c:220-231 | a run fails if and only if one of its states is in the tail hazard of the next chunk |
| RingRuns.CalmStep | src/theo/cell_body.c:171-175 | without overflow records and with room for one, an insertion never fails, and stays so unless it gives a block a fourth checksum |
| RingRuns.CalmRun | src/theo/cell_dir_block.c:31-48 | if no block ever has more than three of the checksums in the cell, a run never fails, the overflow stays empty and 36 bytes stay free |
| RingRuns.RestRun | src/theo/cell_body.c:269-289 | in every reachable state with chunks of at least 36 bytes, a remainder below the top implies room for a record, so the tail hazard only ever meets a used entry |
| RingRuns.RunBounds | src/theo/cell_dir_block.h:31-32 | space, offset and count bounds, exact counters and the directory's domain in every reachable state |
| RingRetention.Survives | src/theo/cell_body.c:237-257 | an insertion keeps every entry that lies further ahead of next, round the ring, than the new chunk and two headers, but perhaps the one below the top when there is no room for a record |
| RingRetention.ComesNearer | src/theo/cell_body.c:126-129 | an insertion brings next nearer to such an entry by the size of the new one at most, also when it goes back to 0 |
| RingRetention.Retained | src/theo/cell_body.c:295-323 | a stored chunk is still there with its bytes while the chunks inserted after it take, with their headers, no more than the slab less it, the largest chunk, five headers and the overflow records, if those insertions have room for their records |
| RingRetention.CalmRetained | src/theo/cell_body.c:295-323 | the same with no further condition, and no overflow records, if no block ever has more than three of the checksums in the cell |
| RingHazard.HazardReached | src/theo/cell_body.c:220-231 | fifteen accepted chunks lead an empty cell into the tail hazard, and the sixteenth fails |
| RingDrop.DropReached | src/theo/cell_body.c:135-146 | seventeen accepted chunks lead an empty cell to a state from which the eighteenth is dropped: the run goes on without it and without the chunk evicted for it |
| Slab.WriteSlots | src/theo/cell_body.c:49-64 | a write changes exactly the slots it covers |
| CellParts.Placed | src/theo/cell_body.c:215-289 | what becomes of an insertion that does not reach the top, by the room for its record: stored in place, stored with the entry below the top deleted, or aborted |
| CellParts.LastRemovable | src/theo/cell_body.c:176-188 | the entry below the top has a record to remove exactly if it is not the new one, and another record and further bytes remain |
| CellParts.OverflowRoom | src/theo/cell_dir_block.c:117-122 | while a record is pending the overflow has fewer than 4095 records, so its counters do not wrap |
| CellDirectory.OverflowLoses | src/theo/cell_dir_overflow.c:56-79 | swapping the newest record in for a removed one leaves exactly the other records |
| CellDirectory.CellDir.Init | src/theo/cell_dir.c:24-33 | the directory is empty and valid |
| CellDirectory.CellDir.Add | src/theo/cell_dir.c:35-46 | a two-level add is an add to the map, to the block while it has a free slot and to the overflow else; memory below the new lowest record is unchanged |
| CellDirectory.CellDir.Remove | src/theo/cell_dir.c:48-70 | a two-level remove is a remove from the map and tells whether the checksum was there |
| CellDirectory.CellDir.Get | src/theo/cell_dir.c:72-93 | the record of a checksum if the map has it, and none else; skipping the overflow search is sound |
| CellDirectory.CellDir.InSelectedBlock | src/theo/cell_dir.c:72-84 | in a valid directory a checksum of the blocks has its record in the block, out of 256, whose number is its byte 17 |
| CellDirectory.CellDir.InOverflow | src/theo/cell_dir_overflow.c:85-112 | a checksum of the overflow has its record among those that lie 36 bytes apart below the fixed header |
| CellDirectory.CellDir.OverflowCounted | src/theo/cell_dir.c:40-44 | a block's overflow count is the number of overflow checksums whose byte 17 is its number |
| CellDirectory.CellDir.OverflowsIff | src/theo/cell_dir.c:38-44 | a new record goes to the overflow if and only if the three slots of the block of its byte 17 are all in use, and to that block otherwise |
| CellDirectory.CellDir.BlockAdd | src/theo/cell_dir_block.c:31-48 | the record goes to a free slot and is counted, or the block is full and nothing changes |
| CellDirectory.CellDir.BlockRemove | src/theo/cell_dir_block.c:75-89 | one slot with the checksum is zeroed and uncounted and the directory loses exactly it, or it is not there and nothing changes |
| CellDirectory.CellDir.OverflowAdd | src/theo/cell_dir_overflow.c:30-44 | the record goes below the lowest one |
| CellDirectory.CellDir.OverflowRemove | src/theo/cell_dir_overflow.c:46-83 | the newest record takes the place of the removed one, the others stay, and the directory loses exactly the checksum; or it is not there and nothing changes |
| CellDirectory.NotOverflowed | src/theo/cell_dir.c:83-89 | a block whose overflow count is 0 has none of its checksums in the overflow |
| CellDirectory.OverflowSearch | src/theo/cell_dir_overflow.c:85-112 | the linear search finds a record if and only if the overflow has the checksum, and it is the right one |
| CellStore.Cell.constructor | src/theo/cell.c:28-45 | a zeroed slab becomes a valid empty cell |
| CellStore.Cell.Reopen | src/theo/cell.c:39-41 | a sane cell is left exactly as it is, any other becomes a valid empty one |
| CellStore.Cell.HeaderInit | src/theo/cell_header.c:25-35 | a valid empty cell from any memory |
| CellStore.Cell.EntryInMemory | src/theo/cell_body_entry.h:27-34 | at the offset of every entry lies a header with its checksum, flags and size and the size of the entry before it, and its bytes right behind |
| CellStore.Cell.TopInMemory | src/theo/cell_body.c:29-64 | where the chain ends lies the top entry, naming the size of the last entry; next is the offset of an entry or of the top |
| CellStore.Cell.HeaderRemove | src/theo/cell_header.c:61-75 | true exactly when the record was there; counters step down and the two later assertions hold |
| CellStore.Cell.HeaderAdd | src/theo/cell_header.c:77-86 | the record is added and both counters step up |
| CellStore.Cell.AddTop | src/theo/cell_body.c:75-133 | stores exactly when there is room for the chunk, a header and a record; then the entry lies where the top was, a linked top above it, and memory below is unchanged |
| CellStore.Cell.AddDirEntry | src/theo/cell_body.c:159-198 | adds the record, deleting the entry below the top exactly when there is no room; fails exactly when that entry has no record |
| CellStore.Cell.Walk | src/theo/cell_body.c:234-257 | evicts exactly the entries from next to where the abstract run ends, their records and bytes included |
| CellStore.Cell.PutRest | src/theo/cell_body.c:276-285 | the remainder lies between the new entry and the entries above the run, and all of those still lie as they did |
| CellStore.Cell.LinkRest | src/theo/cell_body.c:286-289 | once the header above the remainder names its size, the whole new chain lies in memory |
| CellStore.Cell.PushDownTop | src/theo/cell_body.c:135-146 | memory holds the result of appending to the truncated state, whether stored or dropped |
| CellStore.Cell.AddOffset | src/theo/cell_body.c:200-293 | memory refines Ring.InsertAt, whose outcome RingExact fixes, and false is returned exactly when that aborts |
| CellStore.Cell.Add | src/theo/cell_body.c:295-323 | memory refines Ring.Insert, and false is returned exactly when that aborts |
| CellStore.Cell.AddChunk | src/theo/cell.c:55-88 | true exactly when the checksum was absent, which does not mean stored: then the new state is that of Ring.Insert, be the chunk stored or dropped, failing exactly in the tail hazard, and a failure leaves the codes apart so that reopening clears the cell |
| CellStore.Cell.Mapped | src/theo/cell.c:28-45 | a cell mapped from words that hold a state has that state if it is sane, and is empty and valid whatever they are if it is not |
| CellStore.Cell.GetChunk | src/theo/cell.c:90-120 | exactly the bytes stored for the checksum, or none |
| CellStore.Cell.HasChunk | src/theo/cell.c:122-140 | true exactly for the checksums in the contents |
| CellRuns.AddAll | src/theo/cell.c:55-88 | adding a list of chunks to a new cell in place reaches the state of the abstract run, and fails exactly when that reaches none |
| CellStore.Cell.EntryCount | src/theo/cell.c:142-156 | the number of used entries, which fits 31 bits |
| CellStore.Cell.ByteCount | src/theo/cell.c:158-172 | the payload bytes of the used entries, which fit 31 bits |
| Integrity.Device.OnEntry | src/theo/cell_ic.c:34-40 | the codes differ afterwards, also when the counter wraps, and what a crash can leave is exactly the image before or after |
| Integrity.Device.OnExit | src/theo/cell_ic.c:42-50 | the codes agree afterwards, and what a crash can leave is exactly the image before or after |
| Integrity.Device.Bracketed | src/theo/cell.c:77-82 | exactly which images a crash at any point of an update can leave, with any subset of the stores since the last barrier lost; every sane one of them is the cell before the update or the cell after it |
| Integrity.AddRecovers | src/theo/cell.c:55-88 | crash atomicity: whatever a crash in adding an absent chunk to a valid cell leaves, the reopened cell is valid and in the state before, in the state that the insertion gives, or empty; the same when the insertion fails an assertion |
| Integrity.Device.AddChunk | src/theo/cell.c:77-82 | every image that a crash can leave of it recovers in that sense, and the completed update holds the state of the insertion |
| Integrity.Device.HeaderInit | src/theo/cell_header.c:25-35 | the cleared cell, and exactly which images a crash on the way can leave |
| Integrity.Device.Open | src/theo/cell.c:39-41 | a sane image is left alone, any other becomes one that holds the empty cell, and what a crash on the way can leave is what an initialisation can |
| Integrity.InitialisedEmpty | src/theo/cell_header.c:25-35 | the words that an initialisation leaves hold the empty cell with its invariant |
| Integrity.TornInitIff | src/theo/cell_header.c:27-31 | a crash before the first barrier of an initialisation can leave a sane image if and only if the magic was valid; one such image has cleared codes and all else as it was |
| Integrity.TwoCrashes | src/theo/cell_header.c:25-35 | after a crash in the middle of any update that changes the number of records, a crash in the reopening can leave an image that is sane, stays as it is when opened, and holds no state of the cell |
| Integrity.InitCrash | src/theo/cell_header.c:31-33 | when the magic was not valid, a crash leaves the initialised image or one without a valid magic |
| Integrity.FormatSurvivesCrashes | src/theo/cell_header.c:25-35 | however often the first initialisation is interrupted, what is left holds the empty cell or has no valid magic |
| Recovery.AddRecoverably | src/theo/cell.c:55-88 | adding an absent chunk in place: for any stores that take its words from before to after between the two barriers, whatever a crash leaves recovers to the old state, the new one or the empty cell |
| Recovery.ReopenCrashed | src/theo/cell.c:28-45 | mapping what such a crash left gives a valid cell in the old state, the new one, or empty |
| RollingHash.Slide | third-party/isa-l_crypto/rolling_hash/rolling_hash2.c:72-78 | one step of the rolling hash gives the hash of the window moved by one byte, computed from scratch |
| RollingHash.RotatesOne | third-party/isa-l_crypto/rolling_hash/rolling_hash2.c:75 | one step is a rotation to the left by one bit |
| RollingHash.BitMoves | third-party/isa-l_crypto/rolling_hash/rolling_hash2.c:75 | every bit moves one place up, and the highest to the lowest |
| RollingHash.FoldIsSum | third-party/isa-l_crypto/rolling_hash/rolling_hash2.c:57-70 | the hash of a window is the exclusive or of its bytes' table words, each rotated once for every byte behind it |
| RollingHash.Rol32 | third-party/isa-l_crypto/rolling_hash/rolling_hash2.c:48-52 | the second table's rotation by the window width is that many rotations by one bit |
| RollingHash.State.constructor | third-party/isa-l_crypto/rolling_hash/rolling_hash2.c:40-55 | the second table holds the first one's words rotated by the window width |
| RollingHash.State.Reset | third-party/isa-l_crypto/rolling_hash/rolling_hash2.c:57-70 | the hash is that of the given window |
| RollingHash.State.Run | third-party/isa-l_crypto/rolling_hash/rolling_hash2.c:109-153 | returns the first hit among the windows of the history and the buffer, or that there is none, and leaves the history and hash of the last window |
| RollingHash.State.RunUntil | third-party/isa-l_crypto/rolling_hash/rolling_hash2.c:80-107 | the first hit from an index on |
| RollingHash.HitsContinue | third-party/isa-l_crypto/rolling_hash/rolling_hash2.c:109-153 | a run that goes on from its history hits where one run over both buffers would |
| Chunking.CutFromPrefix | src/theo/chunker.c:48-79 | more bytes do not move a cut; where there was none, a cut comes behind what was there |
| Chunking.CutAt2150 | src/theo/chunker.c:48-72 | for a table of zeros but for one word, and zeros but for a 1 at index 100, the chunk ends at byte 2150, since the hash is run over the buffer from its start |
| Chunking.HitsAt2150 | src/theo/chunker.h:27-28 | for any word of that byte, a chunk ends there if and only if the low 13 bits of the word rotated once are 3221 |
| Chunking.CutAtMax | src/theo/chunker.c:73-84 | without a hit a chunk ends at 24576 bytes, and a shorter buffer has none |
| Chunking.Chunker.ChunkBuffer | src/theo/chunker.c:35-88 | the first chunk ends at the first hit after the minimal size or at the maximal size; without a cut the whole buffer is retained |
| Chunking.Chunker.FlushRetained | src/theo/chunker.c:90-106 | the retained bytes go in front of the buffer, once |
| Streaming.Conserved | src/theo/chunk_streamer.c:46-69 | chunks and rest concatenate to the input; every chunk has 2049 to 24576 bytes and the rest fewer than 24576, with no chunk in it |
| Streaming.SplitAnywhere | src/theo/chunk_streamer.c:37-72 | cutting a stream in two anywhere and feeding the retained bytes before the second part gives the same chunks and rest |
| Streaming.FedAnyhow | src/theo/chunk_streamer.c:37-81 | the same for any list of buffers |
| Streaming.ChunkStreamer.ProcessBuffer | src/theo/chunk_streamer.c:37-72 | the chunks of the buffer are offered in order, exactly those that the cache answers not to have are added, and the rest is retained |
| Streaming.ChunkStreamer.CountersAgree | src/theo/chunk_streamer.c:57-66 | the two 32-bit counters add up to the number of chunks found, modulo 2^32 |
| Md5Context.FewestZeros | third-party/isa-l_crypto/md5_mb/md5_ctx_avx.c:221-236 | the padding has the fewest zeros that leave 8 bytes to the end of a block |
| Md5Context.PaddingStarts | third-party/isa-l_crypto/md5_mb/md5_ctx_avx.c:221-227 | the padding begins with 0x80 and is 0 from there to its last 8 bytes |
| Md5Context.PaddingEndsWithLength | third-party/isa-l_crypto/md5_mb/md5_ctx_avx.c:232-233 | its last 8 bytes, weighted by the powers of 256 from the first on, are the length in bits modulo 2^64 |
| Md5Context.Context.HashPad | third-party/isa-l_crypto/md5_mb/md5_ctx_avx.c:221-236 | the partial block and the padding, as above, fill one or two blocks inside the 128-byte buffer |
| Md5Context.Context.Accept | third-party/isa-l_crypto/md5_mb/md5_ctx_avx.c:70-121 | the message grows by the buffer, or starts with it, and nothing of it is lost between the blocks, the partial block and what is still incoming |
| Md5Context.Context.Round | third-party/isa-l_crypto/md5_mb/md5_ctx_avx.c:149-211 | a round hands over one more job, which is the next whole blocks of the padded message, or hands over nothing and returns the context idle or complete; the jobs still to come decrease |
| Md5Context.Context.Finished | third-party/isa-l_crypto/md5_mb/md5_ctx_avx.c:191-204 | once it is returned, a context that has had its LAST is complete, and its jobs together are its message with the padding of sections 3.1 and 3.2 of RFC 1321 |
| Md5Context.Context.PartialLength | third-party/isa-l_crypto/md5_mb/md5_ctx_avx.c:92-119 | between calls the partial block holds the last bytes of the message, as many as its length modulo 64 |
| Md5Manager.Manager.Take | third-party/isa-l_crypto/md5_mb/md5_ctx_avx.c:182-186 | handing a job over puts its context in flight and adds exactly its bytes to what the scheduler was handed |
| Md5Manager.Manager.Finished | third-party/isa-l_crypto/md5_mb/md5_ctx_avx.c:153-156 | between calls, the bytes that the scheduler was handed of a context that has had its LAST and is not in flight are its message with the padding, a multiple of 64 |
| Md5Manager.Manager.Submit | third-party/isa-l_crypto/md5_mb/md5_ctx_avx.c:47-124 | the three errors and when each is given; otherwise the message grows, and of the submitted context and those in flight before exactly the one returned, if any, is in flight no more, and is idle or complete; every other context keeps its message, whatever the scheduler returns |
| Md5Manager.Manager.Resubmit | third-party/isa-l_crypto/md5_mb/md5_ctx_avx.c:149-211 | terminates for every order of finished jobs; a context that settles is returned and all others stay in flight |
| Md5Manager.Manager.Flush | third-party/isa-l_crypto/md5_mb/md5_ctx_avx.c:126-147 | returns none if and only if no job was in flight, otherwise a context that was, idle or complete, with all others still in flight |

## Left out

- The cache above the cells (src/theo/cache.c and its header and metrics), files, memory maps and
  allocation: dispatch and summation over independent cells, and plumbing.
- Locks: every cell operation is one step.
- Bit and byte layout of headers and records: a header is one slot and 35 that go
  with it, and field widths are bounds. A change of one field writes the header's 36 slots again.
- The fixed cell header lies outside the slab array of `Cell`. For crashes a header field, a
  directory block and a slot are one word each, which arrives whole or not at all, and an update is
  any list of stores to them with the result that `Cell` computes.
- Checksum computation, the values of the rolling hash's table, and the digest: the blocks handed
  to the MD5 scheduler are modelled, not the compression function.
- RollingHash.State.constructor: the window width is 32, the one in use, and not any up to 48.
- Md5Manager.Manager.Submit: the scheduler is any that returns each job once, in any order; its
  lanes are not modelled, and the user's buffer is taken not to change while it is in flight.
- Streaming.ChunkStreamer.ProcessBuffer: what the cache answers is a parameter, and its own state
  is not part of this model.
- The AVX2, AVX512 and assembly copies of the same code, the test framework and the other
  libraries under third-party.
- Nothing was executed; all statements are about the model.
