# A verified model of the log-structured file system

The repository implements a log-structured file system in four layers over an emulated flash: write-once sectors that
wear out, a log filled segment by segment behind an LRU cache, files reached through inodes that are themselves kept in
a file, and directories. This project models the four layers as four stateful components, each proved against a simpler
view of itself, and proves what the layers promise each other.

The stack, bottom up:

| file | models | seen from above as |
|---|---|---|
| `Words.dfy`, `Segments.dfy`, `INodes.dfy`, `Checkpoints.dfy`, `DirectoryLists.dfy` | the records on flash | values, by round trips |
| `Flash.dfy` | `layers/flash/flash.c` | bytes, sector states, wear |
| `SegmentCaches.dfy` | `data_structures/segment_cache.hpp` | an LRU list of segment numbers |
| `LogModel.dfy`, `Layout.dfy`, `Log.dfy` | `layers/log.hpp` | `held`: a map from (segment, slot) to the tagged block written there |
| `TailRuns.dfy`, `Restarts.dfy` | runs of the log | when the tail seals, onto what, what is read from there; what a crash leaves |
| `FileModel.dfy`, `InodeTable.dfy`, `FileViews.dfy`, `Accounts.dfy`, `Files.dfy` | `layers/file.hpp` | `Files()`: one byte array with its attributes per inum |
| `Ownership.dfy`, `Cleaning.dfy`, `Victims.dfy` | who may point where; the cleaner | no change at all, or exactly which loss |
| `Paths.dfy`, `Namespace.dfy`, `Walks.dfy`, `Directories.dfy` | `layers/directory.hpp` | `tree`: a map from (directory, name) to inum |
| `Mklfs.dfy` | `utilities/mklfs.cpp` | the first state, from which `Mount` brings the whole stack up |
| `FreshRuns.dfy` | runs from a formatted flash across seals | when checkpoints are written; a file of any length that fits |
| `Witnesses.dfy`, `LosingRuns.dfy` | runs from a formatted flash in which a promise fails | one for each of the failures listed below |

How to read it. Each layer is a class whose fields are the source's fields. Its `Valid()` is the invariant of every run;
the methods are the source's functions with the source's branches. `Outcome` is `Done` (the source returns 0), `Failed`
(it returns a nonzero code), `Thrown` (it executes `throw`, or does something C++ leaves undefined) or `Stale` (below).
What an operation means is stated about the abstract view, so a file write is one splice of one byte array although the
code frees, rewrites and relinks blocks, rewrites indirect blocks, seals segments and rewrites the inode table's own file
while it is at it.

Success is stated too. `Log.Write` says exactly when it succeeds: the flash is not full and, if the write fills the tail,
the tail's sectors are EMPTY or, after a restart, fit to be erased, and its segment is not cached. `FileLayer.LogWrite` says
it of one write below the file layer: it fails exactly if the tail cannot take the block, and goes `Stale` exactly if the
seal it made picked a cached tail. Above it every operation carries a clause `Ends` with the reasons it may give and the
slots it needs at most. With more room than that in the tail nothing behind the tail changes, and one of those reasons is
all that is left for it to fail. With less it may go through any number of seals, and a failure without a reason shows in
the log itself afterwards: the tail is one the cache still holds, or is full and cannot be sealed (`Log.Jammed`), or the
flash is full and had fewer slots left than the operation needs (`LogModel.Capacity`).

Across seals a write goes on as long as every log segment but the tail either holds a block that the write does not give up,
or is EMPTY, not cached and holds none (`Log.Flows`): then `FileLayer.Write` succeeds as far as the slots of the clean
segments reach, and leaves the log like that. From a formatted flash a file of any length that fits is written without a failure (`FreshRuns.LongWrite`), and
no write fails before every log segment is full (`Witnesses.FullFromFormat`).

Checkpoints are paced. A seal is counted, and the one that brings the count to the interval tries the next sector of the
ring; any other changes neither ring nor latest checkpoint, nor does a write that does not seal (`SealPaced` in
`Log.CheckpointIfDue`, `Log.Seal` and `Log.Write`). As long as the ring lasts the n-th seal of a formatted flash writes a
checkpoint exactly if n is a multiple of the interval (`FreshRuns.PacedFromFormat`).

Durability is stated at the log. Of a seal that saves the usage table and writes a checkpoint, `Log.Write` says exactly when
it leaves the present state on flash, as long as the clock grows. Until the next seal no write or free touches the flash, so
a restart after a crash in between comes up in that state (`Restarts.Restart`), and, if the seal fell between two operations
of the file layer, with every file as it was then (`Restarts.Remount`). `Restarts.SavingRun` gets to such a seal.

Freeing is stated too. Each write gives up exactly the blocks it replaces, but for the indirect block, which the source
rewrites without freeing the old one: `Accounts` counts those, and the data blocks that no pointer names any more.

The geometry is symbolic: `Geometry.Ok` asks for what `mklfs` sets up (a segment size that is a multiple of 16, a summary
that fits in block 0, a usage table that fits in its segment, all offsets in 32 bits).

The ownership invariant that carries the file layer is in the tags. Every block written to the log is tagged with its
inum and its block number; an inode is good if every pointer of it names a held block tagged as that very block of that
very inode. Distinct pointers then cannot share a slot (`NoAliasing`), whatever first-fit reuse, sealing and cleaning do.

Where the code does not do what it is there for, the model follows the code and the project says exactly when it does:

- A seal may move on to a segment whose blocks were all freed but which is still cached (`layers/log.hpp:285`, `463`).
  Reads of the new tail then come from the old segment. `TailRuns.StaleTail` says exactly when, `Witnesses.StaleFromFormat`
  gets there from a formatted flash by Write and Free alone, writes a block and reads other bytes back,
  `TailRuns.ReadCached` says what is read. The file layer's model ends such a run with `Stale`.
- A seal moves on to any segment without live bytes, erased or not (`layers/log.hpp:285`, `684`): `Log.Seal` and
  `Log.Write` say exactly when the tail can be written, `TailRuns.FillLog` that it always can while nothing is freed.
- `CheckpointNow` adds the region's base twice when it picks the erase block (`layers/log.hpp:619`), so no erase reaches
  the ring. The log carries the exact sector states of the ring through every operation: of all calls since the
  formatting exactly the first SegmentSectors() - 1 succeed (`Log.CheckpointNow`).
- A rewritten indirect block is tagged with its predecessor's slot number (`layers/file.hpp:705`), and the cleaner passes
  it over (`Ownership.IndirectPassedOver`). `FileLayer.CleanVictim` says, on the state before, exactly when a round loses
  it: unless a data block behind it is moved out of the same victim or, for the table's own, a record far enough back is
  updated. `LosingRuns.LosingVictim` runs into it on every formatted flash with three log segments that can be
  erased often enough: six blocks of a file are written, the last of them so that the seal comes before its indirect block, the next segment is filled up and
  cleaned; the round succeeds and the file is left without its indirect block.
- A replaced indirect block is never freed, and truncating or freeing a file gives up the indirect block without the blocks
  behind it: `FileLayer.Write`, `FileLayer.Free`, `FileLayer.Truncate` and `Accounts.NothingLeft` say exactly what stays
  held.
- `Directory_Unlink` frees a symlink whatever its link count and a directory whatever is in it: `DirectoryLayer.Unlink`
  says exactly when the names are in order afterwards (`Witnesses.UnsafeRun`), and exactly when every directory can still
  be reached from the root (`Witnesses.CycleRun`: counts right, a directory cut off).
- `CreateFile` without a parent leaves an inode behind (`Witnesses.OrphanRun`). This run and the other three on names assume
  nothing of the log on a flash formatted with segments of 64 blocks or more (`Witnesses.MountWide`).
- `Directory_Rename` takes the entry out before it looks for the new place: it is lost exactly if the new name is a dot, its
  directory path leads to no directory, or that path is walked through the entry itself (`DirectoryLayer.Rename`,
  `Walks.RenamedIntoItself`, `Witnesses.LostRun` with "/a" to "/a/b").
- `CheckpointNow` takes the segment before the tail for the last one written (`layers/log.hpp:603`). What a seal saves can be
  found by a restart exactly if that one is on flash and full: `Log.BeforeTailFull` in `Log.Write` and `Log.Seal`. After a
  seal that goes back to the first log segment nothing can be found (`Witnesses.UnfoundRun`).
- The table's inode reaches the checkpoint at each seal, also at one in the middle of an update of the table. Its pointers
  name occupied slots on flash (`Log.CheckpointedPointers`), and outside such an update the right blocks
  (`FileLayer.CheckpointedTable`), but inside one first fit may have put another block there: `Witnesses.ReusedSlot`, an
  update of a record that lies across blocks 3 and 4.
- `mklfs` tests the quotient instead of the remainder when it sizes the root directory: `Mklfs.BlocksForIs`.
- `GetBlockAddress` compares with a bound one too large: `FileLayer.GetBlockAddress`, `Witnesses.PastTheLargestFile`.

## Model

| member | source | states |
|---|---|---|
| `FlashLayer.Create` | layers/flash/flash.c:52-105 | succeeds exactly within the limits on wear and blocks; a new flash is EMPTY, unworn and zero, and satisfies the wear invariant |
| `FlashLayer.Flash.Read` | layers/flash/flash.c:287-371 | reads succeed exactly inside the flash and ignore sector states |
| `FlashLayer.Flash.Write` | layers/flash/flash.c:374-417 | all or nothing: succeeds exactly if the range is inside and EMPTY; then splices the bytes and fills exactly those sectors, otherwise changes nothing |
| `FlashLayer.Flash.Erase` | layers/flash/flash.c:421-466 | gets through exactly the blocks before the first worn-out one; those lose one endurance cycle and their FULL states, no byte changes |
| `FlashLayer.Flash.WearBound` | layers/flash/flash.c:374-466 | over any run a sector's successful writes are at most its block's wear plus one if it is FULL, so at most wearLimit + 1 |
| `FlashLayer.Erasable` | layers/flash/flash.c:438-460 | how far an erase gets: every block before is below the limit, the next one is not |
| `Words.DecodeEncode` | layers/log.hpp:546-548 | words survive their little-endian encoding, whatever follows them |
| `INodes.INodeRoundTrip` | layers/file.hpp:525-533 | an inode record read back is the inode that was written |
| `INodes.AddrsRoundTrip` | layers/file.hpp:641-713 | an indirect block read back is the address table that was written |
| `Segments.Build` | data_structures/segment_factory.hpp:19-28 | a built segment has its summary slot reserved and every other slot free |
| `Segments.SegmentRoundTrip` | layers/log.hpp:493-559 | readSegment after writeSegment restores number, start sector, both summary arrays and every data block |
| `Segments.BlockPlacement` | layers/log.hpp:210-212 | block b lies b blocks into the flash segment and b - 1 blocks into the in-memory data |
| `LogLayer.UsageRoundTrip` | layers/log.hpp:368-410 | the usage table read back is the one written |
| `Checkpoints.CheckpointRoundTrip` | layers/log.hpp:624-672 | a checkpoint survives its sector |
| `SegmentCaches.SegmentCache.Find` | data_structures/segment_cache.hpp:29-40 | the search loop finds the first entry of that number, and finds one exactly if it is cached |
| `SegmentCaches.SegmentCache.ContainsEntry` | data_structures/segment_cache.hpp:29-40 | true exactly if cached |
| `SegmentCaches.SegmentCache.GetEntry` | data_structures/segment_cache.hpp:42-69 | a hit moves the entry to the front and is the LRU policy's access step; a miss aborts |
| `SegmentCaches.SegmentCache.PutEntry` | data_structures/segment_cache.hpp:71-98 | a fresh entry goes to the front, a full queue drops its last; a duplicate aborts and changes nothing |
| `SegmentCaches.SegmentCache.InvalidateEntry` | data_structures/segment_cache.hpp:100-119 | exactly the named entry goes |
| `SegmentCaches.LruStepKeeps` | data_structures/segment_cache.hpp:42-119 | numbers stay distinct and within capacity |
| `SegmentCaches.InclusionStep` | data_structures/segment_cache.hpp:42-119 | one access or invalidation keeps the larger queue an extension of the smaller |
| `SegmentCaches.LruInclusion` | data_structures/segment_cache.hpp:42-119 | for one trace, the queue at a smaller capacity is a prefix of the queue at any larger one: a larger cache never turns a hit into a miss |
| `Layout.WriteInside` | layers/log.hpp:554-557 | a write inside one segment changes no other segment's bytes |
| `Layout.EraseBlocksExact` | layers/log.hpp:585 | with a segment size that is a multiple of 16 a segment is a whole number of erase blocks |
| `LogLayer.Log.EraseBlocksOf` | layers/log.hpp:582-596 | eraseSegment succeeds exactly if no block of the segment is worn out, changes only its sectors, on success empties them all and wears each of its blocks by one |
| `LogLayer.Log.CanEraseIs` | layers/log.hpp:582-596 | a segment can be erased exactly if none of its blocks has reached the wear limit |
| `LogLayer.Log.Init` | layers/log.hpp:82-155 | a flash that holds a consistent state (latest checkpoint, usage table, segments, sector states) comes up in exactly that state, with the checkpoint's sector, and with a partial segment to erase first exactly if the tail is the last written segment |
| `LogLayer.Log.SettleTail` | layers/log.hpp:139-151 | the tail is the last written segment if its last slot is free, which is remembered, otherwise the first clean segment |
| `LogLayer.Log.RecoverCheckpoint` | layers/log.hpp:644-682 | with growing times the scan ends on the checkpoint and the sector of the last successful write |
| `LogLayer.Log.GetCleanSegment` | layers/log.hpp:684-695 | the first log segment with no live bytes, or FLASH_FULL |
| `LogModel.FirstClean` | layers/log.hpp:684-695 | no segment before the chosen one is clean, and FLASH_FULL means none is |
| `LogLayer.Log.GetSegment` | layers/log.hpp:463-491 | whichever of cache, tail and flash answers, it is the segment that holds every held block of that number; the cached numbers take one LRU access, or stay if the tail answers |
| `LogLayer.Log.ReadSegment` | layers/log.hpp:424-437 | a written segment read from flash is its image |
| `LogLayer.Log.Read` | layers/log.hpp:177-214 | fails exactly off the flash, aborts exactly on a free slot, and for a held block of a valid log returns the bytes last written there; one LRU access |
| `LogLayer.Log.Free` | layers/log.hpp:302-316 | the held map loses exactly that address, a tail slot becomes free, the live count drops by a block |
| `LogModel.LiveCoversHeld` | layers/log.hpp:310-313 | the unsigned subtraction never wraps on a written segment |
| `LogModel.FreeKeeps` | layers/log.hpp:302-316 | freeing keeps the log's invariant |
| `LogLayer.Log.Write` | layers/log.hpp:216-300 | succeeds exactly if the flash is not full and a seal, if due, can be written and finds the tail's number not cached (else it aborts); then the block goes to the first free tail slot, no other held block moves, one slot less is left to write, and the tail is sealed exactly if that filled it; short of a seal nothing on flash and nothing about checkpoints changes; a seal that saves table and checkpoint leaves a state a restart finds exactly if the segment before the new tail is full; a failure leaves the log jammed or full |
| `LogModel.PlaceKeeps` | layers/log.hpp:228-252 | a block placed in a free tail slot disturbs no held block |
| `LogLayer.FreeSlot` | layers/log.hpp:228-242 | a valid log always has a free slot in its tail: the "no empty block" throw is unreachable |
| `LogLayer.Log.Seal` | layers/log.hpp:258-295 | succeeds exactly if the tail's sectors are EMPTY or left from before a restart and erasable and its number is not cached; the tail becomes an image on flash, enters the cache, is recounted, and a clean segment becomes the tail; the ring's sectors and other unwritten segments are untouched; with table and checkpoint saved the present state can be found again exactly if the segment before the new tail is on flash and full; the seal is counted, and exactly at the interval the next checkpoint is tried, which starts the count over if the ring has an EMPTY sector; a failed seal leaves a tail that cannot be sealed or is cached |
| `LogLayer.Log.CheckpointIfDue` | layers/log.hpp:291-294 | below the interval nothing changes, flash and counter included; from it on the next sector of the ring is tried, and the counter is 0 exactly if it was EMPTY |
| `LogLayer.SealedCapacity` | layers/log.hpp:280-286 | a seal takes none of the slots that can still be written: the full tail had none, and a clean segment becomes the tail |
| `LogModel.FreedCapacity` | layers/log.hpp:302-316 | freeing a block never takes slots away |
| `LogLayer.OpenSealed` | layers/log.hpp:280-286 | where every other log segment holds a block that stays, or is EMPTY, not cached and holds none, a seal moves on to one of the latter as long as there is one, and it is so again afterwards |
| `LogModel.SealKeeps` | layers/log.hpp:273-286 | sealing keeps the invariant, and the next tail holds no held block |
| `LogModel.FullTailHeld` | layers/log.hpp:567-574 | a sealed segment starts with exactly segmentSize - 1 live blocks |
| `LogLayer.Log.SumBlocks` | layers/log.hpp:567-574 | the recount loop computes (segmentSize - 1) blocks without wrapping |
| `LogLayer.Log.WriteTail` | layers/log.hpp:533-580 | writeSegment succeeds exactly if the segment's sectors are EMPTY; the checkpoint takes the current table inode and the table is saved |
| `LogLayer.Log.UpdateIFileINode` | layers/log.hpp:334-337 | the table's inode is replaced in memory only |
| `LogLayer.Log.CheckpointedPointers` | layers/log.hpp:258-295 | in every state of a run, also in the middle of a write to the inode table, each pointer of the checkpoint's inode names an occupied slot of a segment whose bytes are on flash; if the address is still held, the slot holds just that block |
| `LogLayer.Log.EraseSegment` | layers/log.hpp:444-454 | exactly the blocks of that segment are given up, its live count is zero and its sectors are EMPTY, exactly if it can be erased; each of its erase blocks has lost one cycle, and no other outside the usage table's segment has; with both segments fit to be erased it succeeds, and a failure leaves one that cannot be |
| `LogLayer.Log.InvalidateSegment` | layers/log.hpp:456-460 | exactly the entries of that segment leave the cache, the others keep their order, nothing else changes |
| `LogLayer.Log.WriteUsageTable` | layers/log.hpp:391-410 | only the bytes and the sector states of the table's own segment are touched; on success it holds the table, and it succeeds whenever that segment can be erased |
| `LogLayer.Log.CheckpointNow` | layers/log.hpp:598-642 | the sector advances around the ring; the write succeeds exactly if that sector was EMPTY, which is so for exactly the first SegmentSectors() - 1 calls since the formatting; then the recoverable checkpoint is this one; the one erase block that may lose a cycle is the one computed, at the first sector of a block |
| `LogLayer.Log.EraseForCheckpoint` | layers/log.hpp:614-622 | at the first sector of an erase block exactly the block computed loses a cycle, if it is not worn out, otherwise none; the ring keeps its sector states |
| `Checkpoints.RingAdvance` | layers/log.hpp:644-672 | a later checkpoint written anywhere in the region becomes the one recovery finds |
| `Checkpoints.RingLap` | layers/log.hpp:610-612 | SegmentSectors() consecutive calls visit every sector of the region, each exactly once, and never leave it |
| `Checkpoints.ErasesOwnBlock` | layers/log.hpp:616-622 | the erase block computed is the sector's own exactly if the region starts at erase block 0, which it never does |
| `Checkpoints.ErasedBlockElsewhere` | layers/log.hpp:616-622 | it always lies in segment 2 * checkpointSegment |
| `Checkpoints.CheckpointsUntilWrap` | layers/log.hpp:610-636 | the sector a call goes to was written by an earlier one exactly from the SegmentSectors()-th call on |
| `Checkpoints.RingLasts` | layers/log.hpp:610-636 | with the ring's sectors FULL exactly where checkpoints went, the next call finds an EMPTY one exactly for the first SegmentSectors() - 1 |
| `LogLayer.CheckpointStates` | layers/log.hpp:610-636 | a checkpoint, its erase included, adds exactly its own sector to those and fills no unwritten segment |
| `LogLayer.SealStates` | layers/log.hpp:391-410 | neither the write of the tail nor the rewriting of the table changes a sector of the ring or of another unwritten segment |
| `TailRuns.SealsWhen` | layers/log.hpp:228-289 | from an empty tail the seal comes exactly when writes exceed frees of tail slots by segmentSize - 1 |
| `TailRuns.StepsAreTheLogs` | layers/log.hpp:228-308 | the steps of those runs are Log_Write's placement and Log_Free's clearing |
| `TailRuns.StaleTail` | layers/log.hpp:280-286 | a seal's next tail is cached exactly if its segment was among the size - 1 most recently used |
| `TailRuns.FillTail` | layers/log.hpp:216-300 | a tail that can be written takes blocks until it is sealed, every write succeeding; nothing held elsewhere changes; the seal is counted and writes a checkpoint if one is due |
| `TailRuns.FillLog` | layers/log.hpp:216-300 | while nothing is freed no write fails before every unwritten segment is full; as many seals as there were segments, each paced like the one before |
| `FreshRuns.OnPaceNext` | layers/log.hpp:291-294 | for any interval: after n seals n / interval checkpoints and a count of n % interval, as long as the ring lasts; one more seal keeps that |
| `FreshRuns.EveryNthSeal` | layers/log.hpp:291-294 | the n-th seal of a run that starts with nothing counted makes a checkpoint naming the segment before the new tail the latest exactly if n is a multiple of the interval (taken as at least 1); otherwise only the count changes |
| `FreshRuns.PacedFromFormat` | layers/log.hpp:258-295 | from a formatted flash every log segment is filled and sealed in turn, and each seal is as said |
| `TailRuns.FreeSegment` | layers/log.hpp:302-316 | freeing every block of a sealed segment brings its live count to zero and changes no other count |
| `TailRuns.StaleRun` | layers/log.hpp:280-286 | filling, freeing and filling again, every call succeeding, ends on a cached tail, for every geometry and every cache of two segments or more |
| `TailRuns.ReadCached` | layers/log.hpp:463-474 | from a cached tail Log_Read aborts exactly if the old segment's slot is free and otherwise returns the old segment's bytes |
| `LogModel.PlacedRoom` | layers/log.hpp:228-258 | a block takes exactly one free slot of the tail, and fills it exactly if one was free |
| `LogModel.ClearedRoom` | layers/log.hpp:302-308 | freeing an occupied tail slot makes room for exactly one block |
| `TailRuns.FirstFit` | layers/log.hpp:228-237 | every slot below the one a block goes to is held |
| `TailRuns.WriteAndReadBack` | layers/log.hpp:177-214 | there a block is written, held, and reading it back yields another |
| `FileModel.FileKept` | layers/file.hpp:140-201 | a change that keeps a file's own blocks keeps its pointers, its bytes and its holes |
| `FileModel.LinkDirect` | layers/file.hpp:666-672 | a new block under a direct pointer: that pointer is new, all others as before |
| `FileModel.LinkIndirect` | layers/file.hpp:674-713 | the same through a rewritten indirect block |
| `FileModel.FreedBut` | layers/file.hpp:152-163 | freeing the block about to be replaced disturbs no other pointer of the file |
| `FileModel.ReplacedTables` | layers/file.hpp:697-713 | replacing a block behind the direct ones writes one new indirect block and frees none |
| `FileModel.ReplacedData` | layers/file.hpp:140-201 | replacing a block frees the old one: no data block more is held without a pointer, and nothing changes for other files |
| `FileModel.ShareBounds` | layers/file.hpp:115-186 | the blocks a range touches and each block's share of it tile the range |
| `FileModel.ContentsWritten` | layers/file.hpp:131-206 | the block loop is one splice of the byte array; bytes past the largest file read as zeros |
| `FileModel.EmptyRead` | layers/file.hpp:237-255 | a read of no bytes still visits the block its offset is in: it meets no hole exactly if that one has a pointer or is past the largest file |
| `FileLayers.FileLayer.LogWrite` | layers/log.hpp:216-300 | succeeds exactly if the write can be made and the tail afterwards is not cached, goes Stale exactly if it is, and fails exactly if the write cannot be made; where writing flows it cannot fail before the slots run out |
| `FileLayers.FileLayer.GetBlockAddress` | layers/file.hpp:612-639 | the pointer of a block; past the largest file it aborts, but for the one block the bound lets through |
| `FileLayers.FileLayer.ReadIndirectBlocks` | layers/file.hpp:641-664 | the address table of a held indirect block |
| `FileLayers.FileLayer.UpdateINodeBlock` | layers/file.hpp:666-713 | sets one pointer, in place or through a new indirect block, whose tag is the old one's slot number; the old one stays held |
| `FileLayers.FileLayer.BlockShare` | layers/file.hpp:165-186 | the four cases compute the block's share |
| `FileLayers.FileLayer.OverwriteBlock` | layers/file.hpp:140-197 | one iteration: exactly that block has the spliced bytes, its old block is freed, every pointer but its own and every other held block stays |
| `FileLayers.FileLayer.WriteBlocks` | layers/file.hpp:115-201 | the loop overwrites exactly the blocks of the range that a file can have, and writes one indirect block for each behind the direct ones |
| `FileLayers.FileLayer.ReadBlocks` | layers/file.hpp:244-325 | the loop delivers the range's bytes, and fails exactly at a block never written |
| `FileLayers.FileLayer.FileWrite` | layers/file.hpp:97-220 | the file's bytes are spliced and its record updated; no other record changes; what is held for each inode is accounted for; the recursion through the inode table ends at inode 0 |
| `FileLayers.FileLayer.FileRead` | layers/file.hpp:222-326 | the clamped slice, exactly if the range has no hole |
| `FileLayers.FileLayer.Write` | layers/file.hpp:97-220 | seen on Files(): one file's contents are spliced, every other file is as before; no inode has lost a data block, and exactly one indirect block is left behind for each block written behind the direct ones; across any number of seals it succeeds where writing flows and the slots reach, and it flows on; any failure has its reason or leaves the log jammed or full |
| `FileLayers.FileLayer.Read` | layers/file.hpp:222-326 | returns exactly the clamped slice; with offset below the size it succeeds, and at the size, where nothing is left to read, exactly if the block there has a pointer or is past the largest file |
| `Accounts.RecordTablesAre` | layers/file.hpp:586-597 | updating a record leaves an indirect block of the table behind exactly if the record ends behind the direct blocks |
| `Accounts.WriteBooked` | layers/file.hpp:97-220 | the books over all inodes after a write |
| `Accounts.NothingLeft` | layers/file.hpp:344-390 | after its own pointers are freed nothing stays held for a file exactly if it has no block behind the direct ones, no former indirect block and no lost block |
| `Accounts.LostAfterCut` | layers/file.hpp:344-361 | what a truncation loses is exactly the blocks behind the indirect block |
| `InodeTable.RecordWritten` | layers/file.hpp:586-597 | writing one record of the table's bytes changes that record only, also when records straddle blocks |
| `InodeTable.TableWritten` | layers/file.hpp:586-597 | a write of one record to the table file is an update of the array of inodes, and the file stays whole records long |
| `InodeTable.TwoWrites` | layers/file.hpp:131-217 | a file's blocks and then its record: neither write disturbs the other, although both allocate and free in the same tail |
| `FileLayers.FileLayer.GetINode` | layers/file.hpp:511-534 | the inode of that inum, an abort past the table |
| `FileLayers.FileLayer.UpdateIFile` | layers/file.hpp:586-597 | the table holds the new inode there and the old ones elsewhere |
| `FileLayers.FileLayer.GetUnusedINum` | layers/file.hpp:599-610 | the least unused inum |
| `FileLayers.FileLayer.Create` | layers/file.hpp:84-95 | the least unused inum gets an empty file with one link, the table growing by a record if none was free |
| `FileLayers.FileLayer.Truncate` | layers/file.hpp:328-374 | the new contents have that size; byte k is the old byte k if there was one and zero otherwise, past the largest file zero too; no other file changes; exactly the blocks behind the indirect block stay held by nobody |
| `FileLayers.FileLayer.FreeBlocks` | layers/file.hpp:344-353 | exactly the direct blocks and the indirect block are freed |
| `FileLayers.FileLayer.Free` | layers/file.hpp:376-400 | the inode is unused and its bytes are gone; its own pointers' blocks are freed, and nothing of any other file; inode 0 aborts |
| `FileLayers.FileLayer.AddLink` | layers/file.hpp:444-449 | one link more, nothing else; on inode 0 the table's own count |
| `FileLayers.FileLayer.RelabelTable` | layers/file.hpp:444-462 | the table's inode in memory has that link count, and no file changes |
| `FileLayers.FileLayer.RemoveLink` | layers/file.hpp:451-462 | one link less; the last one frees the file and the blocks of its own pointers; nothing held for another file changes; on inode 0 the table's own count, an abort at the last |
| `FileLayers.FileLayer.GetFileType` | layers/file.hpp:464-467 | the type of that inum, File for the table, an abort past the table |
| `FileLayers.FileLayer.CheckpointedTable` | layers/log.hpp:261-271 | while the table's inode is the one the latest seal put aside, each block of the table outside the tail is on flash, where that inode says, under its own tag |
| `FileLayers.RecordSlots` | layers/file.hpp:586-597 | a record touches at most two blocks, so its update takes at most four slots of the tail |
| `Ownership.NoAliasing` | layers/file.hpp:140-201 | in every state between operations no two pointers of the whole file system name one slot |
| `Ownership.LiveSafety` | layers/log.hpp:684-695 | a written segment's live bytes cover its reachable slots, and a segment with none is named by no pointer |
| `Ownership.IndirectPassedOver` | layers/file.hpp:697-713 | the cleaner never takes a rewritten indirect block for live |
| `FileLayers.FileLayer.CurrentAddress` | layers/file.hpp:810-823 | where the owner has the block now, or an abort, exactly for the tags that are no block of a file |
| `FileLayers.FileLayer.Relocate` | layers/file.hpp:842-850 | moving a block: no file changes, that pointer leaves the victim, no other comes in, and exactly the indirect blocks that the move rewrites leave too; with six free slots to spare it succeeds, otherwise only a jammed or full log stops it |
| `FileLayers.FileLayer.CleanSlot` | layers/file.hpp:793-851 | one iteration: no file changes, and no pointer is left in the slots seen so far; only a slot held at the start takes slots of the tail; but for a jammed or full log it stops exactly at a tag that names no inode, no block of a file, or as INDIRECT_BLOCK the indirect block its owner has, unless a move before took that along |
| `FileLayers.FileLayer.CleanSegment` | layers/file.hpp:784-867 | no file changes, the inode table included, no data pointer is left in the victim, and an indirect block exactly if nothing moved takes it along; with more room than six slots for each block held in the victim it succeeds exactly if no slot stops it, which is decided by the state before |
| `FileLayers.FileLayer.CleanVictim` | layers/file.hpp:750-764 | copy out, erase, invalidate: decided by the state before, the erase loses something exactly if an indirect block lies in the victim and nothing moved out of it rewrites that block; otherwise nothing is lost; with that much room, or no data block in the victim, the round succeeds exactly if no slot stops it, and the erase whenever both segments can be erased; then the victim is EMPTY, uncached and holds nothing; a failed erase leaves one that cannot be erased |
| `Cleaning.CarriedHeld` | layers/file.hpp:825-842 | a block the cleaner moves was held in the victim when it started |
| `Cleaning.MovedCarries` | layers/file.hpp:842-844 | the move and the table update bring no new pointer into the victim, though the update allocates, frees and may seal |
| `Cleaning.MovedTable` | layers/file.hpp:842-844 | the same for a block of the inode table itself |
| `Victims.MovedBlock` | layers/file.hpp:842-844 | a move rewrites exactly the block's own indirect block, if it lies behind the direct ones, and the table's, if the record does; every other pointer still to be moved stays |
| `Victims.TrackedMove` | layers/file.hpp:793-851 | slot by slot, which indirect blocks have left the victim is which of the blocks below had to be moved at the start |
| `Victims.TrackedEnds` | layers/file.hpp:784-867 | at the end an indirect block is left in the victim exactly if the state before says so |
| `Victims.StopsThen` | layers/file.hpp:793-823 | whether a slot stops the cleaning when it is reached was settled before it started |
| `Cleaning.DroppedTable` | layers/file.hpp:762-763 | emptying a segment without data pointers keeps every file exactly if no indirect block lay in it |
| `Paths.TokensSplit` | layers/directory.hpp:529-577 | the strtok tokens of a path are those of its directory path plus its last element, exactly if it contains a slash and does not end in one |
| `Paths.FindLast` | layers/directory.hpp:696-708 | the last slash, or npos |
| `Namespace.ResolveSplits` | layers/directory.hpp:529-577 | resolving such a path is looking its last element up in the directory its directory path resolves to, at every depth |
| `DirectoryLists.DirRoundTrip` | layers/directory.hpp:579-641 | ReadDirectory after WriteDirectory gives the list written, whatever an older and longer list left behind |
| `DirectoryLists.FindAdded` | data_structures/directory_list.hpp:39-55 | AddFile on a fresh name is an insertion |
| `DirectoryLists.FindRemoved` | data_structures/directory_list.hpp:57-93 | RemoveFile on a list without duplicates is a removal |
| `DirectoryLists.DirectoryList.constructor` | data_structures/directory_list.hpp:22-37 | both dot entries name the directory itself |
| `DirectoryLists.DirectoryList.AddFile` | data_structures/directory_list.hpp:39-55 | the entry goes to the end; a name that does not fit its field is undefined |
| `DirectoryLists.DirectoryList.RemoveFile` | data_structures/directory_list.hpp:57-93 | dot names are refused, an absent name is undefined, otherwise every entry of that name goes |
| `DirectoryLists.DirectoryList.ContainsFile` | data_structures/directory_list.hpp:95-107 | true exactly if some entry has that name |
| `DirectoryLists.DirectoryList.GetINum` | data_structures/directory_list.hpp:109-121 | the inum of the first entry of that name |
| `DirectoryLists.DirectoryList.IsEmpty` | data_structures/directory_list.hpp:123-131 | exactly the two dot entries |
| `DirectoryLayers.DirectoryLayer.ReadDirectory` | layers/directory.hpp:579-619 | null exactly for what is not a directory in use, otherwise the list its file encodes |
| `DirectoryLayers.DirectoryLayer.WriteDirectory` | layers/directory.hpp:621-641 | exactly that directory's file is rewritten |
| `DirectoryLayers.DirectoryLayer.GetINum` | layers/directory.hpp:529-577 | the strtok loop computes what the path resolves to |
| `DirectoryLayers.DirectoryLayer.CreateFile` | layers/directory.hpp:649-694 | one new inode, one new entry, counts right, the path resolves to it and every directory stays reachable; without a parent directory the inode is left behind, miscounted |
| `DirectoryLayers.DirectoryLayer.Mkdir` | layers/directory.hpp:74-90 | the namespace stays in order and gains one directory with its two dot entries; every directory stays reachable and no file's bytes change |
| `DirectoryLayers.DirectoryLayer.WritePath` | layers/directory.hpp:156-182 | one splice of the file the path resolves to; the inode table and missing paths are refused unchanged |
| `DirectoryLayers.DirectoryLayer.Symlink` | layers/directory.hpp:294-307 | one new symlink whose bytes are the target; no other file's bytes change |
| `DirectoryLayers.DirectoryLayer.Link` | layers/directory.hpp:249-292 | one entry more, one link more; every directory stays reachable and no file's bytes change |
| `DirectoryLayers.DirectoryLayer.DropLink` | layers/directory.hpp:355-360 | a symlink is freed whatever its count, anything else loses a link |
| `DirectoryLayers.DirectoryLayer.Unlink` | layers/directory.hpp:317-361 | the entry and the path are gone; but for symlinks and the root the inode is freed exactly with its last entry; no other file's bytes change; the namespace is in order exactly if the unlink was safe: no further name of a symlink, no counted child of a freed directory; every directory stays reachable exactly if the one unlinked is empty, goes, or has another way to it |
| `DirectoryLayers.DirectoryLayer.Rmdir` | layers/directory.hpp:363-388 | only a directory with nothing but dot entries goes, the namespace stays in order and no file's bytes change |
| `DirectoryLayers.DirectoryLayer.Rename` | layers/directory.hpp:391-456 | the entry moves, no file's bytes and no count change; the entry is lost only if, before the call, the new name is a dot, its directory path leads to no directory or is walked through the entry, and then always, unless a jammed or full log stops the call before; a rename that succeeds keeps every directory reachable |
| `DirectoryLayers.DirSlotsGrow` | layers/directory.hpp:621-641 | a longer directory never takes fewer slots to rewrite |
| `DirectoryLayers.FewerSlots` | layers/directory.hpp:391-456 | taking an entry out makes no later entry dearer: the bound on a rename holds on the state before it |
| `Namespace.EntryAdded` | layers/directory.hpp:683-689 | the tree gains exactly that entry |
| `Namespace.EntryRemoved` | layers/directory.hpp:345-351 | the tree loses exactly that entry |
| `Namespace.FreedOk` | layers/directory.hpp:355-360 | freeing an inode leaves the rest in order exactly if nothing names it and it has no counted entries |
| `Namespace.UnlinkedOk` | layers/directory.hpp:345-360 | the exact condition of an unlink, over the whole namespace |
| `Walks.ResolveWithout` | layers/directory.hpp:529-577 | without an entry exactly the paths walked through it resolve to nothing, all others as before |
| `Walks.RenamedIntoItself` | layers/directory.hpp:391-456 | a rename to any place below the renamed path itself loses the entry |
| `Walks.InUseReached` | layers/directory.hpp:529-577 | with every directory reachable and the counts right every inode in use is reached from the root |
| `Walks.UnlinkedRooted` | layers/directory.hpp:345-360 | the exact condition under which an unlink cuts nothing off |
| `Walks.RenamedRooted` | layers/directory.hpp:391-456 | a rename that finds its place cuts nothing off |
| `Mklfs.RegionsAre` | utilities/mklfs.cpp:107-141 | flash data, usage table, checkpoints and log are disjoint segments; the table has one of its own exactly if it fits in one |
| `Mklfs.SegmentsFit` | utilities/mklfs.cpp:104 | the erase blocks created hold the segments exactly for blocks of at most 16 sectors |
| `Mklfs.BlocksForIs` | utilities/mklfs.cpp:274-279 | the root directory gets one block too many exactly on a multiple of the block size, never too few |
| `Mklfs.FillSummary` | utilities/mklfs.cpp:295-308 | the loops fill the summary of the first segment |
| `Mklfs.FirstStateOk` | utilities/mklfs.cpp:189-394 | the image satisfies the log's invariant: summary, ownership tags and live bytes |
| `Mklfs.FirstTableOk` | utilities/mklfs.cpp:156-290 | its inode table is whole and holds the root directory and nothing else |
| `Mklfs.FirstNamesOk` | utilities/mklfs.cpp:244-262 | its names are in order |
| `Mklfs.InitFlash` | utilities/mklfs.cpp:143-394 | the writes to a blank flash all succeed and leave exactly that image, checkpoint, usage table and sector states |
| `Mklfs.MountLog` | layers/log.hpp:82-155 | on a formatted flash the log goes on with the first segment, which it can erase once, every later segment EMPTY and one sector of the ring used |
| `Mklfs.Mount` | layers/file.hpp:63-74 | a formatted flash comes up with every invariant of every layer in place: the base case of every run |
| `Witnesses.StaleFromFormat` | layers/log.hpp:280-286 | from a formatted flash, Write and Free alone and all successful: a block is written and another is read back |
| `Witnesses.FullFromFormat` | layers/log.hpp:216-300 | from a formatted flash no write fails before the log is full |
| `FreshRuns.LongWrite` | layers/file.hpp:97-220 | from a formatted flash a file is created and written in one go, for every length whose slots the flash has: both succeed, through however many seals, and the file has those bytes |
| `Witnesses.PastTheLargestFile` | layers/file.hpp:612-639 | the block past the largest file is let through, the next one aborts |
| `Witnesses.ReusedSlot` | layers/log.hpp:258-271 | from a formatted flash, every write successful: the checkpoint's inode has a pointer for block 3 of the table whose slot on flash holds block 4 |
| `Witnesses.UnfoundRun` | layers/log.hpp:598-642 | from a formatted flash, every write successful: a checkpoint from which no restart finds a state of the log |
| `Witnesses.MountWide` | layers/file.hpp:63-74 | a flash formatted with segments of 64 blocks or more comes up with the slots the next four runs need |
| `Witnesses.OrphanRun` | layers/directory.hpp:649-694 | there creating "/a/b" fails and leaves an inode that no entry names |
| `Witnesses.LostRun` | layers/directory.hpp:391-456 | making "/a" and renaming it to "/a/b" loses it |
| `Witnesses.UnsafeRun` | layers/directory.hpp:317-361 | making "/a" and a file in it and unlinking "/a" succeeds and leaves the file miscounted |
| `Witnesses.CycleRun` | layers/directory.hpp:317-361 | making "/a", linking it as "/a/b" and unlinking "/a" succeeds, keeps the counts and cuts the directory off |
| `LosingRuns.LosingState` | layers/file.hpp:140-201 | from a formatted flash with three log segments and a wear limit above 6: a valid state of the file layer, an indirect block alone in a sealed segment that can be erased and that nothing stops the cleaner in |
| `LosingRuns.LosingVictim` | layers/file.hpp:750-867 | cleaning that segment succeeds and the file layer is no longer valid: the file's indirect block is gone |
| `Restarts.Restart` | layers/log.hpp:82-155 | a new log over the flash an old one has left comes up in the state that flash holds, whatever was written and freed since |
| `Restarts.Remount` | layers/file.hpp:63-74 | and every file is back as it was in that state |
| `Restarts.SavingRun` | layers/log.hpp:258-295 | from a formatted flash: filling the tail saves the state, and a block given up afterwards is still there for a restart, if the clock has gone on |

## Left out

- `INodes.INodeRoundTrip`: times, owners and permission bits are not modelled (nor `Directory_CheckPermissions`): the record has seven of its fields, 60 bytes long, and link counts 32 bits.
- Struct padding, host pointers in the on-flash records, and buffers' bytes past what is copied: taken as zero; an in-memory segment is modelled without its unread trailing block.
- In-memory segments are values: the cache and the tail share no storage in the model.
- I/O errors of the emulated flash file, its header, operation counters and delays.
- `FlashLayer.Flash.Erase`: a range beyond the last block, which the source does not check.
- The cost-benefit policy, `RunCleaner`'s thresholds and `CleanLog`'s loop: `CleanVictim` is one round for any victim, and what it needs of the victim is not kept by earlier rounds alone (the tail may have moved onto a later victim).
- `LogLayer.UsageRoundTrip`: the age column of the usage table.
- After `Failed`, `Thrown` or `Stale` nothing is claimed unless a contract says so; the source goes on after some failures that the model reports (`UpdateINodeBlock` in `File_Write`, `UpdateIFile` in `File_Truncate` and `File_Free`, `WriteDirectory` in `Directory_Mkdir`, `File_AddLink` in `Directory_Link`).
- `FileLayers.FileLayer.Read`: offset beyond the file size is excluded, where the source's subtraction wraps.
- `FileLayers.FileLayer.Create`: the table is required to have room for one more record in the largest file; the source does not check.
- `LogLayer.Log.Free`: an address that is not held is excluded; the source frees it without looking.
- `LogLayer.Log.Read`: slot 0 and segments neither written nor the tail are excluded.
- `LogLayer.Log.Init`: the state the flash describes is given; it is established by the formatting and by every saving seal (`Log.Seal`), not by a checkpoint at any other time, where table and checkpoint on flash may be older than each other. A restart from a flash that describes no state is not modelled.
- `LogLayer.Log.CheckpointedPointers`: does not say which block is in the slot of a pointer that has been given up; `Witnesses.ReusedSlot` shows it may be another one.
- `DirectoryLayers.DirectoryLayer.CreateFile`: the name is required to be fresh in its directory and the directory to have room; the source checks neither (the same for Mkdir, Symlink, Link and Rename).
- `DirectoryLayers.DirectoryLayer.WritePath`: writing raw bytes into a directory is excluded.
- `DirectoryLayers.DirectoryLayer.Mkdir`: the source reads the directory's own name from a destroyed string; any name is allowed here, and the dot entries and counts do not depend on it.
- Directory_Read, Readdir, Readlink, GetAttr, Exists, Truncate, Chmod, Chown and Statfs: one resolution and one call each.
- Of a directory operation that takes more slots than the tail has, the contract says what a failure leaves (`Ends`), not on the state before that there is none, as `FileLayer.Write` does (`Log.Flows`).
- Concurrency: the source has none. FUSE handlers, `lfsck` as a program, argument parsing and printing.
- The clock is any sequence of readings; recovery of the latest checkpoint is claimed while they grow.
