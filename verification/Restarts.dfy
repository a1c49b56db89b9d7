/** Crashes: what a restart comes up in, whatever the log had been doing since its last saving seal. */
module Restarts {
  import opened Words
  import opened FlashLayer
  import opened Segments
  import opened INodes
  import opened LogModel
  import opened Layout
  import opened Checkpoints
  import opened LogLayer
  import opened TailRuns
  import opened InodeTable
  import opened FileViews
  import opened Cleaning
  import opened FileLayers
  import opened Mklfs

  /** A new log over the flash an old one has left comes up in the state that flash holds. */
  method Restart(log: Log, cacheSize: nat, checkpointInterval: nat, ghost st: LogState, ghost n: INode) returns (after: Log)
    requires log.FlashOk() && Recoverable(log.g, log.OnDisk(), st, n) && cacheSize >= 1
    ensures fresh(after.Repr - log.flash.Repr) && after.g == log.g && after.flash == log.flash
    ensures after.Valid() && after.State() == st && after.iFileINode == n && after.failures == 0
  {
    hide FlashHolds, Geometry.Ok, Geometry.BlockBytes, Sized, Flash.Bytes, Flash.Valid, Log.Ready, Log.TailCached;
    after := new Log(log.g, log.flash, cacheSize, checkpointInterval);
    after.Init(log.lastIndex, log.lastCheckpoint, st, log.ringStart, log.checkpoints, log.unwritten);
  }

  /** If the inode table was whole in that state, every file is back as it was. */
  method Remount(log: Log, cacheSize: nat, checkpointInterval: nat, ghost st: LogState, ghost n: INode, ghost count: nat)
    returns (files: FileLayer)
    requires log.FlashOk() && Recoverable(log.g, log.OnDisk(), st, n) && cacheSize >= 1
    requires TableOk(log.g.BlockBytes(), st.held, n, count) && count < 0x7FFF_FFFF && log.g.BlockBytes() > 0
    ensures fresh(files) && files.log.flash == log.flash && files.log.State() == st
    ensures files.Valid() && files.Files() == Views(log.g.BlockBytes(), st.held, n, count)
  {
    hide Recoverable, Log.FlashOk, TableOk, Views, Log.Valid, Geometry.Ok, Geometry.BlockBytes;
    var after := Restart(log, cacheSize, checkpointInterval, st, n);
    TableSize(log.g.BlockBytes(), st.held, n, count);
    files := new FileLayer(after);
  }

  lemma TableSize(bs: nat, h: Held, ifile: INode, count: nat)
    requires TableOk(bs, h, ifile, count)
    ensures ifile.fileSize / INODE_BYTES == count
  {
  }

  lemma SavingNow(log: Log)
    requires log.Valid() && log.flash.wearLimit > 0 && log.checkpointInterval <= 1 && log.checkpoints == 0
    requires forall b :: 0 <= b < log.flash.wear.Length ==> log.flash.wear[b] == 0
    ensures log.Saving()
  {
    hide LogInv, Log.States, Log.Durable, Log.RingKept, BlockIn, Geometry.Ok, Log.CanErase, OnFlash, Sized, Flash.Valid;
    GeometryFacts(log.g);
    ManySectors(log.g);
    log.CanEraseIs(log.g.usageSegment);
  }

  lemma ManySectors(g: Geometry)
    requires g.Ok()
    ensures g.SegmentSectors() > 2
  {
    MulOrder(16, g.segmentSize, g.blockSize);
  }

  lemma TableBlockHeld(g: Geometry)
    requires g.Ok()
    ensures TableINode(g).direct[0] in FirstHeld(g) && TableINode(g).direct[0].seg == g.FirstSegment()
  {
    TablePointersHeld(g, FirstHeld(g));
    Blocks(g);
  }

  lemma NextIsClean(g: Geometry)
    requires g.Ok()
    ensures g.FirstSegment() + 1 < g.flashSize && FirstLive(g)[g.FirstSegment() + 1] == 0
  {
    GeometryFacts(g);
  }

  lemma StillThere(h0: Held, h1: Held, h2: Held, t: word, b: Addr, block: seq<byte>)
    requires Padded(h0, h1, t, block) && b !in h1 && h2 == h1[b := Slot(IFILE_INUM, 0, Data(0), block)]
    ensures forall a :: a in h0 ==> a in h2 && h2[a] == h0[a]
  {
  }

  /** The first seal after the mount: it moves on to the next segment, and what the log is then is what a restart finds. */
  method FirstSeal(log: Log, block: seq<byte>)
    requires log.g.Ok() && JustMounted(log) && log.flash.wearLimit > 0 && log.checkpointInterval <= 1 && |block| == log.g.BlockBytes()
    requires forall b :: 0 <= b < log.flash.wear.Length ==> log.flash.wear[b] == 0
    modifies log, log.cache, log.flash, log.flash.data, log.flash.full, log.flash.wear
    ensures log.Ready() && log.iFileINode == old(log.iFileINode) && log.tail.number == log.g.FirstSegment() + 1
    ensures forall a :: a in old(log.held) ==> a in log.held && log.held[a] == old(log.held)[a]
    ensures log.monotone ==> Recoverable(log.g, log.OnDisk(), log.State().(cache := []), log.iFileINode)
  {
    hide Geometry.Ok, Geometry.BlockBytes, LogInv, Log.Structure, Log.States, Log.Durable, FirstHeld, TableINode, Log.Sealable,
         JustMounted, FreeSlots, Log.CanErase, Padded, SealedFrom, Recoverable, FirstLive, Log.BeforeTailFull, Full;
    MountedTail(log);
    MountedAt(log);
    ghost var h0, w0 := log.held, log.flash.wear[..];
    PadTail(log, block);
    ghost var h1 := log.held;
    SavingNow(log);
    var b := PutLast(log, IFILE_INUM, 0, Data(0), block);
    ghost var st :| SealedFrom(log.g, st, log.State(), log.cache.size) && st.tail.number == log.g.FirstSegment() && st.cache == []
                    && st.live == FirstLive(log.g) && WellFormed(log.g, st.tail) && Full(log.g, st.tail);
    NextIsClean(log.g);
    MovedOn(log.g, st, log.State(), log.cache.size);
    SealedImage(log.g, st, log.State(), log.cache.size);
    SealedBefore(log, st.image, st.tail);
    StillThere(h0, h1, log.held, log.g.FirstSegment(), b, block);
  }

  lemma SealedImage(g: Geometry, st: LogState, after: LogState, size: nat)
    requires g.Ok() && SealedFrom(g, st, after, size)
    ensures after.image == st.image[st.tail.number := st.tail]
  {
  }

  lemma SealedBefore(log: Log, image: map<word, Segment>, t: Segment)
    requires log.g.Ok() && WellFormed(log.g, t) && Full(log.g, t) && log.image == image[t.number := t] && log.tail.number == t.number + 1
    ensures log.BeforeTailFull()
  {
    hide Geometry.BlockBytes;
    GeometryFacts(log.g);
  }

  lemma MountedAt(log: Log)
    requires log.g.Ok() && JustMounted(log)
    ensures log.tail.number == log.g.FirstSegment() && log.cache.queue == [] && log.live == FirstLive(log.g) && log.checkpoints == 0
  {
    hide Log.Structure, Log.States, Log.Durable, LogInv, FirstHeld, TableINode, Log.Sealable;
    FirstNumber(log.g);
  }

  /**
   * From a formatted flash: the tail is filled and sealed, which saves its state, and then the table's own block is given up.
   * The log has lost it, but what a restart comes up in has not, if the clock has gone on.
   */
  method SavingRun(g: Geometry, flash: Flash, cacheSize: nat, checkpointInterval: nat, ghost now: u64)
    returns (log: Log, ghost saved: LogState, n: INode)
    requires g.Ok() && now > 0 && Initialised(g, flash, FirstCheckpoint(g, now)) && flash.wearLimit > 0 && cacheSize >= 1
    requires {flash, flash.data, flash.full, flash.wear} == flash.Repr && checkpointInterval <= 1
    modifies flash, flash.data, flash.full, flash.wear
    ensures log.FlashOk() && log.g == g && (log.monotone ==> Recoverable(g, log.OnDisk(), saved, n))
    ensures g.BlockBytes() > 0 && TableOk(g.BlockBytes(), saved.held, n, 1) && Views(g.BlockBytes(), saved.held, n, 1) == [RootView()]
    ensures n.direct[0] in saved.held && n.direct[0] !in log.held
  {
    hide Geometry.Ok, Geometry.BlockBytes, LogInv, Log.States, Log.Durable, Log.RingKept, FlashHolds, FirstHeld, TableINode, Log.Sealable,
         JustMounted, FreeSlots, Views, TableOk, Recoverable, OnFlash;
    log := MountLog(g, flash, cacheSize, checkpointInterval, now);
    MountedTail(log);
    FirstTableOk(g);
    TableBlockHeld(g);
    ghost var h0 := log.held;
    FirstSeal(log, Zeros(g.BlockBytes()));
    TableGrown(g.BlockBytes(), h0, log.held, TableINode(g), 1);
    saved, n := log.State().(cache := []), log.iFileINode;
    log.Free(n.direct[0]);
  }
}
