/** The log layer: an in-memory tail filled first-fit, sealed to flash when full, behind an LRU segment cache. */
module LogLayer {
  import opened Words
  import opened FlashLayer
  import opened Segments
  import opened INodes
  import opened SegmentCaches
  import opened LogModel
  import opened Layout
  import opened Checkpoints

  const CHECKPOINT_SIZE_IN_SECTORS: nat := 1
  /** A seal may erase the tail's old sectors, the table's segment and, for a checkpoint, one block more. */
  const SEAL_WEAR: nat := 3

  /**
   * 0, a nonzero return code, or `throw`. `Stale` is not a result of the program: the file layer's model ends a run with it
   * when a seal has just picked a tail that the segment cache still holds (see Log.TailCached).
   */
  datatype Outcome = Done | Failed | Thrown | Stale

  /** No block was erased more than n times. */
  predicate WornBy(n: nat, before: seq<nat>, after: seq<nat>) {
    |after| == |before| && forall b :: 0 <= b < |before| ==> after[b] <= before[b] + n
  }

  lemma WornNone(n: nat, wear: seq<nat>)
    ensures WornBy(n, wear, wear)
  {
  }

  /** The usage table as it lies on flash: 16 bytes an entry, the live count first. */
  function UsageWords(live: seq<word>): (ws: seq<word>)
    ensures |ws| == 4 * |live|
  {
    seq(4 * |live|, k requires 0 <= k < 4 * |live| => if k % 4 == 0 then live[k / 4] else 0)
  }

  function UsageBytes(g: Geometry, live: seq<word>): (bytes: seq<byte>)
    requires g.Ok() && |live| == g.flashSize
    ensures |bytes| == g.SegmentBytes()
  {
    EncodeWords(UsageWords(live)) + Zeros(g.SegmentBytes() - 16 * |live|)
  }

  function LiveWords(ws: seq<word>, n: nat): (live: seq<word>)
    requires 4 * n <= |ws|
    ensures |live| == n
  {
    seq(n, i requires 0 <= i < n => ws[4 * i])
  }

  /** ReadSegmentUsageTable on the bytes of the table's segment. */
  function StoredTable(g: Geometry, bytes: seq<byte>): (live: seq<word>)
    requires g.Ok() && |bytes| == g.SegmentBytes()
    ensures |live| == g.flashSize
  {
    LiveWords(DecodeWords(bytes), g.flashSize)
  }

  /** The table read back from a segment is the table written to it. */
  lemma UsageRoundTrip(g: Geometry, live: seq<word>)
    requires g.Ok() && |live| == g.flashSize
    ensures StoredTable(g, UsageBytes(g, live)) == live
  {
    hide EncodeWords, DecodeWords, Geometry.SegmentBytes;
    var ws := UsageWords(live);
    DecodeEncode(ws, Zeros(g.SegmentBytes() - 16 * |live|));
    var ds := DecodeWords(UsageBytes(g, live));
    assert forall i :: 0 <= i < |ws| ==> ds[i] == ds[..|ws|][i] == ws[i];
  }

  /** Log_Write's search: the first slot past the summary block with no inum. */
  function FirstFree(inums: seq<i32>, from: nat): (b: nat)
    ensures from <= b || from > |inums|
    ensures b < |inums| ==> inums[b] == NO_INUM
    ensures forall k :: from <= k < b && k < |inums| ==> inums[k] != NO_INUM
    ensures b >= |inums| ==> forall k :: from <= k < |inums| ==> inums[k] != NO_INUM
    decreases |inums| - from
  {
    if from >= |inums| then |inums| else if inums[from] == NO_INUM then from else FirstFree(inums, from + 1)
  }

  /**
   * The flash holds a log in state st: the latest checkpoint `last` at sector `newest` of the ring, the usage table, the
   * written segments, and sector states as `calls` checkpoints since the formatting leave them.
   */
  ghost predicate FlashHolds(g: Geometry, d: seq<byte>, full: seq<bool>, newest: nat, last: Checkpoint, st: LogState,
                             ringStart: nat, calls: nat, unwritten: set<word>)
    requires g.Ok() && Sized(g, d)
  {
    && g.usageSegment < g.flashSize && g.checkpointSegment < g.flashSize && |st.live| == g.flashSize
    && RingOk(SegmentOn(g, d, g.checkpointSegment), newest, last)
    && last.usageSegment == g.usageSegment && last.lastSegmentWritten in st.image
    && OnFlash(g, st.image, d) && LogInv(g, st) && st.cache == []
    && SegmentOn(g, d, g.usageSegment) == UsageBytes(g, st.live)
    && st.tail == RecoveredTail(g, st.image[last.lastSegmentWritten], st.live)
    && PointersSettled(st.image, last.iFileINode, g.segmentSize, {})
    && g.SegmentSectors() > 0 && NthSector(g, ringStart, calls) == RingBase(g) + newest
    && RingFilled(g, full, ringStart, calls) && AllClear(g, full, unwritten)
  }

  /** What a crash leaves: the bytes and sector states of the flash, with where the latest checkpoint is and how it got there. */
  datatype Disk = Disk(bytes: seq<byte>, full: seq<bool>, newest: nat, last: Checkpoint, ringStart: nat, calls: nat, unwritten: set<word>)

  /** All that only a seal, a checkpoint or an erase changes. */
  datatype Stored = Stored(tail: word, partial: bool, image: map<word, Segment>, disk: Disk, wear: seq<nat>)

  /** What there is to write to: free slots of the tail, all slots before the flash is full, and what is behind the tail. */
  datatype Reserve = Reserve(room: nat, capacity: int, stored: Stored)

  /**
   * How a call that needs at most n slots ends. If the tail has more room than that, nothing behind it changes. Success takes
   * no more than n of all the slots there are. A failure either has this reason, or the tail had not that much room and the
   * log has got stuck: it is jammed, or it is full and had fewer slots than n.
   */
  predicate Ends(r: Outcome, reason: bool, n: nat, before: Reserve, after: Reserve, jammed: bool) {
    && (before.room > n ==> after.stored == before.stored && after.room + n >= before.room)
    && if r == Done then after.capacity + n >= before.capacity
       else reason || (before.room <= n && (jammed || (after.stored.tail == FLASH_FULL && before.capacity < n)))
  }

  /** Where writing flows, as many slots as there are can be written, and it still flows then. */
  predicate Flowing(r: Outcome, reason: bool, n: nat, capacity: int, flows: bool, still: bool) {
    flows ==> (capacity >= n ==> r == Done || reason) && (r == Done ==> still)
  }

  lemma NothingYet(s: Reserve, jammed: bool)
    ensures Ends(Done, false, 0, s, s, jammed)
  {
  }

  /** A call that found its reason before it wrote anything. */
  lemma EndsAtOnce(r: Outcome, reason: bool, n: nat, s: Reserve, jammed: bool, flows: bool, still: bool)
    requires reason && r != Done
    ensures Ends(r, reason, n, s, s, jammed) && Flowing(r, reason, n, s.capacity, flows, still)
  {
  }

  /** One call after another. */
  lemma EndsThen(n: nat, s0: Reserve, s1: Reserve, j1: bool, r: Outcome, reason: bool, m: nat, s2: Reserve, j2: bool)
    requires Ends(Done, false, n, s0, s1, j1) && Ends(r, reason, m, s1, s2, j2)
    ensures Ends(r, reason, n + m, s0, s2, j2)
  {
  }

  /** A call that gives up with a reason after one that did not fail. */
  lemma EndsFailed(n: nat, s0: Reserve, s1: Reserve, j1: bool, r: Outcome, j2: bool)
    requires Ends(Done, false, n, s0, s1, j1) && r != Done
    ensures Ends(r, true, n, s0, s1, j2)
  {
  }

  lemma FlowingThen(n: nat, s0: Reserve, s1: Reserve, j1: bool, flows: bool, mid: bool, r: Outcome, reason: bool, m: nat, still: bool)
    requires Ends(Done, false, n, s0, s1, j1) && (flows ==> mid) && Flowing(r, reason, m, s1.capacity, mid, still)
    ensures Flowing(r, reason, n + m, s0.capacity, flows, still) && (flows && r == Done ==> still)
  {
  }

  lemma StillFlows(r: Outcome, reason: bool, n: nat, capacity: int, flows: bool, still: bool)
    requires Flowing(r, reason, n, capacity, flows, still)
    ensures r == Done && flows ==> still
  {
  }

  lemma FlowsOn(r: Outcome, n: nat, capacity: int, flows: bool, still: bool)
    requires r == Done && (flows ==> still)
    ensures Flowing(r, false, n, capacity, flows, still)
  {
  }

  /** A call that takes fewer slots, or fails for less. */
  lemma EndsWithin(n: nat, m: nat, r: Outcome, why: bool, reason: bool, s0: Reserve, s1: Reserve, jammed: bool)
    requires n <= m && Ends(r, why, n, s0, s1, jammed) && (why ==> reason)
    ensures Ends(r, reason, m, s0, s1, jammed)
  {
  }

  lemma FlowingWithin(n: nat, m: nat, r: Outcome, why: bool, reason: bool, capacity: int, from: bool, mid: bool, flows: bool, still: bool)
    requires n <= m && Flowing(r, why, n, capacity, from, mid) && (why ==> reason) && (flows ==> from) && (r == Done && flows && mid ==> still)
    ensures Flowing(r, reason, m, capacity, flows, still)
  {
  }

  /** What decides when checkpoints are written: seals since the last one, CheckpointNow calls, where the last one went, what it says. */
  datatype Pace = Pace(writes: nat, calls: nat, sector: nat, last: Checkpoint)

  /**
   * A seal is counted. When the count reaches the interval the next sector of the ring is tried; as long as the ring has an
   * EMPTY one left that makes a new latest checkpoint, and counting starts over.
   */
  ghost predicate SealPaced(g: Geometry, interval: nat, before: Pace, after: Pace) {
    if before.writes + 1 < interval then after == before.(writes := before.writes + 1)
    else
      && g.SegmentSectors() > 0
      && after.calls == before.calls + 1 && after.sector == NextSector(g, before.sector)
      && if after.calls < g.SegmentSectors() then after.writes == 0
         else after.writes == before.writes + 1 && after.last == before.last
  }

  /** What is left holds state st, and in its latest checkpoint the table's inode n: a restart comes up in that. */
  ghost predicate Recoverable(g: Geometry, d: Disk, st: LogState, n: INode) {
    && g.Ok() && Sized(g, d.bytes) && d.last.iFileINode == n
    && FlashHolds(g, d.bytes, d.full, d.newest, d.last, st, d.ringStart, d.calls, d.unwritten)
  }

  class Log {
    const g: Geometry
    const checkpointInterval: nat
    const flash: Flash
    const cache: SegmentCache
    var live: seq<word>
    var tail: Segment
    var checkpoint: Checkpoint
    var checkpointSector: nat
    var writesSinceLastCheckpoint: nat
    var recoveredWithPartialSegment: bool
    var iFileINode: INode

    /** Blocks written and not freed, by address; the segments on flash, as values. */
    ghost var held: Held
    ghost var image: map<word, Segment>
    /** The latest clock reading, whether readings have only ever grown, and the last checkpoint written. */
    ghost var clock: u64
    ghost var monotone: bool
    ghost var lastIndex: nat
    ghost var lastCheckpoint: Checkpoint
    /** History: the sector the ring started from, the CheckpointNow calls since, and the log segments known to be EMPTY. */
    ghost var ringStart: nat
    ghost var checkpoints: nat
    ghost var unwritten: set<word>
    /** History: how many Log_Write calls have failed. */
    ghost var failures: nat

    ghost const Repr: set<object>

    ghost function State(): LogState
      reads `held, `image, `tail, `live, cache
    {
      LogState(held, image, tail, cache.queue, live)
    }

    ghost function Stock(): Reserve
      reads `tail, `live, `recoveredWithPartialSegment, `image, `lastIndex, `lastCheckpoint, `ringStart, `checkpoints, `unwritten,
            flash.data, flash.full, flash.wear
    {
      Reserve(FreeSlots(tail), Capacity(g, tail, live), Stored(tail.number, recoveredWithPartialSegment, image, OnDisk(), flash.wear[..]))
    }

    ghost function Pacing(): Pace
      reads `writesSinceLastCheckpoint, `checkpoints, `checkpointSector, `lastCheckpoint
    {
      Pace(writesSinceLastCheckpoint, checkpoints, checkpointSector, lastCheckpoint)
    }

    ghost predicate Separate() {
      && Repr == {this, cache} + flash.Repr
      && {flash, flash.data, flash.full, flash.wear} == flash.Repr
      && this !in flash.Repr && cache !in flash.Repr
    }

    ghost predicate FlashOk()
      reads flash, flash.Repr
    {
      && Separate() && g.Ok() && flash.Valid() && Sized(g, flash.Bytes())
    }

    ghost predicate RingKept()
      requires g.Ok() && Sized(g, flash.Bytes())
      reads `checkpoint, `checkpointSector, `monotone, `clock, `lastIndex, `lastCheckpoint, flash.data
    {
      && checkpoint.isValid && checkpoint.usageSegment == g.usageSegment
      && RingBase(g) <= checkpointSector < RingBase(g) + g.SegmentSectors()
      && (monotone ==> lastCheckpoint.time <= clock
                       && RingOk(SegmentOn(g, flash.Bytes(), g.checkpointSegment), lastIndex, lastCheckpoint))
    }

    ghost predicate Structure()
      reads this, Repr, cache, flash, flash.Repr
    {
      && FlashOk() && cache.Valid() && |live| == g.flashSize
      && OnFlash(g, image, flash.Bytes())
      && RingKept()
    }

    /** Log_Read would take the tail's number from the cache instead of the tail. */
    ghost predicate TailCached()
      reads `tail, cache
    {
      Cached(cache.queue, tail.number)
    }

    /** The next write finds a slot, and if it is the last one, sectors to seal the tail to. */
    ghost predicate CanWrite()
      reads `recoveredWithPartialSegment, `tail, flash.full, flash.wear
    {
      tail.number != FLASH_FULL && (FreeSlots(tail) == 1 ==> Sealable())
    }

    /** Nothing can be written any more: the tail is one the cache still holds, or it is full and cannot be sealed. */
    ghost predicate Jammed()
      reads `recoveredWithPartialSegment, `tail, cache, flash.full, flash.wear
    {
      TailCached() || (tail.number != FLASH_FULL && FreeSlots(tail) == 0 && !Sealable())
    }

    /**
     * Writing goes on across seals until the flash is full, whichever of the held blocks in `going` are given up meanwhile: the
     * tail can be sealed, and every other log segment holds a block that stays, or can be written and is not cached.
     */
    ghost predicate Flows(going: set<Addr>)
      reads `recoveredWithPartialSegment, `tail, `held, `unwritten, cache, flash.full, flash.wear
    {
      FlowsAt(cache.queue, going)
    }

    /** With that queue for a cache. */
    ghost predicate FlowsAt(queue: seq<Segment>, going: set<Addr>)
      reads `recoveredWithPartialSegment, `tail, `held, `unwritten, flash.full, flash.wear
    {
      && going <= held.Keys && (tail.number != FLASH_FULL ==> Sealable())
      && Open(g, held, queue, unwritten, tail.number, going)
    }

    /**
     * The table file's inode can be found from flash: in the checkpoint record every pointer names an occupied slot of a
     * segment already on flash, and the inode in memory points at most into the tail besides.
     */
    ghost predicate Durable()
      reads `checkpoint, `iFileINode, `image, `tail
    {
      && PointersSettled(image, checkpoint.iFileINode, g.segmentSize, {})
      && PointersSettled(image, iFileINode, g.segmentSize, {tail.number})
    }

    /** The ring's sectors are FULL as that many checkpoints leave them, and no unwritten segment has a FULL sector. */
    ghost predicate States()
      reads `checkpointSector, `ringStart, `checkpoints, `unwritten, flash.full
    {
      && g.SegmentSectors() > 0 && checkpointSector == NthSector(g, ringStart, checkpoints)
      && RingFilled(g, flash.full[..], ringStart, checkpoints)
      && AllClear(g, flash.full[..], unwritten)
    }

    ghost predicate Ready()
      reads this, Repr, cache, flash, flash.Repr
    {
      g.Ok() && Separate() && Structure() && LogInv(g, State()) && Durable() && States()
    }

    ghost predicate Valid()
      reads this, Repr, cache, flash, flash.Repr
    {
      Ready() && !TailCached()
    }

    /** The usage table in memory is the one on flash. */
    ghost predicate TableSaved()
      reads `live, flash.data
    {
      && g.Ok() && g.usageSegment < g.flashSize && |live| == g.flashSize && Sized(g, flash.Bytes())
      && SegmentOn(g, flash.Bytes(), g.usageSegment) == UsageBytes(g, live)
    }

    ghost function OnDisk(): Disk
      reads `lastIndex, `lastCheckpoint, `ringStart, `checkpoints, `unwritten, flash.data, flash.full
    {
      Disk(flash.Bytes(), flash.full[..], lastIndex, lastCheckpoint, ringStart, checkpoints, unwritten)
    }

    /** A seal made now would write a checkpoint. */
    ghost predicate Due()
      reads `writesSinceLastCheckpoint, `checkpoints
    {
      writesSinceLastCheckpoint + 1 >= checkpointInterval && checkpoints + 1 < g.SegmentSectors()
    }

    /** And the usage table with it. */
    ghost predicate Saving()
      reads `writesSinceLastCheckpoint, `checkpoints, flash.wear
    {
      Due() && CanErase(g.usageSegment)
    }

    /** The segment before the tail, which a checkpoint takes for the last one written, is on flash and full. */
    ghost predicate BeforeTailFull()
      requires g.Ok()
      reads `tail, `image
    {
      var l := Wrap(tail.number - 1);
      l in image && |image[l].inums| == g.segmentSize && image[l].inums[g.segmentSize - 1] != NO_INUM
    }

    // ---- Opening a formatted flash -----------------------------------------------------------

    constructor (g: Geometry, flash: Flash, cacheSize: nat, checkpointInterval: nat)
      requires cacheSize >= 1 && g.Ok() && flash.Valid() && Sized(g, flash.Bytes())
      requires {flash, flash.data, flash.full, flash.wear} == flash.Repr
      ensures FlashOk() && fresh(Repr - flash.Repr) && cache.Valid() && cache.queue == []
      ensures this.g == g && this.flash == flash && cache.size == cacheSize && this.checkpointInterval == checkpointInterval
      ensures checkpoint == BLANK && failures == 0 && !recoveredWithPartialSegment && writesSinceLastCheckpoint == 0
    {
      hide Flash.Bytes, Geometry.Ok, Geometry.SegmentBytes, Geometry.SegmentSectors, Geometry.BlockBytes, Sized;
      this.g := g;
      this.flash := flash;
      this.checkpointInterval := checkpointInterval;
      var c := new SegmentCache(cacheSize);
      cache := c;
      live := [];
      tail := Build(g, 0);
      checkpoint := BLANK;
      checkpointSector := 0;
      writesSinceLastCheckpoint := 0;
      recoveredWithPartialSegment := false;
      iFileINode := BLANK.iFileINode;
      failures, ringStart, checkpoints, unwritten := 0, 0, 0, {};
      Repr := {this, c} + flash.Repr;
    }

    /** A flash that holds `start` comes up in that state. */
    method Init(ghost newest: nat, ghost last: Checkpoint, ghost start: LogState,
                ghost ringStart: nat, ghost calls: nat, ghost unwritten: set<word>)
      requires FlashOk() && cache.Valid() && cache.queue == [] && checkpoint == BLANK && !recoveredWithPartialSegment
      requires FlashHolds(g, flash.Bytes(), flash.full[..], newest, last, start, ringStart, calls, unwritten)
      modifies `live, `tail, `checkpoint, `checkpointSector, `recoveredWithPartialSegment, `iFileINode, `held, `image,
               `clock, `monotone, `lastIndex, `lastCheckpoint, `ringStart, `checkpoints, `unwritten
      ensures Valid()
      ensures State() == start && iFileINode == last.iFileINode
      ensures checkpointSector == RingBase(g) + newest && lastCheckpoint == last
      ensures this.ringStart == ringStart && checkpoints == calls && this.unwritten == unwritten
      ensures last.lastSegmentWritten in image
      ensures recoveredWithPartialSegment <==> tail == image[last.lastSegmentWritten]
    {
      hide Flash.Bytes, Flash.Valid, Geometry.Ok, RingBase, Sized, FlashHolds, Log.Valid, Log.RingKept, Log.States,
           Log.Ready, Log.Structure, LogInv;
      held, image := start.held, start.image;
      this.ringStart, checkpoints, this.unwritten := ringStart, calls, unwritten;
      RecoverRing(newest, last, start);
      LoadTail(newest, last, start);
    }

    /** The first half of Init: the latest checkpoint and the table's inode in it. */
    method RecoverRing(ghost newest: nat, ghost last: Checkpoint, ghost start: LogState)
      requires FlashOk() && checkpoint == BLANK
      requires FlashHolds(g, flash.Bytes(), flash.full[..], newest, last, start, ringStart, checkpoints, unwritten)
      modifies `checkpoint, `checkpointSector, `iFileINode, `clock, `monotone, `lastIndex, `lastCheckpoint
      ensures RingKept() && checkpoint == lastCheckpoint == last && checkpointSector == RingBase(g) + newest
      ensures iFileINode == last.iFileINode
    {
      hide RingOk, SegmentOn, Sized, RingBase, Flash.Bytes, Flash.Valid, Geometry.Ok, Geometry.SegmentBytes,
           Geometry.SegmentSectors, Geometry.BlockBytes, LogInv, OnFlash, RingFilled, AllClear, RecoveredTail;
      GeometryFacts(g);
      RingNewest(SegmentOn(g, flash.Bytes(), g.checkpointSegment), newest, last);
      clock, monotone, lastIndex, lastCheckpoint := last.time, true, newest, last;
      RecoverCheckpoint();
      iFileINode := checkpoint.iFileINode;
    }

    /** The second half of Init: last written segment, usage table, tail. */
    method LoadTail(ghost newest: nat, ghost last: Checkpoint, ghost start: LogState)
      requires FlashOk() && cache.Valid() && cache.queue == [] && RingKept() && !recoveredWithPartialSegment
      requires FlashHolds(g, flash.Bytes(), flash.full[..], newest, last, start, ringStart, checkpoints, unwritten)
      requires held == start.held && image == start.image
      requires checkpoint == last && iFileINode == last.iFileINode && checkpointSector == RingBase(g) + newest
      modifies `live, `tail, `recoveredWithPartialSegment
      ensures Valid() && State() == start && last.lastSegmentWritten in image
      ensures recoveredWithPartialSegment <==> tail == image[last.lastSegmentWritten]
    {
      hide LogInv, OnFlash, RingOk, SegmentOn, RecoveredTail, UsageBytes, StoredTable, DecodeSegment, Sized, RingBase;
      hide Flash.Bytes, Flash.Valid, Geometry.Ok, Geometry.SegmentBytes, Geometry.SegmentSectors, Geometry.BlockBytes;
      hide Log.Valid, Log.RingKept, RingFilled, AllClear, NthSector;
      GeometryFacts(g);
      ImageShape(g, start, checkpoint.lastSegmentWritten);
      UsageRoundTrip(g, start.live);
      assert States();
      hide Log.States;
      var recovered := ReadSegment(checkpoint.lastSegmentWritten);
      live := ReadUsageTable();
      SettleTail(recovered);
      InitDone(start);
    }

    lemma InitDone(start: LogState)
      requires FlashOk() && cache.Valid() && cache.queue == [] && LogInv(g, start)
      requires |live| == g.flashSize && held == start.held && image == start.image && live == start.live && tail == start.tail && start.cache == []
      requires OnFlash(g, image, flash.Bytes()) && RingKept() && Durable() && States()
      ensures Valid() && State() == start
    {
      hide LogInv, OnFlash, Geometry.Ok, Geometry.SegmentBytes, Geometry.SegmentSectors, Geometry.BlockBytes,
           Flash.Bytes;
      hide Log.RingKept, Log.States, Flash.Valid, Sized;
    }

    method SettleTail(recovered: Segment)
      requires g.Ok() && |live| == g.flashSize && |recovered.inums| == g.segmentSize
      modifies `tail, `recoveredWithPartialSegment
      ensures tail == RecoveredTail(g, recovered, live)
      ensures recoveredWithPartialSegment <==> old(recoveredWithPartialSegment) || tail == recovered
    {
      hide Build, WellFormed;
      GeometryFacts(g);
      var clean := GetCleanSegment();
      if recovered.inums[g.segmentSize - 1] != NO_INUM {
        tail := Build(g, clean);
      } else {
        tail := recovered;
        recoveredWithPartialSegment := true;
      }
    }

    /** Every sector of the region is looked at; the valid one with the greatest time wins. */
    method RecoverCheckpoint()
      requires FlashOk() && checkpoint.time == 0
      requires RingOk(SegmentOn(g, flash.Bytes(), g.checkpointSegment), lastIndex, lastCheckpoint)
      modifies this`checkpoint, this`checkpointSector
      ensures checkpoint == lastCheckpoint && checkpointSector == RingBase(g) + lastIndex
      ensures lastIndex < g.SegmentSectors()
    {
      hide Flash.Bytes, Geometry.Ok, Geometry.SegmentBytes, Geometry.SegmentSectors, Geometry.BlockBytes, Chunk;
      hide SegmentOn, SectorOf, DecodeCheckpoint, RingOk, Sized;
      GeometryFacts(g);
      RingNewest(SegmentOn(g, flash.Bytes(), g.checkpointSegment), lastIndex, lastCheckpoint);
      ghost var region := SegmentOn(g, flash.Bytes(), g.checkpointSegment);
      var base := g.checkpointSegment * g.SegmentSectors();
      var k := 0;
      while k < g.SegmentSectors()
        invariant 0 <= k <= g.SegmentSectors()
        invariant k <= lastIndex ==> checkpoint.time < lastCheckpoint.time
        invariant k > lastIndex ==> checkpoint == lastCheckpoint && checkpointSector == base + lastIndex
      {
        var curr := ReadCheckpoint(base + k, k);
        RingEntry(region, lastIndex, lastCheckpoint, k);
        if curr.isValid && checkpoint.time < curr.time {
          checkpoint := curr;
          checkpointSector := base + k;
        }
        k := k + 1;
      }
    }

    /** The record in the k-th sector of the region. */
    method ReadCheckpoint(sector: nat, ghost k: nat) returns (c: Checkpoint)
      requires FlashOk() && g.checkpointSegment < g.flashSize && k < g.SegmentSectors() && sector == RingBase(g) + k
      ensures (k + 1) * SECTOR_SIZE <= g.SegmentBytes()
      ensures c == DecodeCheckpoint(SectorOf(SegmentOn(g, flash.Bytes(), g.checkpointSegment), k))
    {
      hide Flash.Bytes, Geometry.Ok, Geometry.SegmentBytes, Geometry.SegmentSectors, SegmentOn, SectorOf, DecodeCheckpoint,
           Sized, RingBase;
      RegionSector(g, flash.Bytes(), k);
      var rc, buffer := flash.Read(sector, CHECKPOINT_SIZE_IN_SECTORS);
      assert rc == 0;
      c := DecodeCheckpoint(buffer);
    }

    /** readSegment into a fresh segment. */
    method ReadSegment(s: word) returns (segment: Segment)
      requires FlashOk() && s < g.flashSize
      ensures segment == DecodeSegment(g, SegmentOn(g, flash.Bytes(), s))
      ensures OnFlash(g, image, flash.Bytes()) && s in image ==> segment == image[s]
    {
      hide Flash.Bytes, Geometry.Ok, Geometry.SegmentBytes, Geometry.SegmentSectors, Geometry.BlockBytes, Chunk;
      hide EncodeSegment, DecodeSegment, SegmentOn, WellFormed;
      SegmentSlice(g, flash.Bytes(), s);
      var rc, buffer := flash.Read(s * g.SegmentSectors(), g.SegmentSectors());
      assert rc == 0;
      segment := DecodeSegment(g, buffer);
      if OnFlash(g, image, flash.Bytes()) && s in image {
        SegmentRoundTrip(g, image[s]);
      }
    }

    method ReadUsageTable() returns (table: seq<word>)
      requires FlashOk()
      ensures table == StoredTable(g, SegmentOn(g, flash.Bytes(), g.usageSegment))
    {
      hide Flash.Bytes, Geometry.Ok, Geometry.SegmentBytes, Geometry.SegmentSectors, Geometry.BlockBytes, Chunk;
      hide StoredTable, SegmentOn;
      GeometryFacts(g);
      SegmentSlice(g, flash.Bytes(), g.usageSegment);
      var rc, buffer := flash.Read(g.usageSegment * g.SegmentSectors(), g.SegmentSectors());
      assert rc == 0;
      table := StoredTable(g, buffer);
    }

    method GetCleanSegment() returns (n: word)
      requires g.Ok() && |live| == g.flashSize
      ensures n == FirstClean(g, live, g.FirstSegment())
    {
      var s := g.FirstSegment();
      while s < g.flashSize
        invariant g.FirstSegment() <= s <= g.flashSize
        invariant FirstClean(g, live, g.FirstSegment()) == FirstClean(g, live, s)
      {
        if live[s] == 0 {
          GeometryFacts(g);
          return s;
        }
        s := s + 1;
      }
      return FLASH_FULL;
    }

    // ---- Reading -----------------------------------------------------------------------------

    /** The segment getSegment hands out: cache first, then tail, then flash. */
    ghost function Source(s: word): Segment
      requires s == tail.number || s in image
      reads `tail, `image, cache
    {
      if s in image && (Cached(cache.queue, s) || s != tail.number) then image[s] else tail
    }

    method GetSegment(s: word) returns (segment: Segment)
      requires Ready() && s < g.flashSize && (s == tail.number || s in image)
      modifies cache
      ensures Ready() && State() == old(State()).(cache := cache.queue)
      ensures TailCached() ==> old(TailCached())
      ensures segment == old(Source(s)) && WellFormed(g, segment)
      ensures Numbers(cache.queue) == AfterLookup(old(cache.queue), cache.size, s, tail.number)
      ensures forall a :: a in held && a.seg == s && !old(TailCached()) ==> Stores(g, segment, a.slot, held[a])
    {
      hide LogInv, WellFormed, Log.Structure, Stores, Geometry.Ok, Geometry.BlockBytes;
      SourceStores(g, State(), s);
      var found := cache.ContainsEntry(s);
      if found {
        segment := HitSegment(s);
      } else if tail.number == s {
        segment := tail;
      } else {
        segment := LoadSegment(s);
      }
    }

    /** getSegment's hit. */
    method HitSegment(s: word) returns (segment: Segment)
      requires Ready() && Cached(cache.queue, s)
      modifies cache
      ensures Ready() && State() == old(State()).(cache := cache.queue)
      ensures TailCached() ==> old(TailCached())
      ensures s in image && segment == image[s]
      ensures Numbers(cache.queue) == LruStep(old(Numbers(cache.queue)), cache.size, Access(s))
    {
      hide LogInv, OnFlash, RingOk, SegmentOn, DecodeSegment, EncodeSegment, Sized, RingBase, Flash.Bytes, Flash.Valid;
      hide Geometry.Ok, Geometry.SegmentBytes, Geometry.SegmentSectors, Geometry.BlockBytes, Log.RingKept;
      CachedImages(g, State());
      var hit;
      hit, segment := cache.GetEntry(s);
      CachedMembers(old(cache.queue), cache.queue, tail.number);
      RequeueKeeps(g, old(State()), cache.queue);
    }

    /** getSegment's miss: read the segment from flash and cache it. */
    method LoadSegment(s: word) returns (segment: Segment)
      requires Ready() && s < g.flashSize && s in image && s != tail.number && !Cached(cache.queue, s)
      modifies cache
      ensures Ready() && State() == old(State()).(cache := cache.queue)
      ensures TailCached() ==> old(TailCached())
      ensures segment == image[s]
      ensures Numbers(cache.queue) == LruStep(old(Numbers(cache.queue)), cache.size, Access(s))
    {
      hide LogInv, OnFlash, RingOk, SegmentOn, DecodeSegment, EncodeSegment, Sized, RingBase, Flash.Bytes, Flash.Valid;
      hide Geometry.Ok, Geometry.SegmentBytes, Geometry.SegmentSectors, Geometry.BlockBytes, Log.RingKept;
      CachedImages(g, State());
      segment := ReadSegment(s);
      var added := cache.PutEntry(segment);
      PushedMembers(old(cache.queue), cache.size, segment);
      RequeueKeeps(g, old(State()), cache.queue);
    }

    /** Log_Read. An address off the flash fails, a dead slot aborts, anything else yields the slot's bytes. */
    method Read(a: Addr) returns (r: Outcome, block: seq<byte>)
      requires Ready() && a.slot >= 1
      requires a.seg < g.flashSize && a.slot < g.segmentSize ==> a.seg == tail.number || a.seg in image
      modifies cache
      ensures Ready() && State() == old(State()).(cache := cache.queue)
      ensures TailCached() ==> old(TailCached())
      ensures r != Stale && (r == Failed <==> a.seg >= g.flashSize || a.slot >= g.segmentSize)
      ensures r != Failed ==> (r == Thrown <==> Dead(old(Source(a.seg)), a.slot))
      ensures Numbers(cache.queue) == if r == Failed then old(Numbers(cache.queue)) else AfterLookup(old(cache.queue), cache.size, a.seg, tail.number)
      ensures r == Done ==> Fetched(g, old(Source(a.seg)), a.slot, block)
      ensures old(Valid()) && a in held ==> Valid() && r == Done && block == held[a].data
    {
      hide LogInv, Log.Structure, Chunk, Geometry.Ok, Geometry.BlockBytes, Log.Source;
      HeldInRange(g, State());
      block := [];
      if a.seg >= g.flashSize || a.slot >= g.segmentSize {
        return Failed, block;
      }
      var segment := GetSegment(a.seg);
      if segment.inums[a.slot] == NO_INUM {
        return Thrown, block;
      }
      block := BlockAt(g, segment, a.slot);
      return Done, block;
    }

    // ---- Freeing -----------------------------------------------------------------------------

    /** Log_Free: a tail slot becomes free at once, a sealed slot only lowers its segment's live count. */
    method Free(a: Addr)
      requires Ready() && (a.seg == UINT_MAX || a in held)
      modifies `tail, `live, `held
      ensures Ready() && TailCached() == old(TailCached())
      ensures a.seg == UINT_MAX ==> State() == old(State())
      ensures a in old(held) ==> a.seg < |old(live)| && a.slot < |old(tail.inums)| && a.slot < |old(tail.fileBlocks)|
                                 && State() == AfterFree(g, old(State()), a)
      ensures Ends(Done, false, 0, old(Stock()), Stock(), Jammed())
    {
      hide FreeSlots, Capacity, Log.OnDisk, LogInv, OnFlash, RingOk, SegmentOn, Sized, RingBase, Flash.Bytes, Flash.Valid;
      hide Geometry.Ok, Geometry.SegmentBytes, Geometry.SegmentSectors, Geometry.BlockBytes, Log.RingKept, Log.States;
      FreeReady(g, State(), a);
      if a.seg == tail.number {
        tail := Cleared(tail, a.slot);
      }
      if a.seg != UINT_MAX {
        live := live[a.seg := Wrap(live[a.seg] - g.BlockBytes())];
        held := held - {a};
      }
    }

    // ---- Writing the reserved segments -------------------------------------------------------

    /** WriteSegmentUsageTable: whatever becomes of the erase and the write, only the table's segment is touched. */
    method WriteUsageTable() returns (rc: nat)
      requires FlashOk() && |live| == g.flashSize && checkpoint.usageSegment == g.usageSegment
      modifies flash, flash.data, flash.full, flash.wear
      ensures FlashOk()
      ensures SameOutside(g, old(flash.Bytes()), flash.Bytes(), g.usageSegment)
      ensures rc == 0 ==> SegmentOn(g, flash.Bytes(), g.usageSegment) == UsageBytes(g, live)
      ensures old(CanErase(g.usageSegment)) ==> rc == 0
      ensures rc != 0 ==> !CanErase(g.usageSegment)
      ensures WearOutside(g, old(flash.wear[..]), flash.wear[..], g.usageSegment)
      ensures StatesOutside(g, old(flash.full[..]), flash.full[..], g.usageSegment)
      ensures WornBy(1, old(flash.wear[..]), flash.wear[..])
    {
      hide UsageBytes, SegmentOn, Flash.Bytes, Sized, Geometry.Ok, Geometry.SegmentBytes, Geometry.SegmentSectors,
           Geometry.BlockBytes, InSegment;
      hide FullAt, Log.SegmentEmpty, Log.CanErase, WornBy, BlockIn, WearOutside;
      GeometryFacts(g);
      var erased := EraseBlocksOf(checkpoint.usageSegment);
      var buffer := UsageBytes(g, live);
      rc := WriteSectors(checkpoint.usageSegment * g.SegmentSectors(), buffer, g.usageSegment);
    }

    /** Every sector of segment s is EMPTY. */
    ghost predicate SegmentEmpty(s: nat)
      reads flash.full
    {
      Clear(g, flash.full[..], s, 0)
    }

    /** Flash_Write of one whole segment. */
    method WriteSectors(sector: nat, buffer: seq<byte>, ghost s: nat) returns (rc: nat)
      requires FlashOk() && s < g.flashSize && sector == s * g.SegmentSectors() && |buffer| == g.SegmentBytes()
      modifies flash, flash.data, flash.full
      ensures FlashOk()
      ensures SameOutside(g, old(flash.Bytes()), flash.Bytes(), s)
      ensures rc == 0 ==> SegmentOn(g, flash.Bytes(), s) == buffer
      ensures rc == 0 <==> old(SegmentEmpty(s))
      ensures rc != 0 ==> flash.full[..] == old(flash.full[..])
      ensures StatesOutside(g, old(flash.full[..]), flash.full[..], s)
    {
      hide SegmentOn, Flash.Bytes, Geometry.Ok, Geometry.SegmentBytes, Geometry.SegmentSectors, Geometry.BlockBytes;
      GeometryFacts(g);
      SegmentOffsets(g, s);
      WriteWhole(g, flash.Bytes(), buffer, s);
      hide Clear, StatesOutside, FullAt;
      ghost var f := flash.full[..];
      rc := flash.Write(sector, g.SegmentSectors(), buffer);
      WholeStates(g, f, flash.full[..], s, rc);
    }

    // ---- Writing -----------------------------------------------------------------------------

    /** The state Log_Write leaves before any seal: the block sits in the first free tail slot. */
    ghost function AfterPlace(inum: i32, fileBlock: i32, role: Role, buffer: seq<byte>): (st: LogState)
      requires Ready() && inum >= 0 && |buffer| == g.BlockBytes()
      reads this, Repr, cache, flash, flash.Repr
      ensures st.image == image && st.cache == cache.queue && st.live == live && st.tail.number == tail.number
      ensures WellFormed(g, st.tail)
    {
      FreeSlot(g, State());
      var b := FirstFree(tail.inums, 1);
      LogState(held[Addr(tail.number, b) := Slot(inum, fileBlock, role, buffer)], image,
               Placed(g, tail, b, inum, fileBlock, buffer), cache.queue, live)
    }

    /**
     * Log_Write. A full flash fails and changes nothing; otherwise the block goes to the first free tail slot, and the tail
     * is sealed and replaced exactly when that filled its last slot. Only the seal of a tail that is still cached aborts.
     */
    method Write(inum: word, fileBlock: word, ghost role: Role, buffer: seq<byte>) returns (r: Outcome, a: Addr)
      requires Ready() && |buffer| == g.BlockBytes() && inum < 0x8000_0000
      modifies this, cache, flash, flash.data, flash.full, flash.wear
      ensures r != Stale && iFileINode == old(iFileINode)
      ensures failures == old(failures) + if r == Done then 0 else 1
      ensures old(tail.number) == FLASH_FULL ==> r == Failed && State() == old(State())
      ensures r == Done <==> old(CanWrite()) && !(old(FreeSlots(tail)) == 1 && old(TailCached()))
      ensures r == Thrown <==> old(CanWrite()) && old(FreeSlots(tail)) == 1 && old(TailCached())
      ensures r == Done ==> a == Addr(old(tail.number), FirstFree(old(tail.inums), 1)) && a !in old(held)
      ensures r == Done ==> g.InLog(a.seg) && 1 <= a.slot < g.segmentSize
      ensures r == Done ==> held == old(held)[a := Slot(Signed(inum), Signed(fileBlock), role, buffer)]
      ensures r == Done ==> Ready() && (!old(TailCached()) ==> OffTailKept(held, old(tail.number), tail.number))
      ensures r == Done ==> var st := old(AfterPlace(Signed(inum), Signed(fileBlock), role, buffer));
                if Full(g, st.tail) then
                  && SealedFrom(g, st, State(), cache.size) && checkpoint.iFileINode == iFileINode
                  && !recoveredWithPartialSegment && unwritten == old(unwritten) - {old(tail.number)}
                else
                  && State() == st && OnDisk() == old(OnDisk()) && flash.full[..] == old(flash.full[..]) && flash.wear[..] == old(flash.wear[..])
                  && recoveredWithPartialSegment == old(recoveredWithPartialSegment) && unwritten == old(unwritten)
      ensures checkpoints <= old(checkpoints) + 1
      ensures r == Done && tail.number != old(tail.number) && old(Due()) ==>
                checkpoints == old(checkpoints) + 1 && lastCheckpoint.lastSegmentWritten == Wrap(tail.number - 1)
      ensures r == Done && tail.number != old(tail.number) && old(Saving()) && monotone ==>
                (Recoverable(g, OnDisk(), State().(cache := []), iFileINode) <==> BeforeTailFull())
      ensures old(tail.number) != FLASH_FULL ==>
                (Full(g, old(AfterPlace(Signed(inum), Signed(fileBlock), role, buffer)).tail) <==> old(FreeSlots(tail)) == 1)
      ensures r == Done ==> Stock().capacity == old(Stock().capacity) - 1
      ensures Ends(r, false, 1, old(Stock()), Stock(), Jammed()) && WornBy(SEAL_WEAR, old(flash.wear[..]), flash.wear[..])
      ensures old(FreeSlots(tail)) != 1 ==> Pacing() == old(Pacing())
      ensures old(FreeSlots(tail)) == 1 && r == Done ==> SealPaced(g, checkpointInterval, old(Pacing()), Pacing())
    {
      hide Recoverable, Log.OnDisk, FreeSlots, WornBy, SealPaced, Capacity, Log.Sealable, Log.Jammed, Log.Saving, Log.BeforeTailFull;
      hide Consistent, LogInv, Stores, SegmentOn, Build, Flash.Bytes, Flash.Valid, Geometry.Ok, Geometry.SegmentBytes,
           Geometry.SegmentSectors, Geometry.BlockBytes, RingOk, OnFlash, RingBase, Sized;
      hide Log.RingKept, Placed, Full, WellFormed, SealedFrom, FirstFree, Log.AfterPlace, Log.Structure, Log.CanErase;
      hide Log.SegmentEmpty, Log.States;
      a := EMPTY;
      WornNone(SEAL_WEAR, flash.wear[..]);
      TailFree(g, State());
      TailCapacity(g, tail, tail, live);
      if tail.number >= g.flashSize {
        failures := failures + 1;
        return Failed, a;
      }
      FreeSlot(g, State());
      var emptyBlock := FindEmpty();
      a := Addr(tail.number, emptyBlock);
      ghost var st := AfterPlace(Signed(inum), Signed(fileBlock), role, buffer);
      PlaceBlock(emptyBlock, Signed(inum), Signed(fileBlock), role, buffer);
      r := Done;
      if emptyBlock == g.segmentSize - 1 {
        r := SealFilled();
      }
    }

    /** Tag and copy a block into a tail slot. */
    method PlaceBlock(b: word, inum: i32, fileBlock: i32, ghost role: Role, buffer: seq<byte>)
      requires Ready() && g.InLog(tail.number) && inum >= 0 && |buffer| == g.BlockBytes() && b == FirstFree(tail.inums, 1)
      modifies `tail, `held
      ensures State() == old(AfterPlace(inum, fileBlock, role, buffer))
      ensures Structure() && Consistent(g, State()) && Durable() && States() && TailCached() == old(TailCached())
      ensures Addr(old(tail.number), b) !in old(held) && tail.number == old(tail.number)
      ensures 1 <= b < g.segmentSize && held == old(held)[Addr(old(tail.number), b) := Slot(inum, fileBlock, role, buffer)]
      ensures Full(g, tail) <==> b == g.segmentSize - 1
      ensures b < g.segmentSize - 1 ==> Ready()
      ensures FreeSlots(tail) == old(FreeSlots(tail)) - 1 && (Full(g, tail) <==> old(FreeSlots(tail)) == 1)
      ensures Stock().capacity == old(Stock().capacity) - 1 && Sealable() == old(Sealable())
    {
      hide Consistent, LogInv, Stores, SegmentOn, Build, Flash.Bytes, Flash.Valid, Geometry.Ok, Geometry.SegmentBytes,
           Geometry.SegmentSectors, Geometry.BlockBytes, RingOk, OnFlash, RingBase, Sized;
      hide Log.RingKept, Log.States, Placed, Full, WellFormed, FirstFree, FreeSlots, Capacity, Log.SegmentEmpty, Log.CanErase;
      ghost var st := State();
      PlaceReady(g, st, b, Slot(inum, fileBlock, role, buffer));
      held := held[Addr(tail.number, b) := Slot(inum, fileBlock, role, buffer)];
      tail := Placed(g, tail, b, inum, fileBlock, buffer);
      TailCapacity(g, st.tail, tail, live);
    }

    method FindEmpty() returns (b: nat)
      requires g.Ok() && |tail.inums| == g.segmentSize && FirstFree(tail.inums, 1) < g.segmentSize
      ensures b == FirstFree(tail.inums, 1) && b < g.segmentSize
    {
      b := 1;
      while b < g.segmentSize
        invariant 1 <= b <= g.segmentSize
        invariant FirstFree(tail.inums, 1) == FirstFree(tail.inums, b)
      {
        if tail.inums[b] == NO_INUM {
          return;
        }
        b := b + 1;
      }
      assert false;
    }

    /** The inode of the table file lives in memory and reaches flash inside checkpoints. */
    method UpdateIFileINode(n: INode)
      requires Valid() && PointersHeld(held, n)
      modifies `iFileINode
      ensures Valid() && iFileINode == n
    {
      HeldSettled(g, State(), n);
      hide LogInv, OnFlash, RingOk, SegmentOn, Sized, RingBase, Flash.Bytes, Flash.Valid, Geometry.Ok, Log.RingKept, Log.States;
      iFileINode := n;
    }

    /**
     * In every state a run reaches, also in the middle of a write to the table file: each pointer of the inode that the
     * latest seal put aside for the checkpoint names an occupied slot of a segment whose bytes are on flash. If the address
     * is still held, the slot holds just that block; if it was given up, first fit may have put another one there.
     */
    lemma CheckpointedPointers(a: Addr)
      requires Valid() && a in checkpoint.iFileINode.direct + [checkpoint.iFileINode.indirect] && a != EMPTY
      ensures a.seg in image && a.seg < g.flashSize && a.slot < g.segmentSize && WellFormed(g, image[a.seg])
      ensures image[a.seg].inums[a.slot] != NO_INUM
      ensures SegmentOn(g, flash.Bytes(), a.seg) == EncodeSegment(g, image[a.seg])
      ensures a in held && a.seg != tail.number ==> OnFlashAt(a)
    {
      hide LogInv, Flash.Bytes, Flash.Valid, Geometry.Ok, Geometry.BlockBytes, Sized, EncodeSegment, SegmentOn,
           Log.RingKept, Log.OnFlashAt;
      ImageShape(g, State(), a.seg);
      if a in held && a.seg != tail.number {
        HeldOnFlash(a);
      }
    }

    /** The bytes on flash at this address are those of the segment that holds the block, tag and all. */
    ghost predicate OnFlashAt(a: Addr)
      reads this, flash, flash.data
    {
      && a in held && a.seg in image && g.Ok() && a.seg < g.flashSize && Sized(g, flash.Bytes()) && Stores(g, image[a.seg], a.slot, held[a])
      && SegmentOn(g, flash.Bytes(), a.seg) == EncodeSegment(g, image[a.seg])
    }

    lemma HeldOnFlash(a: Addr)
      requires Valid() && a in held && a.seg != tail.number
      ensures OnFlashAt(a)
    {
      hide LogInv, Flash.Bytes, Flash.Valid, Geometry.Ok, Geometry.BlockBytes, Sized, EncodeSegment, SegmentOn, Log.RingKept,
           BlockAt;
      SourceStores(g, State(), a.seg);
    }

    // ---- Sealing -----------------------------------------------------------------------------

    ghost predicate ImagesInLog()
      requires g.Ok()
      reads `image
    {
      forall s :: s in image ==> g.InLog(s)
    }

    /** writeSegment on a full tail: its bytes go to flash, its live count is recounted, the table is saved. */
    method WriteTail() returns (rc: nat)
      requires FlashOk() && RingKept() && |live| == g.flashSize && ImagesInLog() && OnFlash(g, image, flash.Bytes())
      requires TailShape(g, tail) && g.InLog(tail.number) && Full(g, tail) && States()
      modifies `checkpoint, `writesSinceLastCheckpoint, `live, `unwritten, flash, flash.data, flash.full, flash.wear
      ensures FlashOk() && RingKept()
      ensures (g.segmentSize - 1) * g.BlockBytes() < 0x1_0000_0000
      ensures live == old(live)[tail.number := (g.segmentSize - 1) * g.BlockBytes()]
      ensures checkpoint == old(checkpoint).(iFileINode := iFileINode)
      ensures writesSinceLastCheckpoint == old(writesSinceLastCheckpoint) + 1
      ensures rc == 0 ==> OnFlash(g, image[tail.number := tail], flash.Bytes())
      ensures rc == 0 <==> old(SegmentEmpty(tail.number))
      ensures rc != 0 ==> !SegmentEmpty(tail.number)
      ensures States() && unwritten == old(unwritten) - {tail.number}
      ensures old(CanErase(g.usageSegment)) ==> TableSaved()
      ensures WornBy(1, old(flash.wear[..]), flash.wear[..])
    {
      hide WornBy, SegmentOn, EncodeSegment, WellFormed, Flash.Bytes, Flash.Valid, Geometry.Ok, Geometry.SegmentBytes,
           Geometry.SegmentSectors, Geometry.BlockBytes, InSegment, RingOk, OnFlash, RingBase, Sized;
      hide Build, StartSector, Log.CanErase, Clear, StatesOutside, RingFilled, AllClear, NthSector;
      GeometryFacts(g);
      TailStart(g, tail);
      ghost var d0, f0 := flash.Bytes(), flash.full[..];
      rc := WriteSectors(tail.startSector, EncodeSegment(g, tail), tail.number);
      ghost var d1, f1 := flash.Bytes(), flash.full[..];
      checkpoint := checkpoint.(iFileINode := iFileINode);
      writesSinceLastCheckpoint := writesSinceLastCheckpoint + 1;
      RecountTail();
      var saved := WriteUsageTable();
      ReservedKept(g, d0, d1, flash.Bytes(), tail.number);
      SealStates(g, f0, f1, flash.full[..], ringStart, checkpoints, unwritten, tail.number);
      unwritten := unwritten - {tail.number};
      if rc == 0 {
        SealedOnFlash(g, image, d0, d1, flash.Bytes(), tail);
      } else {
        StaysFull(g, f0, flash.full[..], tail.number);
      }
    }

    /** The recount loop at the end of writeSegment. */
    method RecountTail()
      requires g.Ok() && WellFormed(g, tail) && Full(g, tail) && |live| == g.flashSize && g.InLog(tail.number)
      modifies `live
      ensures (g.segmentSize - 1) * g.BlockBytes() < 0x1_0000_0000
      ensures live == old(live)[tail.number := (g.segmentSize - 1) * g.BlockBytes()]
    {
      GeometryFacts(g);
      assert Times(g.segmentSize - 1, g.BlockBytes()) == (g.segmentSize - 1) * g.BlockBytes();
      SumBlocks();
    }

    method SumBlocks()
      requires g.Ok() && |tail.inums| == g.segmentSize && |live| == g.flashSize && g.InLog(tail.number)
      requires forall b :: 1 <= b < g.segmentSize ==> tail.inums[b] != NO_INUM
      requires Times(g.segmentSize - 1, g.BlockBytes()) < 0x1_0000_0000
      modifies `live
      ensures live == old(live)[tail.number := Times(g.segmentSize - 1, g.BlockBytes())]
    {
      hide Geometry.Ok, Geometry.BlockBytes, Times, Wrap;
      live := live[tail.number := 0];
      TimesNone(g.BlockBytes());
      GeometryFacts(g);
      var s := 1;
      while s < g.segmentSize
        invariant 1 <= s <= g.segmentSize && |live| == g.flashSize
        invariant Times(s - 1, g.BlockBytes()) < 0x1_0000_0000
        invariant live == old(live)[tail.number := Times(s - 1, g.BlockBytes())]
      {
        OneBlockMore(s, g.segmentSize, g.BlockBytes());
        if tail.inums[s] != NO_INUM {
          WrapSmall(live[tail.number] + g.BlockBytes());
          live := live[tail.number := Wrap(live[tail.number] + g.BlockBytes())];
        }
        s := s + 1;
      }
    }

    /** The step after a seal: cache the sealed segment, start an empty tail in the first clean segment. */
    method NextTail() returns (added: bool)
      requires FlashOk() && RingKept() && |live| == g.flashSize && cache.Valid()
      requires checkpoint.iFileINode == iFileINode && PointersSettled(image, iFileINode, g.segmentSize, {tail.number})
      requires Consistent(g, State()) && Full(g, tail) && g.InLog(tail.number) && States()
      requires (g.segmentSize - 1) * g.BlockBytes() < 0x1_0000_0000
      requires OnFlash(g, image[tail.number := tail], flash.Bytes())
      modifies `tail, `image, cache
      requires live[tail.number] == (g.segmentSize - 1) * g.BlockBytes()
      ensures added == !old(TailCached())
      ensures !added ==> tail == old(tail) && image == old(image) && TailCached()
      ensures added ==> Ready() && SealedFrom(g, old(State()), State(), cache.size)
    {
      hide Consistent, LogInv, Stores, SegmentOn, Build, Flash.Bytes, Flash.Valid, Geometry.Ok, Geometry.SegmentBytes,
           Geometry.SegmentSectors, Geometry.BlockBytes, RingOk, OnFlash, RingBase, Sized;
      hide Log.RingKept, Log.States, PointersSettled, SealedFrom, Full;
      ghost var st := State();
      ConsistentParts(g, st);
      added := cache.PutEntry(tail);
      if !added {
        return;
      }
      var clean := GetCleanSegment();
      NextReady(g, st, cache.size, iFileINode, clean);
      image := image[tail.number := tail];
      tail := Build(g, clean);
    }

    /** The end of Log_Write when the last slot was taken; putEntry aborts if the cache has the tail's number already. */
    method Seal() returns (r: Outcome)
      requires Structure() && Consistent(g, State()) && Durable() && States() && Full(g, tail) && g.InLog(tail.number)
      modifies this, cache, flash, flash.data, flash.full, flash.wear
      ensures r != Stale && held == old(held) && iFileINode == old(iFileINode) && failures == old(failures)
      ensures r == Done <==> old(Sealable()) && !old(TailCached())
      ensures r == Thrown <==> old(Sealable()) && old(TailCached())
      ensures r == Done ==> Ready() && SealedFrom(g, old(State()), State(), cache.size)
      ensures r == Done ==> checkpoint.iFileINode == iFileINode && !recoveredWithPartialSegment
      ensures r == Done ==> unwritten == old(unwritten) - {old(tail.number)}
      ensures checkpoints <= old(checkpoints) + 1
      ensures r == Done && old(Due()) ==> checkpoints == old(checkpoints) + 1 && lastCheckpoint.lastSegmentWritten == Wrap(tail.number - 1)
      ensures r == Done && old(Saving()) && monotone ==>
                (Recoverable(g, OnDisk(), State().(cache := []), iFileINode) <==> BeforeTailFull())
      ensures WornBy(SEAL_WEAR, old(flash.wear[..]), flash.wear[..])
      ensures r == Done ==> SealPaced(g, checkpointInterval, old(Pacing()), Pacing())
      ensures r != Done ==> tail == old(tail) && image == old(image) && if r == Thrown then TailCached() else !Sealable()
    {
      hide Log.TableSaved, Recoverable, Log.OnDisk, Log.CanErase, Consistent, LogInv, Log.Structure, Log.States, Log.Durable, Full, SealedFrom,
           Log.Sealable, Geometry.Ok, Geometry.BlockBytes, Geometry.SegmentSectors, RingBase, WornBy;
      ghost var w0 := flash.wear[..];
      r := SealTail();
      ghost var w1 := flash.wear[..];
      WornMore(w0, w1, w1);
      if r != Done {
        return;
      }
      CheckpointIfDue();
      WornMore(w0, w1, flash.wear[..]);
      if old(Saving()) && monotone {
        SealHeld(old(State()));
      }
    }

    /** The seal of a tail just filled, and what it leaves to write to. */
    method SealFilled() returns (r: Outcome)
      requires g.Ok() && Structure() && Consistent(g, State()) && Durable() && States() && Full(g, tail) && g.InLog(tail.number)
      requires tail.number != FLASH_FULL && FreeSlots(tail) == 0
      modifies this, cache, flash, flash.data, flash.full, flash.wear
      ensures r != Stale && held == old(held) && iFileINode == old(iFileINode) && failures == old(failures) + if r == Done then 0 else 1
      ensures r == Done <==> old(Sealable()) && !old(TailCached())
      ensures r == Thrown <==> old(Sealable()) && old(TailCached())
      ensures r == Done ==> Ready() && SealedFrom(g, old(State()), State(), cache.size)
      ensures r == Done ==> checkpoint.iFileINode == iFileINode && !recoveredWithPartialSegment
      ensures r == Done ==> unwritten == old(unwritten) - {old(tail.number)}
      ensures checkpoints <= old(checkpoints) + 1
      ensures r == Done && old(Due()) ==> checkpoints == old(checkpoints) + 1 && lastCheckpoint.lastSegmentWritten == Wrap(tail.number - 1)
      ensures r == Done && old(Saving()) && monotone ==>
                (Recoverable(g, OnDisk(), State().(cache := []), iFileINode) <==> BeforeTailFull())
      ensures WornBy(SEAL_WEAR, old(flash.wear[..]), flash.wear[..])
      ensures r == Done ==> SealPaced(g, checkpointInterval, old(Pacing()), Pacing())
      ensures r == Done ==> tail.number != old(tail.number) && OffTailKept(held, old(tail.number), tail.number)
      ensures r == Done ==> Stock().capacity == old(Stock().capacity)
      ensures r != Done ==> Jammed()
    {
      hide Recoverable, Log.OnDisk, FreeSlots, WornBy, SealPaced, Capacity, Log.Saving, Log.BeforeTailFull, OffTailKept, Consistent, LogInv,
           Geometry.Ok, Geometry.BlockBytes, Geometry.SegmentSectors, Log.Structure, Log.States, Log.Durable, Full, WellFormed, SealedFrom,
           Log.Sealable, Log.Ready, Log.Due;
      r := Seal();
      if r == Done {
        SealedOffTail(g, old(State()), State(), cache.size);
        SealedCapacity(g, old(State()), State(), cache.size);
      } else {
        failures := failures + 1;
      }
    }

    lemma WornMore(w0: seq<nat>, w1: seq<nat>, w2: seq<nat>)
      requires WornBy(2, w0, w1) && (w2 == w1 || WornBy(1, w1, w2))
      ensures WornBy(SEAL_WEAR, w0, w2)
    {
    }

    /** The seal itself: segment and usage table to flash, the next clean segment for a tail. */
    method SealTail() returns (r: Outcome)
      requires Structure() && Consistent(g, State()) && Durable() && States() && Full(g, tail) && g.InLog(tail.number)
      modifies `recoveredWithPartialSegment, `checkpoint, `writesSinceLastCheckpoint, `live, `unwritten, `tail, `image
      modifies cache, flash, flash.data, flash.full, flash.wear
      ensures r != Stale && (r == Done <==> old(Sealable()) && !old(TailCached()))
      ensures r == Thrown <==> old(Sealable()) && old(TailCached())
      ensures r == Done ==> Ready() && SealedFrom(g, old(State()), State(), cache.size)
      ensures r == Done ==> checkpoint.iFileINode == iFileINode && !recoveredWithPartialSegment
      ensures r == Done ==> unwritten == old(unwritten) - {old(tail.number)}
      ensures r == Done ==> writesSinceLastCheckpoint == old(writesSinceLastCheckpoint) + 1
      ensures r == Done && old(CanErase(g.usageSegment)) ==> TableSaved()
      ensures WornBy(2, old(flash.wear[..]), flash.wear[..])
      ensures checkpoints == old(checkpoints) && checkpointSector == old(checkpointSector) && lastCheckpoint == old(lastCheckpoint)
      ensures r != Done ==> tail == old(tail) && image == old(image) && if r == Thrown then TailCached() else !Sealable()
    {
      hide Log.TableSaved, Log.CanErase, Consistent, LogInv, Stores, SegmentOn, Build, Flash.Bytes, Flash.Valid, Geometry.Ok,
           Geometry.SegmentBytes, Geometry.SegmentSectors, Geometry.BlockBytes, RingOk, OnFlash, RingBase, Sized;
      hide Log.RingKept, Log.States, PointersSettled, SealedFrom, Log.SegmentEmpty;
      GeometryFacts(g);
      ConsistentParts(g, State());
      var erased := EraseRecovered();
      if erased != 0 {
        return Failed;
      }
      ghost var st := State();
      var written := WriteTail();
      FullWithLive(g, st, (g.segmentSize - 1) * g.BlockBytes());
      if written != 0 {
        return Failed;
      }
      ghost var full := State();
      var added := NextTail();
      if !added {
        return Thrown;
      }
      SealedRecount(g, st, full.live[st.tail.number], State(), cache.size);
      return Done;
    }

    /** After a seal with table and checkpoint on flash, a restart finds this state exactly if the segment before the tail is full. */
    lemma SealHeld(st: LogState)
      requires Ready() && monotone && TableSaved() && lastCheckpoint == checkpoint && RingBase(g) + lastIndex == checkpointSector
      requires SealedFrom(g, st, State(), cache.size)
      requires checkpoint.iFileINode == iFileINode && lastCheckpoint.lastSegmentWritten == Wrap(tail.number - 1)
      ensures Recoverable(g, OnDisk(), State().(cache := []), iFileINode) <==> BeforeTailFull()
    {
      hide LogInv, OnFlash, RingOk, SegmentOn, UsageBytes, Sized, RingBase, Flash.Bytes, Flash.Valid, Geometry.Ok, Geometry.BlockBytes,
           Geometry.SegmentBytes, Geometry.SegmentSectors, RingFilled, AllClear, NthSector, PointersSettled, Build, Pushed;
      GeometryFacts(g);
      RequeueKeeps(g, State(), []);
      CachedImages(g, State());
      if Wrap(tail.number - 1) in image {
        ImageShape(g, State(), Wrap(tail.number - 1));
      }
    }

    method CheckpointIfDue()
      requires Ready()
      modifies `checkpoint, `checkpointSector, `writesSinceLastCheckpoint, `clock, `monotone, `lastIndex, `lastCheckpoint,
               `checkpoints
      modifies flash, flash.data, flash.full, flash.wear
      ensures Ready() && State() == old(State()) && checkpoint.iFileINode == old(checkpoint.iFileINode)
      ensures old(TableSaved()) ==> TableSaved()
      ensures checkpoints <= old(checkpoints) + 1
      ensures old(writesSinceLastCheckpoint) >= 1 ==>
                SealPaced(g, checkpointInterval, old(Pacing().(writes := writesSinceLastCheckpoint - 1)), Pacing())
      ensures old(writesSinceLastCheckpoint) < checkpointInterval ==>
                OnDisk() == old(OnDisk()) && checkpoint == old(checkpoint) && flash.wear[..] == old(flash.wear[..])
      ensures !recoveredWithPartialSegment && old(writesSinceLastCheckpoint) >= checkpointInterval && old(checkpoints) + 1 < g.SegmentSectors() ==>
                && checkpoints == old(checkpoints) + 1 && lastCheckpoint == checkpoint && RingBase(g) + lastIndex == checkpointSector
                && lastCheckpoint.lastSegmentWritten == Wrap(tail.number - 1)
      ensures WornBy(1, old(flash.wear[..]), flash.wear[..])
    {
      WornNone(1, flash.wear[..]);
      hide WornBy, Consistent, Stores, SegmentOn, Build, Flash.Bytes, Flash.Valid, Geometry.Ok, Geometry.SegmentBytes,
           Geometry.SegmentSectors, Geometry.BlockBytes, RingOk, OnFlash, RingBase, Sized;
      hide Log.RingKept, Log.States, LogInv, NextSector;
      ConsistentOf(g, State());
      ConsistentParts(g, State());
      if writesSinceLastCheckpoint >= checkpointInterval {
        var saved := CheckpointNow();
      }
    }

    /** The tail's sectors can be written: they are EMPTY, or left over from before a restart and fit to be erased. */
    ghost predicate Sealable()
      reads `recoveredWithPartialSegment, `tail, flash.full, flash.wear
    {
      if recoveredWithPartialSegment then CanErase(tail.number) else SegmentEmpty(tail.number)
    }

    /** A tail recovered from flash still has its old sectors to clear. */
    method EraseRecovered() returns (rc: nat)
      requires FlashOk() && g.InLog(tail.number) && States()
      modifies `recoveredWithPartialSegment, flash.full, flash.wear
      ensures FlashOk() && States()
      ensures rc == 0 ==> !recoveredWithPartialSegment
      ensures rc == 0 && SegmentEmpty(tail.number) <==> old(Sealable())
      ensures rc != 0 ==> !Sealable()
      ensures old(CanErase(g.usageSegment)) ==> CanErase(g.usageSegment)
      ensures WornBy(1, old(flash.wear[..]), flash.wear[..])
    {
      hide StatesOutside, RingFilled, AllClear, NthSector, Geometry.Ok, Geometry.SegmentSectors, Log.SegmentEmpty,
           Flash.Bytes, Flash.Valid, Log.Unworn, Sized, WearOutside;
      rc := 0;
      ghost var f, w := flash.full[..], flash.wear[..];
      TailElsewhere(g, tail.number);
      if recoveredWithPartialSegment {
        rc := EraseBlocksOf(tail.number);
        StillErasable(tail.number, g.usageSegment, w);
        EraseStates(g, f, flash.full[..], ringStart, checkpoints, unwritten, tail.number);
        if rc == 0 {
          recoveredWithPartialSegment := false;
        }
      }
    }

    /** Writing flows though these blocks and others in `going` are given up. */
    ghost predicate FlowsGiving(going: set<Addr>, gone: set<Addr>)
      reads `recoveredWithPartialSegment, `tail, `held, `unwritten, cache, flash.full, flash.wear
    {
      Flows(going) && gone <= going
    }

    /** These are gone. */
    ghost predicate FlowsWithout(going: set<Addr>, gone: set<Addr>)
      reads `recoveredWithPartialSegment, `tail, `held, `unwritten, cache, flash.full, flash.wear
    {
      Flows(going - gone)
    }

    /** Reading held blocks does not stop the flow. */
    lemma FlowsCached(queue: seq<Segment>, going: set<Addr>)
      requires FlowsAt(queue, going) && CachesHeld(held, queue, cache.queue)
      ensures Flows(going)
    {
      hide Log.Sealable, Open, CachesHeld;
      OpenCached(g, held, queue, cache.queue, unwritten, tail.number, going);
    }

    lemma GivingAt(going: set<Addr>, gone: set<Addr>)
      requires FlowsGiving(going, gone)
      ensures FlowsAt(cache.queue, going) && Covers(going, gone)
    {
    }

    lemma WithoutNone(going: set<Addr>, gone: set<Addr>)
      requires FlowsGiving(going, gone)
      ensures FlowsWithout(going, {}) && FlowsWithout(going, gone) && gone <= going
    {
      FlowsFewer(going, going - {});
      FlowsFewer(going, going - gone);
    }

    lemma WithoutIs(going: set<Addr>, gone: set<Addr>)
      ensures FlowsWithout(going, gone) == Flows(going - gone)
    {
    }

    lemma GivesCovered(going: set<Addr>, gone: set<Addr>)
      requires Flows(going) && Covers(going, gone)
      ensures FlowsGiving(going, gone)
    {
    }

    lemma GivesFewer(going: set<Addr>, fewer: set<Addr>)
      requires Flows(going) && fewer <= going
      ensures FlowsGiving(going, fewer)
    {
    }

    /** First these are given up, then those. */
    lemma WithoutFirst(going: set<Addr>, first: set<Addr>, second: set<Addr>)
      requires FlowsWithout(going, first) && second <= going && first !! second
      ensures FlowsGiving(going - first, second)
    {
    }

    lemma WithoutBoth(going: set<Addr>, first: set<Addr>, second: set<Addr>, all: set<Addr>)
      requires FlowsWithout(going - first, second) && first + second <= all
      ensures FlowsWithout(going, all)
    {
      FlowsFewer(going - first - second, going - all);
    }

    lemma WithoutMore(going: set<Addr>, gone: set<Addr>, more: set<Addr>)
      requires FlowsWithout(going, gone) && gone <= more
      ensures FlowsWithout(going, more)
    {
      FlowsFewer(going - gone, going - more);
    }

    ghost predicate SealableOn(s: Stored) {
      if s.partial then Unworn(s.wear, s.tail) else Clear(g, s.disk.full, s.tail, 0)
    }

    lemma SealableIs()
      ensures Sealable() == SealableOn(Stock().stored)
    {
    }

    lemma FlowsFewer(going: set<Addr>, fewer: set<Addr>)
      requires Flows(going) && fewer <= going
      ensures Flows(fewer)
    {
      OpenFewer(g, held, cache.queue, unwritten, tail.number, going, fewer);
    }

    lemma RoomInCache()
      requires Ready()
      ensures cache.size >= 1 && |cache.queue| <= cache.size
    {
      hide LogInv, Log.States, Log.Durable, Log.RingKept, Geometry.Ok;
    }

    /** A tail never written can be sealed. */
    lemma UnwrittenTail()
      requires Ready() && !recoveredWithPartialSegment && tail.number in unwritten
      ensures Sealable() && g.InLog(tail.number)
    {
      hide LogInv, Log.Structure, Log.Durable, Geometry.Ok;
    }

    lemma UnwrittenEmpty(s: word)
      requires States() && s in unwritten
      ensures g.InLog(s) && SegmentEmpty(s)
    {
    }

    // ---- Cleaning support --------------------------------------------------------------------

    /** EraseSegment: a segment gives up all its blocks at once; its bytes stay until it is written again. */
    method EraseSegment(s: word) returns (r: Outcome)
      requires Valid() && g.InLog(s) && s != tail.number
      modifies `live, `held, `unwritten, flash, flash.data, flash.full, flash.wear
      ensures Valid() && (r == Done || r == Failed)
      ensures unwritten == old(unwritten) + if old(CanErase(s)) then {s} else {}
      ensures !old(CanErase(s)) ==> r == Failed && State() == old(State())
      ensures old(CanErase(s)) ==>
                s < |old(live)| && State() == old(State()).(held := DroppedSegment(old(held), s), live := old(live)[s := 0])
      ensures old(CanErase(s)) && old(CanErase(g.usageSegment)) ==> r == Done
      ensures r == Failed ==> !CanErase(s) || !CanErase(g.usageSegment)
      ensures if old(CanErase(s)) then WornAt(g, old(flash.wear[..]), flash.wear[..], s, g.usageSegment)
              else WearOutside(g, old(flash.wear[..]), flash.wear[..], s)
    {
      hide Consistent, LogInv, Stores, SegmentOn, Build, Flash.Bytes, Flash.Valid, Geometry.Ok, Geometry.SegmentBytes,
           Geometry.SegmentSectors, Geometry.BlockBytes, RingOk, OnFlash, RingBase, Sized;
      hide DroppedSegment, Log.Unworn, WearOutside, StatesOutside, RingFilled, AllClear, NthSector, Clear, FewerFull, BlockIn;
      ErasedReady(g, State(), s);
      ghost var f, w := flash.full[..], flash.wear[..];
      var rc := EraseBlocksOf(s);
      EraseStates(g, f, flash.full[..], ringStart, checkpoints, unwritten, s);
      if rc != 0 {
        return Failed;
      }
      StillErasable(s, g.usageSegment, w);
      ghost var w1 := flash.wear[..];
      unwritten := unwritten + {s};
      live := live[s := 0];
      held := DroppedSegment(held, s);
      rc := SaveTable();
      WornSince(g, w, w1, flash.wear[..], s, g.usageSegment);
      return if rc == 0 then Done else Failed;
    }

    /** Saving the table disturbs nothing else on the flash. */
    method SaveTable() returns (rc: nat)
      requires FlashOk() && RingKept() && States() && |live| == g.flashSize && OnFlash(g, image, flash.Bytes()) && ImagesInLog()
      modifies flash, flash.data, flash.full, flash.wear
      ensures FlashOk() && RingKept() && States() && OnFlash(g, image, flash.Bytes())
      ensures old(CanErase(g.usageSegment)) ==> rc == 0
      ensures rc != 0 ==> !CanErase(g.usageSegment)
      ensures WearOutside(g, old(flash.wear[..]), flash.wear[..], g.usageSegment)
    {
      hide SegmentOn, Flash.Bytes, Flash.Valid, Geometry.Ok, Geometry.SegmentBytes, Geometry.SegmentSectors, RingOk,
           OnFlash, RingBase, Sized, SameOutside, StatesOutside, RingFilled, AllClear, NthSector, Log.CanErase, UsageBytes, WearOutside;
      ghost var d, f := flash.Bytes(), flash.full[..];
      rc := WriteUsageTable();
      TableFrame(g, image, d, flash.Bytes());
      TableStates(g, f, flash.full[..], ringStart, checkpoints, unwritten);
    }

    method InvalidateSegment(s: word)
      requires Valid()
      modifies cache
      ensures Valid() && State() == old(State()).(cache := cache.queue) && !Cached(cache.queue, s)
      ensures forall x :: x in cache.queue <==> x in old(cache.queue) && x.number != s
      ensures Numbers(cache.queue) == LruStep(old(Numbers(cache.queue)), cache.size, Invalidate(s))
    {
      hide Log.States, LogInv, OnFlash, RingOk, SegmentOn, Sized, RingBase, Flash.Bytes, Flash.Valid, Geometry.Ok,
           Geometry.SegmentBytes, Geometry.SegmentSectors, Geometry.BlockBytes, Log.RingKept;
      CachedImages(g, State());
      cache.InvalidateEntry(s);
      CachedMembers(old(cache.queue), cache.queue, tail.number);
      RequeueKeeps(g, old(State()), cache.queue);
    }

    // ---- Checkpoints -------------------------------------------------------------------------

    /** The clock: any reading; `monotone` remembers whether each was later than the one before. */
    method NanosSinceEpoch() returns (now: u64)
      modifies `clock, `monotone
      ensures clock == now && monotone == (old(monotone) && now > old(clock))
    {
      now := *;
      monotone := monotone && now > clock;
      clock := now;
    }

    ghost predicate SectorFull(k: nat)
      reads flash.full
    {
      FullAt(flash.full[..], k)
    }

    /**
     * CheckpointNow. The next sector of the ring is written exactly if it was still EMPTY. The erase never reaches the ring,
     * so of all calls since the formatting exactly the first SegmentSectors() - 1 succeed.
     */
    method CheckpointNow() returns (r: Outcome)
      requires FlashOk() && RingKept() && OnFlash(g, image, flash.Bytes()) && ImagesInLog() && States()
      modifies `checkpoint, `checkpointSector, `writesSinceLastCheckpoint, `clock, `monotone, `lastIndex, `lastCheckpoint,
               `checkpoints
      modifies flash, flash.data, flash.full, flash.wear
      ensures FlashOk() && RingKept() && OnFlash(g, image, flash.Bytes())
      ensures g.SegmentSectors() > 0 && checkpointSector == NextSector(g, old(checkpointSector))
      ensures States() && checkpoints == old(checkpoints) + 1
      ensures r == Done || r == Failed
      ensures r == Done <==> checkpoints < g.SegmentSectors()
      ensures r == Done <==> !old(SectorFull(NextSector(g, checkpointSector)))
      ensures r == Done ==> writesSinceLastCheckpoint == 0 && lastCheckpoint == checkpoint
                            && RingBase(g) + lastIndex == checkpointSector
      ensures r != Done ==> lastCheckpoint == old(lastCheckpoint) && lastIndex == old(lastIndex)
                            && writesSinceLastCheckpoint == old(writesSinceLastCheckpoint)
      ensures checkpoint == old(checkpoint).(time := clock,
                lastSegmentWritten := if recoveredWithPartialSegment then tail.number else Wrap(tail.number - 1))
      ensures flash.wear[..] == WornFor(g, old(flash.wear[..]), flash.wearLimit, checkpointSector)
      ensures SectorFull(checkpointSector)
      ensures forall k: nat :: RingBase(g) <= k < RingBase(g) + g.SegmentSectors() && old(SectorFull(k)) ==> SectorFull(k)
      ensures WornBy(1, old(flash.wear[..]), flash.wear[..])
      ensures SameOutside(g, old(flash.Bytes()), flash.Bytes(), g.checkpointSegment)
    {
      hide WornBy, SameOutside, OnFlash, SegmentOn, RingOk, Sized, Flash.Bytes, Flash.Valid, Geometry.Ok, Geometry.SegmentBytes,
           Geometry.SegmentSectors, Geometry.BlockBytes, NextSector, RingBase, Log.States;
      var now := NanosSinceEpoch();
      checkpoint := checkpoint.(
        time := now,
        lastSegmentWritten := if recoveredWithPartialSegment then tail.number else Wrap(tail.number - 1));
      r := StoreCheckpoint();
    }

    /** The second half of CheckpointNow: advance, erase, write. */
    method StoreCheckpoint() returns (r: Outcome)
      requires FlashOk() && checkpoint.isValid && checkpoint.usageSegment == g.usageSegment && OnFlash(g, image, flash.Bytes())
      requires ImagesInLog() && States()
      requires monotone ==> lastCheckpoint.time < checkpoint.time == clock
                            && RingOk(SegmentOn(g, flash.Bytes(), g.checkpointSegment), lastIndex, lastCheckpoint)
      modifies `checkpointSector, `writesSinceLastCheckpoint, `lastIndex, `lastCheckpoint, `checkpoints
      modifies flash, flash.data, flash.full, flash.wear
      ensures FlashOk() && RingKept() && OnFlash(g, image, flash.Bytes())
      ensures g.SegmentSectors() > 0 && checkpointSector == NextSector(g, old(checkpointSector))
      ensures States() && checkpoints == old(checkpoints) + 1
      ensures r == Done || r == Failed
      ensures r == Done <==> checkpoints < g.SegmentSectors()
      ensures r == Done <==> !old(SectorFull(NextSector(g, checkpointSector)))
      ensures r == Done ==> writesSinceLastCheckpoint == 0 && lastCheckpoint == checkpoint
                            && RingBase(g) + lastIndex == checkpointSector
      ensures r != Done ==> lastCheckpoint == old(lastCheckpoint) && lastIndex == old(lastIndex)
                            && writesSinceLastCheckpoint == old(writesSinceLastCheckpoint)
      ensures flash.wear[..] == WornFor(g, old(flash.wear[..]), flash.wearLimit, checkpointSector)
      ensures SectorFull(checkpointSector)
      ensures forall k: nat :: RingBase(g) <= k < RingBase(g) + g.SegmentSectors() && old(SectorFull(k)) ==> SectorFull(k)
      ensures WornBy(1, old(flash.wear[..]), flash.wear[..])
      ensures SameOutside(g, old(flash.Bytes()), flash.Bytes(), g.checkpointSegment)
    {
      hide Log.RingKept, Log.ImagesInLog, WornBy, SameOutside, OnFlash, SegmentOn, RingOk, Sized, Flash.Bytes, Flash.Valid,
           Geometry.Ok, Geometry.SegmentBytes, Geometry.SegmentSectors, Geometry.BlockBytes;
      CheckpointElsewhere(g);
      NextOfRing(g, flash.full[..], ringStart, checkpoints);
      ghost var f0 := flash.full[..];
      hide NthSector, NextSector, RingBase, RingFilled, AllClear, FullAt, RingSame, FewerFull, FullToo;
      AdvanceSector();
      EraseForCheckpoint();
      ghost var f1 := flash.full[..];
      r := WriteCheckpoint();
      CheckpointStates(g, f0, f1, flash.full[..], ringStart, checkpoints, unwritten);
      checkpoints := checkpoints + 1;
    }

    method AdvanceSector()
      requires g.SegmentSectors() > 0 && RingBase(g) <= checkpointSector < RingBase(g) + g.SegmentSectors()
      modifies `checkpointSector
      ensures checkpointSector == NextSector(g, old(checkpointSector))
      ensures RingBase(g) <= checkpointSector < RingBase(g) + g.SegmentSectors()
    {
      hide Geometry.SegmentSectors;
      NextInRing(g, checkpointSector - RingBase(g));
      checkpointSector := (checkpointSector + 1) % g.SegmentSectors();
      checkpointSector := checkpointSector + g.checkpointSegment * g.SegmentSectors();
    }

    /** The erase of "old checkpoints": a block of segment 2 * checkpointSegment, so no sector of the ring changes. */
    method EraseForCheckpoint()
      requires FlashOk() && g.SegmentSectors() > 0
      requires RingBase(g) <= checkpointSector < RingBase(g) + g.SegmentSectors()
      modifies flash.full, flash.wear
      ensures FlashOk()
      ensures RingSame(g, old(flash.full[..]), flash.full[..]) && FewerFull(old(flash.full[..]), flash.full[..])
      ensures WornBy(1, old(flash.wear[..]), flash.wear[..])
      ensures flash.wear[..] == WornFor(g, old(flash.wear[..]), flash.wearLimit, checkpointSector)
    {
      hide SegmentOn, RingOk, Flash.Bytes, Geometry.Ok, Geometry.SegmentBytes, Geometry.SegmentSectors,
           Geometry.BlockBytes, BlockOf, InSegment, EraseBlocksPerSegment;
      if checkpointSector % SECTORS_PER_BLOCK == 0 {
        var block := g.checkpointSegment * EraseBlocksPerSegment(g) + BlockOf(checkpointSector);
        ErasedInRange(g, checkpointSector, flash.blocks);
        var rc := flash.Erase(block, 1);
      }
    }

    method WriteCheckpoint() returns (r: Outcome)
      requires FlashOk() && checkpoint.isValid && checkpoint.usageSegment == g.usageSegment && OnFlash(g, image, flash.Bytes())
      requires ImagesInLog() && g.checkpointSegment < g.flashSize
      requires RingBase(g) <= checkpointSector < RingBase(g) + g.SegmentSectors()
      requires monotone ==> lastCheckpoint.time < checkpoint.time == clock
                            && RingOk(SegmentOn(g, flash.Bytes(), g.checkpointSegment), lastIndex, lastCheckpoint)
      modifies `writesSinceLastCheckpoint, `lastIndex, `lastCheckpoint, flash, flash.data, flash.full
      ensures FlashOk() && RingKept() && OnFlash(g, image, flash.Bytes())
      ensures r == Done || r == Failed
      ensures r == Done <==> !old(SectorFull(checkpointSector))
      ensures r == Done ==> writesSinceLastCheckpoint == 0 && lastCheckpoint == checkpoint
                            && RingBase(g) + lastIndex == checkpointSector
      ensures r != Done ==> lastCheckpoint == old(lastCheckpoint) && lastIndex == old(lastIndex)
                            && writesSinceLastCheckpoint == old(writesSinceLastCheckpoint)
      ensures FullToo(old(flash.full[..]), flash.full[..], checkpointSector)
      ensures SameOutside(g, old(flash.Bytes()), flash.Bytes(), g.checkpointSegment)
    {
      hide OnFlash, SegmentOn, RingOk, Flash.Bytes, Geometry.Ok, Geometry.SegmentBytes, Geometry.SegmentSectors,
           Geometry.BlockBytes, EncodeCheckpoint, Spliced, SectorOf;
      ghost var d, k := flash.Bytes(), checkpointSector - RingBase(g);
      GeometryFacts(g);
      PartWrite(g, d, g.checkpointSegment, k, CHECKPOINT_SIZE_IN_SECTORS, EncodeCheckpoint(checkpoint));
      var rc := flash.Write(checkpointSector, CHECKPOINT_SIZE_IN_SECTORS, EncodeCheckpoint(checkpoint));
      if rc != 0 {
        return Failed;
      }
      OnFlashFrame(g, image, d, flash.Bytes(), g.checkpointSegment);
      if monotone {
        RingAdvance(SegmentOn(g, d, g.checkpointSegment), lastIndex, lastCheckpoint, k, checkpoint);
      }
      lastIndex, lastCheckpoint := k, checkpoint;
      writesSinceLastCheckpoint := 0;
      return Done;
    }

    /** No erase block of segment s is worn out. */
    ghost predicate CanErase(s: nat)
      reads flash.wear
    {
      Unworn(flash.wear[..], s)
    }

    ghost predicate Unworn(wear: seq<nat>, s: nat) {
      var e := EraseBlocksPerSegment(g);
      s * e + e <= |wear| && Erasable(wear, flash.wearLimit, s * e, e) == e
    }

    /** eraseSegment: exactly the sectors of the segment, all of them or an initial run of its blocks. */
    method EraseBlocksOf(s: nat) returns (rc: nat)
      requires FlashOk() && s < g.flashSize
      modifies flash.full, flash.wear
      ensures FlashOk() && (rc == 0 <==> old(CanErase(s))) && (rc != 0 ==> !CanErase(s))
      ensures StatesOutside(g, old(flash.full[..]), flash.full[..], s)
      ensures FewerFull(old(flash.full[..]), flash.full[..])
      ensures rc == 0 ==> SegmentEmpty(s)
      ensures WearOutside(g, old(flash.wear[..]), flash.wear[..], s)
      ensures rc == 0 ==> forall b :: 0 <= b < flash.wear.Length && BlockIn(g, s, b) ==> flash.wear[b] == old(flash.wear[b]) + 1
      ensures WornBy(1, old(flash.wear[..]), flash.wear[..])
    {
      hide Flash.Bytes, Geometry.Ok, Geometry.SegmentBytes, Geometry.SegmentSectors, EraseBlocksPerSegment, InSegment,
           BlockOf;
      var e := EraseBlocksPerSegment(g);
      EraseRange(g, s, flash.blocks);
      ghost var w := flash.wear[..];
      rc := flash.Erase(s * e, e);
      if rc != 0 {
        StaysWorn(w, flash.wear[..], flash.wearLimit, s * e, e);
      }
    }

    /** Erasing segment s wears no other segment. */
    lemma StillErasable(s: nat, r: nat, wear: seq<nat>)
      requires s != r && WearOutside(g, wear, flash.wear[..], s)
      ensures Unworn(wear, r) ==> CanErase(r)
    {
      BlocksApart(g, s, r);
      hide EraseBlocksPerSegment;
      if Unworn(wear, r) {
        ErasableSame(wear, flash.wear[..], flash.wearLimit, r * EraseBlocksPerSegment(g), EraseBlocksPerSegment(g));
      }
    }

    /** A segment can be erased exactly if none of its blocks has reached the limit. */
    lemma CanEraseIs(s: nat)
      requires FlashOk() && s < g.flashSize
      ensures CanErase(s) <==> forall b :: 0 <= b < flash.wear.Length && BlockIn(g, s, b) ==> flash.wear[b] < flash.wearLimit
    {
      hide Flash.Bytes, Geometry.Ok, Geometry.SegmentBytes, Geometry.SegmentSectors, EraseBlocksPerSegment, InSegment,
           BlockOf;
      EraseRange(g, s, flash.blocks);
    }
  }

  /** A checkpoint in the first sector of an erase block costs another block a cycle, unless that one is worn out. */
  function WornFor(g: Geometry, wear: seq<nat>, limit: nat, sector: nat): (wear': seq<nat>)
    ensures |wear'| == |wear|
  {
    var b := ErasedBlock(g, sector);
    if sector % SECTORS_PER_BLOCK == 0 && b < |wear| && wear[b] < limit then wear[b := wear[b] + 1] else wear
  }

  /** What a lookup of segment s makes of the cached numbers: an access, unless an uncached tail answers. */
  ghost function AfterLookup(queue: seq<Segment>, size: nat, s: word, tail: word): seq<word>
    requires size >= 1
  {
    if s == tail && !Cached(queue, s) then Numbers(queue) else LruStep(Numbers(queue), size, Access(s))
  }

  /** An erase that stopped at a worn-out block has not mended it. */
  lemma StaysWorn(wear: seq<nat>, wear': seq<nat>, limit: nat, block: nat, count: nat)
    requires block + count <= |wear| == |wear'| && Erasable(wear, limit, block, count) < count
    requires forall b :: 0 <= b < |wear| ==> wear'[b] >= wear[b]
    ensures Erasable(wear', limit, block, count) < count
  {
  }

  /** A lookup caches nothing but the segment looked up. */
  lemma LookupMembers(q: seq<Segment>, q': seq<Segment>, size: nat, s: word, tail: word)
    requires size >= 1 && Numbers(q') == AfterLookup(q, size, s, tail)
    ensures forall n: word :: Cached(q', n) ==> Cached(q, n) || n == s
  {
    forall n: word | Cached(q', n)
      ensures Cached(q, n) || n == s
    {
      if s != tail || Cached(q, s) {
        NumberOf(q, n);
        NumberOf(q', n);
        AccessMembers(Numbers(q), size, s, n);
      } else {
        NumberOf(q, n);
        NumberOf(q', n);
      }
    }
  }

  /** So looking for a held block caches nothing vacant. */
  lemma LookupHeld(held: Held, a: Addr, q: seq<Segment>, q': seq<Segment>, size: nat, tail: word)
    requires a in held && size >= 1 && Numbers(q') == AfterLookup(q, size, a.seg, tail)
    ensures CachesHeld(held, q, q')
  {
    LookupMembers(q, q', size, a.seg, tail);
  }

  predicate BlockIn(g: Geometry, s: nat, b: int) {
    s * EraseBlocksPerSegment(g) <= b < s * EraseBlocksPerSegment(g) + EraseBlocksPerSegment(g)
  }

  /** Only blocks of segment s were erased. */
  ghost predicate WearOutside(g: Geometry, wear: seq<nat>, wear': seq<nat>, s: nat) {
    |wear'| == |wear| && forall b :: 0 <= b < |wear| && !BlockIn(g, s, b) ==> wear'[b] == wear[b]
  }

  /** Each block of segment s has lost one cycle; apart from segment r no other block has lost any. */
  ghost predicate WornAt(g: Geometry, wear: seq<nat>, wear': seq<nat>, s: nat, r: nat) {
    |wear'| == |wear| && forall b :: 0 <= b < |wear| && !BlockIn(g, r, b) ==> wear'[b] == wear[b] + if BlockIn(g, s, b) then 1 else 0
  }

  lemma WornSince(g: Geometry, w0: seq<nat>, w1: seq<nat>, w2: seq<nat>, s: nat, r: nat)
    requires WearOutside(g, w0, w1, s) && WearOutside(g, w1, w2, r)
    requires forall b :: 0 <= b < |w1| && BlockIn(g, s, b) ==> w1[b] == w0[b] + 1
    ensures WornAt(g, w0, w2, s, r)
  {
    hide BlockIn;
  }

  lemma BlocksApart(g: Geometry, s: nat, r: nat)
    requires s != r
    ensures forall b :: BlockIn(g, r, b) ==> !BlockIn(g, s, b)
  {
    hide EraseBlocksPerSegment;
    var e := EraseBlocksPerSegment(g);
    if s < r {
      MulOrder(s + 1, r, e);
    } else {
      MulOrder(r + 1, s, e);
    }
    assert (s + 1) * e == s * e + e && (r + 1) * e == r * e + e;
  }

  // ---- Sector states ---------------------------------------------------------------------------

  ghost predicate FewerFull(full: seq<bool>, full': seq<bool>) {
    forall k: nat :: FullAt(full', k) ==> FullAt(full, k)
  }

  /** Log segments whose sectors are all EMPTY. */
  ghost predicate AllClear(g: Geometry, full: seq<bool>, unwritten: set<word>) {
    forall s :: s in unwritten ==> g.InLog(s) && Clear(g, full, s, 0)
  }

  ghost predicate RingSame(g: Geometry, full: seq<bool>, full': seq<bool>) {
    forall k: nat :: RingBase(g) <= k < RingBase(g) + g.SegmentSectors() ==> FullAt(full', k) == FullAt(full, k)
  }

  /** Sector `at` is FULL, all others are as before. */
  ghost predicate FullToo(full: seq<bool>, full': seq<bool>, at: nat) {
    |full'| == |full| && forall k: nat :: FullAt(full', k) <==> FullAt(full, k) || k == at
  }

  lemma AllClearOutside(g: Geometry, full: seq<bool>, full': seq<bool>, s: nat, unwritten: set<word>)
    requires AllClear(g, full, unwritten) && StatesOutside(g, full, full', s)
    ensures AllClear(g, full', unwritten - set r | r in unwritten && r == s)
  {
    hide StatesOutside, Clear, FullAt;
    forall r | r in unwritten && r != s
      ensures Clear(g, full', r, 0)
    {
      ClearElsewhere(g, full, full', s, r, 0);
    }
  }

  /** A write of one whole segment. */
  lemma WholeStates(g: Geometry, f0: seq<bool>, f1: seq<bool>, s: nat, rc: nat)
    requires |f1| == |f0| && s * g.SegmentSectors() + g.SegmentSectors() <= |f0|
    requires rc == 0 <==> forall k :: s * g.SegmentSectors() <= k < s * g.SegmentSectors() + g.SegmentSectors() ==> !f0[k]
    requires rc != 0 ==> f1 == f0
    requires rc == 0 ==> forall k :: 0 <= k < |f0| ==>
               f1[k] == (f0[k] || s * g.SegmentSectors() <= k < s * g.SegmentSectors() + g.SegmentSectors())
    ensures rc == 0 <==> Clear(g, f0, s, 0)
    ensures StatesOutside(g, f0, f1, s)
  {
    SectorsInSegment(g, s);
    hide Geometry.SegmentSectors, InSegment;
    assert forall k :: 0 <= k < |f0| ==> FullAt(f0, k) == f0[k];
  }

  /** A seal: the tail's sectors are written, then the table's segment is rewritten. */
  lemma SealStates(g: Geometry, f0: seq<bool>, f1: seq<bool>, f2: seq<bool>, start: nat, calls: nat, unwritten: set<word>, s: word)
    requires g.Ok() && g.InLog(s) && StatesOutside(g, f0, f1, s) && StatesOutside(g, f1, f2, g.usageSegment)
    requires RingFilled(g, f0, start, calls) && AllClear(g, f0, unwritten)
    ensures RingFilled(g, f2, start, calls) && AllClear(g, f2, unwritten - {s})
  {
    hide RingFilled, StatesOutside, Clear;
    GeometryFacts(g);
    RingFramed(g, f0, f1, s, start, calls);
    RingFramed(g, f1, f2, g.usageSegment, start, calls);
    AllClearOutside(g, f0, f1, s, unwritten);
    AllClearOutside(g, f1, f2, g.usageSegment, unwritten - {s});
  }

  /** Saving the table empties no sector of a log segment. */
  lemma StaysFull(g: Geometry, full: seq<bool>, full': seq<bool>, s: word)
    requires g.Ok() && g.InLog(s) && StatesOutside(g, full, full', g.usageSegment) && !Clear(g, full, s, 0)
    ensures !Clear(g, full', s, 0)
  {
    hide Clear, FullAt;
    GeometryFacts(g);
    if Clear(g, full', s, 0) {
      ClearElsewhere(g, full', full, g.usageSegment, s, 0);
    }
  }

  lemma TableStates(g: Geometry, f0: seq<bool>, f1: seq<bool>, start: nat, calls: nat, unwritten: set<word>)
    requires g.Ok() && StatesOutside(g, f0, f1, g.usageSegment)
    requires RingFilled(g, f0, start, calls) && AllClear(g, f0, unwritten)
    ensures RingFilled(g, f1, start, calls) && AllClear(g, f1, unwritten)
  {
    hide RingFilled, StatesOutside, Clear;
    GeometryFacts(g);
    RingFramed(g, f0, f1, g.usageSegment, start, calls);
    AllClearOutside(g, f0, f1, g.usageSegment, unwritten);
  }

  lemma EraseStates(g: Geometry, f0: seq<bool>, f1: seq<bool>, start: nat, calls: nat, unwritten: set<word>, s: word)
    requires g.Ok() && g.InLog(s) && StatesOutside(g, f0, f1, s) && FewerFull(f0, f1)
    requires RingFilled(g, f0, start, calls) && AllClear(g, f0, unwritten)
    ensures RingFilled(g, f1, start, calls) && AllClear(g, f1, unwritten)
    ensures Clear(g, f1, s, 0) ==> AllClear(g, f1, unwritten + {s})
  {
    hide RingFilled, StatesOutside;
    GeometryFacts(g);
    RingFramed(g, f0, f1, s, start, calls);
    FewerClear(g, f0, f1, unwritten);
  }

  lemma FewerClear(g: Geometry, f0: seq<bool>, f1: seq<bool>, unwritten: set<word>)
    requires FewerFull(f0, f1) && AllClear(g, f0, unwritten)
    ensures AllClear(g, f1, unwritten)
  {
    hide FullAt, Geometry.SegmentSectors;
    forall s, j | s in unwritten && InSegment(g, s, j)
      ensures !FullAt(f1, j)
    {
      InSegmentNat(g, s, j);
    }
  }

  lemma InSegmentNat(g: Geometry, s: nat, j: int)
    requires InSegment(g, s, j)
    ensures j >= 0
  {
    MulOrder(0, s, g.SegmentSectors());
  }

  lemma CheckpointElsewhere(g: Geometry)
    requires g.Ok()
    ensures g.checkpointSegment < g.flashSize
  {
  }

  /** The sector the next checkpoint goes to. */
  lemma NextOfRing(g: Geometry, full: seq<bool>, start: nat, calls: nat)
    requires RingFilled(g, full, start, calls)
    ensures g.SegmentSectors() > 0 && NthSector(g, start, calls + 1) == NextSector(g, NthSector(g, start, calls))
    ensures !FullAt(full, NthSector(g, start, calls + 1)) <==> calls + 1 < g.SegmentSectors()
    ensures RingBase(g) <= NthSector(g, start, calls) < RingBase(g) + g.SegmentSectors()
  {
    RingLasts(g, full, start, calls);
    RingLap(g, start, start);
    NthNext(g, start, calls);
  }

  /** A checkpoint: an erase that spares the ring, then one sector of the ring. */
  lemma CheckpointStates(g: Geometry, f0: seq<bool>, f1: seq<bool>, f2: seq<bool>, start: nat, calls: nat, unwritten: set<word>)
    requires g.Ok() && RingFilled(g, f0, start, calls) && AllClear(g, f0, unwritten) && g.SegmentSectors() > 0
    requires FewerFull(f0, f1) && RingSame(g, f0, f1) && FullToo(f1, f2, NthSector(g, start, calls + 1))
    ensures RingFilled(g, f2, start, calls + 1) && AllClear(g, f2, unwritten)
    ensures forall k: nat :: RingBase(g) <= k < RingBase(g) + g.SegmentSectors() && FullAt(f0, k) ==> FullAt(f2, k)
    ensures forall k: nat :: RingBase(g) <= k < RingBase(g) + g.SegmentSectors() ==> FullAt(f1, k) == FullAt(f0, k)
    ensures FullAt(f2, NthSector(g, start, calls + 1))
  {
    RingWritten(g, f0, f2, start, calls);
    RingLap(g, start, start);
    hide RingFilled, NthSector, FullAt, Clear, Geometry.Ok, Geometry.SegmentSectors, InSegment, RingBase;
    GeometryFacts(g);
    FewerClear(g, f0, f1, unwritten);
    forall j: nat | !InSegment(g, g.checkpointSegment, j)
      ensures FullAt(f2, j) == FullAt(f1, j)
    {
      RingInSegment(g, j);
    }
    AllClearOutside(g, f1, f2, g.checkpointSegment, unwritten);
  }

  lemma FreeReady(g: Geometry, st: LogState, a: Addr)
    requires g.Ok() && LogInv(g, st)
    ensures st.tail.number != UINT_MAX
    ensures a in st.held ==>
              && a.seg < |st.live| && a.seg != UINT_MAX
              && a.slot < |st.tail.inums| && a.slot < |st.tail.fileBlocks|
              && LogInv(g, AfterFree(g, st, a)) && FreeSlots(AfterFree(g, st, a).tail) >= FreeSlots(st.tail)
              && Capacity(g, AfterFree(g, st, a).tail, AfterFree(g, st, a).live) >= Capacity(g, st.tail, st.live)
  {
    hide Geometry.Ok, Geometry.BlockBytes, Stores, LiveOk, FreeSlots, Capacity;
    GeometryFacts(g);
    if a in st.held {
      FreeKeeps(g, st, a);
      ClearedRoom(st.tail, a.slot);
      FreedCapacity(g, st, a);
    }
  }

  lemma SourceStores(g: Geometry, st: LogState, s: word)
    requires g.Ok() && LogInv(g, st)
    ensures WellFormed(g, st.tail)
    ensures s in st.image ==> WellFormed(g, st.image[s])
    ensures Cached(st.cache, s) ==> s in st.image
    ensures forall a :: a in st.held && a.seg == s ==>
              if s == st.tail.number then Stores(g, st.tail, a.slot, st.held[a])
              else s in st.image && Stores(g, st.image[s], a.slot, st.held[a])
  {
  }

  lemma HeldInRange(g: Geometry, st: LogState)
    requires g.Ok() && LogInv(g, st)
    ensures forall a :: a in st.held ==> a.seg < g.flashSize && 1 <= a.slot < g.segmentSize && st.held[a].inum >= 0
  {
  }

  predicate Dead(s: Segment, b: nat) {
    b < |s.inums| && s.inums[b] == NO_INUM
  }

  ghost predicate Fetched(g: Geometry, s: Segment, b: nat, block: seq<byte>)
    requires g.Ok()
  {
    WellFormed(g, s) && 1 <= b < g.segmentSize && block == BlockAt(g, s, b)
  }

  lemma TailStart(g: Geometry, tail: Segment)
    requires g.Ok() && TailShape(g, tail) && g.InLog(tail.number)
    ensures tail.startSector == tail.number * g.SegmentSectors()
    ensures WellFormed(g, tail) && tail.number < g.flashSize && tail.number > g.checkpointSegment
  {
    hide Geometry.Ok, Geometry.SegmentBytes, Geometry.SegmentSectors, WellFormed;
    SegmentOffsets(g, tail.number);
  }

  function Times(a: nat, b: nat): nat {
    a * b
  }

  lemma TimesNone(bytes: nat)
    ensures Times(0, bytes) == 0
  {
  }

  lemma OneBlockMore(s: nat, n: nat, bytes: nat)
    requires 1 <= s < n
    ensures Times(s, bytes) == Times(s - 1, bytes) + bytes <= Times(n - 1, bytes)
  {
    MulOrder(s, n - 1, bytes);
  }

  /** A seal of st's full tail: it becomes an image and enters the cache, and the first zero-live segment is next. */
  ghost predicate SealedFrom(g: Geometry, st: LogState, after: LogState, cacheSize: nat)
    requires g.Ok()
  {
    && after.held == st.held
    && after.image == st.image[st.tail.number := st.tail]
    && cacheSize >= 1 && after.cache == Pushed(st.cache, cacheSize, st.tail)
    && |st.live| == |after.live| == g.flashSize && st.tail.number < g.flashSize
    && after.live == st.live[st.tail.number := Wrap((g.segmentSize - 1) * g.BlockBytes())]
    && after.tail == Build(g, FirstClean(g, after.live, g.FirstSegment()))
    && after.tail.number != st.tail.number
    && HeldIn(after.held, after.tail.number) == {}
  }

  /** The state after a seal of st's recounted tail, and where the table's inode points then. */
  lemma NextReady(g: Geometry, st: LogState, size: nat, n: INode, clean: word)
    requires g.Ok() && Consistent(g, st) && Full(g, st.tail) && g.InLog(st.tail.number) && !Cached(st.cache, st.tail.number)
    requires size >= 1 && |st.cache| <= size && |st.live| == g.flashSize && st.tail.number < g.flashSize
    requires (g.segmentSize - 1) * g.BlockBytes() < 0x1_0000_0000 && st.live[st.tail.number] == (g.segmentSize - 1) * g.BlockBytes()
    requires clean == FirstClean(g, st.live, g.FirstSegment()) && PointersSettled(st.image, n, g.segmentSize, {st.tail.number})
    ensures var image := st.image[st.tail.number := st.tail];
            var after := LogState(st.held, image, Build(g, clean), Pushed(st.cache, size, st.tail), st.live);
            && LogInv(g, after) && SealedFrom(g, st, after, size)
            && PointersSettled(image, n, g.segmentSize, {}) && PointersSettled(image, n, g.segmentSize, {clean})
  {
    hide Consistent, LogInv, Stores, Build, Geometry.Ok, Geometry.BlockBytes, PointersSettled, Full;
    ConsistentParts(g, st);
    PushedMembers(st.cache, size, st.tail);
    CleanInLog(g, st.live);
    assert st.live == st.live[st.tail.number := (g.segmentSize - 1) * g.BlockBytes()];
    WrapSmall((g.segmentSize - 1) * g.BlockBytes());
    SealKeeps(g, st, Pushed(st.cache, size, st.tail), st.live, clean);
    SealSettles(g, st.image, st.tail, n, {st.tail.number});
    SettledOn(st.image[st.tail.number := st.tail], n, g.segmentSize, {clean});
  }

  /** What the tail's own live count was before the recount does not matter. */
  lemma SealedRecount(g: Geometry, st: LogState, n: word, after: LogState, cacheSize: nat)
    requires g.Ok() && |st.live| == g.flashSize && st.tail.number < g.flashSize
    requires SealedFrom(g, st.(live := st.live[st.tail.number := n]), after, cacheSize)
    ensures SealedFrom(g, st, after, cacheSize)
  {
    hide FirstClean, Pushed, Build;
    var total := Wrap((g.segmentSize - 1) * g.BlockBytes());
    assert st.live[st.tail.number := n][st.tail.number := total] == st.live[st.tail.number := total];
  }

  lemma SealedHolds(g: Geometry, st: LogState, after: LogState, cacheSize: nat)
    requires g.Ok() && SealedFrom(g, st, after, cacheSize)
    ensures after.held == st.held
  {
  }

  lemma SealedOffTail(g: Geometry, st: LogState, after: LogState, cacheSize: nat)
    requires g.Ok() && SealedFrom(g, st, after, cacheSize)
    ensures OffTailKept(after.held, st.tail.number, after.tail.number)
  {
    EmptyOffTail(after.held, st.tail.number, after.tail.number);
  }

  /** A seal takes no slot that can be written: the full tail had none left, and the next one is clean. */
  lemma SealedCapacity(g: Geometry, st: LogState, after: LogState, cacheSize: nat)
    requires g.Ok() && SealedFrom(g, st, after, cacheSize) && st.tail.number != FLASH_FULL && FreeSlots(st.tail) == 0
    ensures Capacity(g, after.tail, after.live) == Capacity(g, st.tail, st.live) && after.tail.number != st.tail.number
  {
    hide Pushed, Geometry.Ok, Geometry.BlockBytes, FreeSlots, SlotsIn, Wrap, FirstClean, HeldIn;
    GeometryFacts(g);
    var next := FirstClean(g, after.live, g.FirstSegment());
    SealedCount(g);
    if next == FLASH_FULL {
      assert forall s :: g.FirstSegment() <= s < |st.live| && s != st.tail.number ==> st.live[s] == after.live[s];
      NoneClean(g, st.live, st.tail.number);
    } else {
      BuiltRoom(g, next);
      CleanTaken(g, st.live, st.tail.number, Wrap((g.segmentSize - 1) * g.BlockBytes()), next);
    }
  }

  lemma SealedCount(g: Geometry)
    requires g.Ok()
    ensures Wrap((g.segmentSize - 1) * g.BlockBytes()) != 0
  {
    GeometryFacts(g);
    WrapSmall((g.segmentSize - 1) * g.BlockBytes());
    MulGrows(g.segmentSize - 1, g.BlockBytes());
  }

  /** A seal moves on to an EMPTY segment that is not cached, if there is one; the one sealed holds the block that filled it. */
  lemma OpenSealed(g: Geometry, st: LogState, after: LogState, cacheSize: nat, unwritten: set<word>, going: set<Addr>, a: Addr)
    requires g.Ok() && SealedFrom(g, st, after, cacheSize) && LogInv(g, after)
    requires Open(g, st.held, st.cache, unwritten, st.tail.number, going) && |st.cache| <= cacheSize
    requires a in st.held && a.seg == st.tail.number && a !in going
    ensures Open(g, after.held, after.cache, unwritten - {st.tail.number}, after.tail.number, going)
    ensures !Cached(after.cache, after.tail.number)
    ensures after.tail.number != FLASH_FULL ==> after.tail.number in unwritten - {st.tail.number}
  {
    hide Pushed, Build, Geometry.Ok, Geometry.BlockBytes, HeldStored, TailHeld, HeldOk, LiveOk, FirstClean, WellFormed, HeldIn, Wrap, LogInv;
    GeometryFacts(g);
    CachedImages(g, after);
    TailFree(g, after);
    ImagesKnown(g, after);
    PushedMembers(st.cache, cacheSize, st.tail);
    NoneHeldIn(st.held, after.tail.number);
  }

  lemma ImagesKnown(g: Geometry, st: LogState)
    requires g.Ok() && LogInv(g, st)
    ensures forall s :: s in st.image ==> g.InLog(s)
  {
  }

  /** Sealing a log segment and saving the table leave the checkpoint region alone. */
  lemma ReservedKept(g: Geometry, d0: seq<byte>, d1: seq<byte>, d2: seq<byte>, s: nat)
    requires g.Ok() && Sized(g, d0) && Sized(g, d1) && Sized(g, d2) && g.InLog(s)
    requires SameOutside(g, d0, d1, s) && SameOutside(g, d1, d2, g.usageSegment)
    ensures g.checkpointSegment < g.flashSize
    ensures SegmentOn(g, d2, g.checkpointSegment) == SegmentOn(g, d0, g.checkpointSegment)
  {
  }

  lemma SealedOnFlash(g: Geometry, image: map<word, Segment>, d0: seq<byte>, d1: seq<byte>, d2: seq<byte>, tail: Segment)
    requires g.Ok() && Sized(g, d0) && Sized(g, d1) && Sized(g, d2) && WellFormed(g, tail) && g.InLog(tail.number)
    requires OnFlash(g, image, d0) && forall s :: s in image ==> g.InLog(s)
    requires SameOutside(g, d0, d1, tail.number) && SegmentOn(g, d1, tail.number) == EncodeSegment(g, tail)
    requires SameOutside(g, d1, d2, g.usageSegment)
    ensures OnFlash(g, image[tail.number := tail], d2)
  {
    hide Geometry.Ok;
    GeometryFacts(g);
    OnFlashSealed(g, image, d0, d1, tail.number, tail);
    OnFlashFrame(g, image[tail.number := tail], d1, d2, g.usageSegment);
  }

  lemma CleanInLog(g: Geometry, live: seq<word>)
    requires g.Ok() && |live| == g.flashSize
    ensures var n := FirstClean(g, live, g.FirstSegment()); n == FLASH_FULL || (g.InLog(n) && live[n] == 0)
  {
  }

  lemma ConsistentOf(g: Geometry, st: LogState)
    requires g.Ok() && LogInv(g, st)
    ensures Consistent(g, st)
  {
  }

  lemma ConsistentParts(g: Geometry, st: LogState)
    requires g.Ok() && Consistent(g, st)
    ensures TailShape(g, st.tail) && |st.live| == g.flashSize && forall s :: s in st.image ==> g.InLog(s)
  {
  }

  /** The live count of the tail itself is never relied on. */
  lemma FullWithLive(g: Geometry, st: LogState, n: word)
    requires g.Ok() && Consistent(g, st) && g.InLog(st.tail.number)
    ensures st.tail.number < |st.live| && Consistent(g, st.(live := st.live[st.tail.number := n]))
  {
    hide Stores, Geometry.BlockBytes;
  }

  lemma PositiveSectors(g: Geometry)
    requires g.Ok()
    ensures g.SegmentSectors() > 0
  {
    MulGrows(g.segmentSize, g.blockSize);
  }

  lemma ErasedInRange(g: Geometry, sector: nat, blocks: nat)
    requires g.Ok() && g.flashSize * g.SegmentBytes() <= blocks * SECTORS_PER_BLOCK * SECTOR_SIZE
    requires RingBase(g) <= sector < RingBase(g) + g.SegmentSectors()
    ensures g.checkpointSegment * EraseBlocksPerSegment(g) + BlockOf(sector) + 1 <= blocks
    ensures forall k: nat :: RingBase(g) <= k < RingBase(g) + g.SegmentSectors() ==>
              BlockOf(k) != g.checkpointSegment * EraseBlocksPerSegment(g) + BlockOf(sector)
  {
    hide Geometry.Ok, Geometry.SegmentSectors, Geometry.SegmentBytes, EraseBlocksPerSegment, BlockOf;
    GeometryFacts(g);
    EraseBlocksExact(g);
    var e, c := EraseBlocksPerSegment(g), g.checkpointSegment;
    EraseRange(g, g.flashSize - 1, blocks);
    EraseRange(g, c, blocks);
    assert (c + 1) * g.SegmentSectors() == RingBase(g) + g.SegmentSectors();
    assert forall k: nat :: InSegment(g, c, k) <==> RingBase(g) <= k < RingBase(g) + g.SegmentSectors();
    assert InSegment(g, c, sector);
    SecondSegment(c, e, g.flashSize, BlockOf(sector));
    assert (g.flashSize - 1) * e + e == g.flashSize * e;
  }

  lemma SecondSegment(c: nat, e: nat, n: nat, x: nat)
    requires 1 <= c && 2 * c + 1 <= n && c * e <= x < c * e + e
    ensures c * e + e <= c * e + x && c * e + x + 1 <= n * e
  {
    MulOrder(1, c, e);
    MulOrder(2 * c + 1, n, e);
    assert (2 * c + 1) * e == c * e + c * e + e;
  }

  lemma TailElsewhere(g: Geometry, s: word)
    requires g.Ok() && g.InLog(s)
    ensures s != g.usageSegment
  {
  }

  lemma TailFree(g: Geometry, st: LogState)
    requires g.Ok() && LogInv(g, st)
    ensures if st.tail.number == FLASH_FULL then FreeSlots(st.tail) == 0 else g.InLog(st.tail.number)
    ensures g.flashSize <= FLASH_FULL
  {
    GeometryFacts(g);
  }

  /** The tail always has room: its last slot is free. */
  lemma FreeSlot(g: Geometry, st: LogState)
    requires g.Ok() && LogInv(g, st)
    ensures WellFormed(g, st.tail) && 1 <= FirstFree(st.tail.inums, 1) < g.segmentSize == |st.tail.inums|
    ensures |st.tail.fileBlocks| == g.segmentSize
    ensures st.tail.inums[FirstFree(st.tail.inums, 1)] == NO_INUM
    ensures |st.tail.data| == (g.segmentSize - 1) * g.BlockBytes() && g.segmentSize < 0x1_0000_0000
    ensures st.tail.number < g.flashSize ==> g.InLog(st.tail.number)
  {
    GeometryFacts(g);
  }

  lemma PlaceReady(g: Geometry, st: LogState, b: word, slot: Slot)
    requires g.Ok() && LogInv(g, st) && g.InLog(st.tail.number)
    requires b == FirstFree(st.tail.inums, 1) && slot.inum >= 0 && |slot.data| == g.BlockBytes()
    ensures 1 <= b < g.segmentSize == |st.tail.inums| == |st.tail.fileBlocks|
    ensures |st.tail.data| == (g.segmentSize - 1) * g.BlockBytes()
    ensures Addr(st.tail.number, b) !in st.held
    ensures var t := Placed(g, st.tail, b, slot.inum, slot.fileBlock, slot.data);
            var st' := st.(held := st.held[Addr(st.tail.number, b) := slot], tail := t);
            && Consistent(g, st') && WellFormed(g, t) && t.number == st.tail.number
            && (Full(g, t) <==> b == g.segmentSize - 1)
            && (b < g.segmentSize - 1 ==> LogInv(g, st'))
            && FreeSlots(t) == FreeSlots(st.tail) - 1 && (Full(g, t) <==> FreeSlots(st.tail) == 1)
  {
    hide Geometry.Ok, Geometry.BlockBytes, Stores, PutChunk, HeldStored, HeldOk, TailHeld, ImagesOk, CacheOk, LiveOk, FreeSlots;
    GeometryFacts(g);
    FreeSlot(g, st);
    PlaceKeeps(g, st, b, slot);
    PlacedRoom(g, st.tail, b, slot.inum, slot.fileBlock, slot.data);
    LastSlotTaken(st.tail.inums, st.tail.inums[b := slot.inum], g.segmentSize, b, slot.inum);
  }

  lemma LastSlotTaken(inums: seq<i32>, after: seq<i32>, n: nat, b: nat, inum: i32)
    requires |inums| == n >= 2 && inums[n - 1] == NO_INUM && inum >= 0
    requires b == FirstFree(inums, 1) && b < n && after == inums[b := inum]
    ensures 1 <= b
    ensures (forall k :: 1 <= k < n ==> after[k] != NO_INUM) <==> b == n - 1
    ensures b < n - 1 ==> after[n - 1] == NO_INUM
  {
  }

  lemma ErasedReady(g: Geometry, st: LogState, s: word)
    requires g.Ok() && LogInv(g, st) && g.InLog(s) && s != st.tail.number
    ensures s < g.flashSize && s < |st.live| && s != g.usageSegment && forall r :: r in st.image ==> g.InLog(r)
    ensures LogInv(g, st.(held := DroppedSegment(st.held, s), live := st.live[s := 0]))
  {
    EraseKeeps(g, st, s);
  }

  /** Saving the usage table disturbs neither the images nor the checkpoint region. */
  lemma TableFrame(g: Geometry, image: map<word, Segment>, d: seq<byte>, d': seq<byte>)
    requires g.Ok() && Sized(g, d) && Sized(g, d') && SameOutside(g, d, d', g.usageSegment)
    requires OnFlash(g, image, d) && forall r :: r in image ==> g.InLog(r)
    ensures OnFlash(g, image, d')
    ensures g.checkpointSegment < g.flashSize
    ensures SegmentOn(g, d', g.checkpointSegment) == SegmentOn(g, d, g.checkpointSegment)
  {
    GeometryFacts(g);
    OnFlashFrame(g, image, d, d', g.usageSegment);
  }

  lemma CachedImages(g: Geometry, st: LogState)
    requires g.Ok() && LogInv(g, st)
    ensures forall c :: c in st.cache ==> c.number in st.image && c == st.image[c.number]
    ensures forall s :: s in st.image ==> st.image[s].number == s
  {
  }

  /** Reordering, loading and evicting cache entries changes nothing else. */
  lemma RequeueKeeps(g: Geometry, st: LogState, cache: seq<Segment>)
    requires g.Ok() && LogInv(g, st)
    requires forall c :: c in cache ==> c.number in st.image && c == st.image[c.number]
    ensures LogInv(g, st.(cache := cache))
  {
    CacheKeeps(g, st, cache);
  }

  lemma ImageShape(g: Geometry, st: LogState, s: word)
    requires g.Ok() && LogInv(g, st) && s in st.image
    ensures s < g.flashSize && |st.image[s].inums| == g.segmentSize
    ensures |st.live| == g.flashSize
  {
  }

  /** The tail Init settles on: the last written segment if its last slot is free, else a clean one. */
  function RecoveredTail(g: Geometry, last: Segment, live: seq<word>): Segment
    requires g.Ok() && |live| == g.flashSize
  {
    if |last.inums| == g.segmentSize && last.inums[g.segmentSize - 1] == NO_INUM then last
    else Build(g, FirstClean(g, live, g.FirstSegment()))
  }

  lemma RegionSector(g: Geometry, d: seq<byte>, k: nat)
    requires g.Ok() && Sized(g, d) && k < g.SegmentSectors()
    ensures (RingBase(g) + k + 1) * SECTOR_SIZE <= |d| && (k + 1) * SECTOR_SIZE <= g.SegmentBytes()
    ensures d[(RingBase(g) + k) * SECTOR_SIZE..(RingBase(g) + k + 1) * SECTOR_SIZE]
              == SectorOf(SegmentOn(g, d, g.checkpointSegment), k)
  {
    hide Geometry.Ok, Geometry.SegmentBytes, Geometry.SegmentSectors, Sized;
    GeometryFacts(g);
    SegmentOffsets(g, g.checkpointSegment);
    SizedAt(g, d);
    var c, n := g.checkpointSegment, g.SegmentBytes();
    assert (c + 1) * n == c * n + n;
    SliceOfSlice(d, c * n, (c + 1) * n, k * SECTOR_SIZE, (k + 1) * SECTOR_SIZE);
  }

  lemma SliceOfSlice(d: seq<byte>, lo: nat, hi: nat, i: nat, j: nat)
    requires lo <= hi <= |d| && i <= j <= hi - lo
    ensures d[lo..hi][i..j] == d[lo + i..lo + j]
  {
    forall t | 0 <= t < j - i
      ensures d[lo..hi][i..j][t] == d[lo + i..lo + j][t]
    {
      assert d[lo..hi][i + t] == d[lo + i + t];
    }
  }

  lemma EraseRange(g: Geometry, s: nat, blocks: nat)
    requires g.Ok() && s < g.flashSize && g.flashSize * g.SegmentBytes() <= blocks * SECTORS_PER_BLOCK * SECTOR_SIZE
    ensures var e := EraseBlocksPerSegment(g);
            && s * e + e <= blocks
            && forall k: nat :: InSegment(g, s, k) <==> s * e <= BlockOf(k) < s * e + e
  {
    EraseBlocksExact(g);
    hide Geometry.Ok, EraseBlocksPerSegment;
    var e := EraseBlocksPerSegment(g);
    assert s * g.SegmentSectors() == s * e * SECTORS_PER_BLOCK by { assert s * (e * SECTORS_PER_BLOCK) == s * e * SECTORS_PER_BLOCK; }
    assert (s + 1) * g.SegmentSectors() == s * g.SegmentSectors() + g.SegmentSectors();
    SegmentOffsets(g, s);
  }
}
