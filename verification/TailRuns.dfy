/** Runs of the log's tail: when it seals, and when the tail it moves on to is one the cache still holds. */
module TailRuns {
  import opened Words
  import opened FlashLayer
  import opened Segments
  import opened INodes
  import opened SegmentCaches
  import opened LogModel
  import opened Layout
  import opened LogLayer

  // ---- How many writes a seal takes ----------------------------------------------------------

  /** What a client does to the tail: write a block for inode inum, or free the block in slot b. */
  datatype TailOp = Take(inum: i32) | Give(b: nat)

  function TailStep(inums: seq<i32>, op: TailOp): (after: seq<i32>)
    ensures |after| == |inums|
  {
    match op
    case Take(inum) => var b := FirstFree(inums, 1); if b < |inums| then inums[b := inum] else inums
    case Give(b) => if b < |inums| then inums[b := NO_INUM] else inums
  }

  /** The tail's owners after a run that starts on an empty tail of n slots. */
  function TailRun(n: nat, ops: seq<TailOp>): (inums: seq<i32>)
    ensures |inums| == n
  {
    if ops == [] then Column(n, NO_INUM) else TailStep(TailRun(n, ops[..|ops| - 1]), ops[|ops| - 1])
  }

  /** Writes find room, since a full tail is sealed at once; only occupied slots are freed. */
  predicate OpOk(inums: seq<i32>, op: TailOp) {
    match op
    case Take(inum) => inum >= 0 && FirstFree(inums, 1) < |inums|
    case Give(b) => 1 <= b < |inums| && inums[b] != NO_INUM
  }

  predicate RunOk(n: nat, ops: seq<TailOp>) {
    ops != [] ==> RunOk(n, ops[..|ops| - 1]) && OpOk(TailRun(n, ops[..|ops| - 1]), ops[|ops| - 1])
  }

  function Takes(ops: seq<TailOp>): nat {
    if ops == [] then 0 else Takes(ops[..|ops| - 1]) + if ops[|ops| - 1].Take? then 1 else 0
  }

  lemma {:induction false} RunCount(n: nat, ops: seq<TailOp>)
    requires n >= 1 && RunOk(n, ops)
    ensures Occupied(TailRun(n, ops), n) == 2 * Takes(ops) - |ops|
  {
    var inums := TailRun(n, ops);
    if ops == [] {
      NoneTaken(Column(n, NO_INUM), n);
    } else {
      var before, op := ops[..|ops| - 1], ops[|ops| - 1];
      RunCount(n, before);
      match op
      case Take(inum) => OccupiedChange(TailRun(n, before), FirstFree(TailRun(n, before), 1), inum, n);
      case Give(b) => OccupiedChange(TailRun(n, before), b, NO_INUM, n);
    }
  }

  /** From an empty tail the seal comes exactly when writes exceed frees of tail slots by segmentSize - 1. */
  lemma SealsWhen(n: nat, ops: seq<TailOp>)
    requires n >= 1 && RunOk(n, ops)
    ensures (forall b :: 1 <= b < n ==> TailRun(n, ops)[b] != NO_INUM) <==> Takes(ops) == n - 1 + (|ops| - Takes(ops))
  {
    RunCount(n, ops);
    OccupiedFull(TailRun(n, ops), n);
  }

  /** The steps are Log_Write's placement and Log_Free's clearing. */
  lemma StepsAreTheLogs(g: Geometry, tail: Segment, inum: i32, fileBlock: i32, block: seq<byte>, b: word)
    requires g.Ok() && WellFormed(g, tail) && |block| == g.BlockBytes()
    ensures Build(g, tail.number).inums == TailRun(g.segmentSize, [])
    ensures b < g.segmentSize ==> Cleared(tail, b).inums == TailStep(tail.inums, Give(b))
    ensures var k := FirstFree(tail.inums, 1);
            1 <= k < g.segmentSize ==> Placed(g, tail, k, inum, fileBlock, block).inums == TailStep(tail.inums, Take(inum))
  {
  }

  // ---- A tail that is still cached -------------------------------------------------------------

  /** The segment a seal of st's tail moves on to. */
  function NextTailOf(g: Geometry, st: LogState): word
    requires g.Ok() && |st.live| == g.flashSize && st.tail.number < g.flashSize
  {
    FirstClean(g, st.live[st.tail.number := Wrap((g.segmentSize - 1) * g.BlockBytes())], g.FirstSegment())
  }

  /** After a seal the new tail is cached exactly if its segment was among the size - 1 most recently used before. */
  lemma StaleTail(g: Geometry, st: LogState, after: LogState, size: nat)
    requires g.Ok() && SealedFrom(g, st, after, size) && |st.cache| <= size
    ensures Cached(after.cache, after.tail.number) <==>
              exists i :: 0 <= i < |st.cache| && i < size - 1 && st.cache[i].number == NextTailOf(g, st)
  {
    hide Geometry.Ok, Geometry.BlockBytes;
    var p := after.cache;
    assert p[0] == st.tail;
    assert forall i :: 0 < i < |p| ==> p[i] == st.cache[i - 1];
    if i :| 0 <= i < |st.cache| && i < size - 1 && st.cache[i].number == NextTailOf(g, st) {
      assert p[i + 1] == st.cache[i];
    }
  }

  // ---- A run that gets there --------------------------------------------------------------------

  /** The tail was filled with blocks of inode 0 and sealed; nothing else is held differently. */
  ghost predicate FilledFrom(g: Geometry, st: LogState, after: LogState, size: nat)
    requires g.Ok()
  {
    var t := st.tail.number;
    && t in after.image && after.image == st.image[t := after.image[t]]
    && WellFormed(g, after.image[t]) && after.image[t].number == t && Full(g, after.image[t])
    && size >= 1 && after.cache == Pushed(st.cache, size, after.image[t])
    && |st.live| == |after.live| == g.flashSize && t < g.flashSize
    && after.live == st.live[t := Wrap((g.segmentSize - 1) * g.BlockBytes())]
    && after.tail == Build(g, FirstClean(g, after.live, g.FirstSegment())) && after.tail.number != t
    && (forall b: word :: 1 <= b < g.segmentSize ==> Addr(t, b) in after.held)
    && (forall a: Addr :: a.seg != t ==> (a in after.held <==> a in st.held))
  }

  /** Before the seal: only free slots of the tail have been filled. */
  ghost predicate FillingFrom(st: LogState, now: LogState) {
    && now.tail.number == st.tail.number && now.image == st.image && now.cache == st.cache && now.live == st.live
    && (forall a: Addr :: a.seg != st.tail.number ==> (a in now.held <==> a in st.held))
  }

  lemma NextFree(inums: seq<i32>, inum: i32)
    requires FirstFree(inums, 1) < |inums| && inum >= 0
    ensures FirstFree(inums[FirstFree(inums, 1) := inum], 1) > FirstFree(inums, 1)
  {
  }

  lemma FullHeld(g: Geometry, st: LogState)
    requires g.Ok() && Consistent(g, st) && Full(g, st.tail)
    ensures forall b: word :: 1 <= b < g.segmentSize ==> Addr(st.tail.number, b) in st.held
    ensures WellFormed(g, st.tail)
  {
  }

  lemma FillingSealed(g: Geometry, st: LogState, full: LogState, after: LogState, size: nat)
    requires g.Ok() && FillingFrom(st, full) && Consistent(g, full) && WellFormed(g, full.tail) && Full(g, full.tail)
    requires SealedFrom(g, full, after, size)
    ensures FilledFrom(g, st, after, size)
  {
    hide Consistent, Stores, Full, WellFormed, Build, Pushed, FirstClean;
    FullHeld(g, full);
  }

  /** The state a write of a block of inode 0 leaves before any seal. */
  lemma PlaceIs(log: Log, block: seq<byte>)
    requires log.Ready() && log.g.InLog(log.tail.number) && |block| == log.g.BlockBytes()
    ensures var full, b := log.AfterPlace(0, 0, Data(0), block), FirstFree(log.tail.inums, 1);
            && 1 <= b < log.g.segmentSize && Consistent(log.g, full) && FirstFree(full.tail.inums, 1) > b
            && full.held == log.held[Addr(log.tail.number, b) := Slot(0, 0, Data(0), block)]
            && (Full(log.g, full.tail) <==> b == log.g.segmentSize - 1)
  {
    hide LogInv, Consistent, Log.Structure, Log.States, Log.Durable, Geometry.Ok, Geometry.BlockBytes, Full, FirstFree,
         PutChunk, WellFormed;
    FreeSlot(log.g, log.State());
    PlaceReady(log.g, log.State(), FirstFree(log.tail.inums, 1), Slot(0, 0, Data(0), block));
    NextFree(log.tail.inums, 0);
  }

  lemma SealedMoves(g: Geometry, st: LogState, after: LogState, size: nat)
    requires g.Ok() && SealedFrom(g, st, after, size)
    ensures after.tail.number != st.tail.number
  {
  }

  /** Everything held before still is; whatever else is held is this block, tagged as the table's first, in segment t. */
  ghost predicate Padded(h: Held, h': Held, t: word, block: seq<byte>) {
    && (forall a :: a in h ==> a in h' && h'[a] == h[a])
    && (forall a :: a in h' ==> a in h || (a.seg == t && h'[a] == Slot(0, 0, Data(0), block)))
  }

  /** A seal that left the log on this tail: counted, and if a checkpoint was due and the ring not over, one was written. */
  ghost predicate SealStep(g: Geometry, interval: nat, p: Pace, p': Pace, tail: word) {
    && SealPaced(g, interval, p, p')
    && (p.writes + 1 >= interval && p.calls + 1 < g.SegmentSectors() ==> p'.last.lastSegmentWritten == Wrap(tail - 1))
  }

  /** A tail that can be written takes blocks until its last slot is taken; each of those writes succeeds. */
  method FillTail(log: Log, block: seq<byte>)
    requires log.Ready() && !log.TailCached() && log.g.InLog(log.tail.number) && log.Sealable() && |block| == log.g.BlockBytes()
    modifies log, log.cache, log.flash, log.flash.data, log.flash.full, log.flash.wear
    ensures log.Ready() && log.failures == old(log.failures)
    ensures FilledFrom(log.g, old(log.State()), log.State(), log.cache.size)
    ensures !log.recoveredWithPartialSegment && log.unwritten == old(log.unwritten) - {old(log.tail.number)}
    ensures Padded(old(log.held), log.held, old(log.tail.number), block) && log.iFileINode == old(log.iFileINode)
    ensures log.checkpoints <= old(log.checkpoints) + 1
    ensures SealStep(log.g, log.checkpointInterval, old(log.Pacing()), log.Pacing(), log.tail.number)
    ensures WornBy(SEAL_WEAR, old(log.flash.wear[..]), log.flash.wear[..])
  {
    hide Geometry.SegmentSectors, Recoverable, Log.Saving, Log.BeforeTailFull, WornBy, FreeSlots, SealPaced, Log.Stock, Log.Jammed, Ends;
    hide LogInv, Consistent, Log.Structure, Log.States, Log.Durable, Geometry.Ok, Geometry.BlockBytes, Full, SealedFrom,
         Log.AfterPlace, FilledFrom, FirstFree, Clear, Erasable, WellFormed;
    ghost var st := log.State();
    var t := log.tail.number;
    var sealed := false;
    while !sealed
      invariant log.Ready() && log.failures == old(log.failures)
      invariant !sealed ==> FillingFrom(st, log.State()) && log.g.InLog(log.tail.number) && log.Sealable() && log.unwritten == old(log.unwritten)
      invariant sealed ==> FilledFrom(log.g, st, log.State(), log.cache.size)
      invariant Padded(st.held, log.held, t, block) && log.iFileINode == old(log.iFileINode)
      invariant if sealed then log.checkpoints <= old(log.checkpoints) + 1 else log.checkpoints == old(log.checkpoints)
      invariant if sealed then SealStep(log.g, log.checkpointInterval, old(log.Pacing()), log.Pacing(), log.tail.number)
                else log.Pacing() == old(log.Pacing())
      invariant if sealed then WornBy(SEAL_WEAR, old(log.flash.wear[..]), log.flash.wear[..]) else log.flash.wear[..] == old(log.flash.wear[..])
      invariant sealed ==> !log.recoveredWithPartialSegment && log.unwritten == old(log.unwritten) - {t}
      decreases !sealed, log.g.segmentSize - FirstFree(log.tail.inums, 1)
    {
      ghost var full := log.AfterPlace(0, 0, Data(0), block);
      PlaceIs(log, block);
      SegmentBound(log.g, log.State());
      assert Signed(0) == 0;
      var r, a := log.Write(0, 0, Data(0), block);
      sealed := log.tail.number != t;
      if Full(log.g, full.tail) {
        SealedMoves(log.g, full, log.State(), log.cache.size);
        FillingSealed(log.g, st, full, log.State(), log.cache.size);
      }
    }
  }

  // ---- Writes short of a seal -------------------------------------------------------------------

  /** What a write that does not seal leaves alone. */
  datatype Setting = Setting(tail: word, image: map<word, Segment>, cache: seq<Segment>, live: seq<word>, unwritten: set<word>,
                             sealable: bool, wear: seq<nat>, iFileINode: INode, failures: nat, disk: Disk)

  ghost function SettingOf(log: Log): Setting
    reads log, log.cache, log.flash, log.flash.data, log.flash.full, log.flash.wear
  {
    Setting(log.tail.number, log.image, log.cache.queue, log.live, log.unwritten, log.Sealable(), log.flash.wear[..], log.iFileINode,
            log.failures, log.OnDisk())
  }

  lemma SettingHas(log: Log)
    ensures var s := SettingOf(log);
            s.tail == log.tail.number && s.sealable == log.Sealable() && s.iFileINode == log.iFileINode && s.failures == log.failures
  {
  }

  lemma AfterPlaceIs(log: Log, inum: i32, fileBlock: i32, role: Role, block: seq<byte>)
    requires log.Ready() && log.g.InLog(log.tail.number) && inum >= 0 && |block| == log.g.BlockBytes()
    ensures FreeSlots(log.AfterPlace(inum, fileBlock, role, block).tail) == FreeSlots(log.tail) - 1
  {
    hide LogInv, Consistent, Log.Structure, Log.States, Log.Durable, Geometry.Ok, Geometry.BlockBytes, Full, FirstFree, FreeSlots, WellFormed;
    FreeSlot(log.g, log.State());
    PlaceReady(log.g, log.State(), FirstFree(log.tail.inums, 1), Slot(inum, fileBlock, role, block));
  }

  /** Every lower slot of the segment is held. */
  ghost predicate HeldBelow(h: Held, a: Addr) {
    forall b: word :: 1 <= b < a.slot ==> Addr(a.seg, b) in h
  }

  lemma FirstFit(g: Geometry, st: LogState)
    requires g.Ok() && LogInv(g, st)
    ensures FirstFree(st.tail.inums, 1) < UINT_MAX && HeldBelow(st.held, Addr(st.tail.number, FirstFree(st.tail.inums, 1)))
  {
    hide Stores, LiveOk, Geometry.BlockBytes;
    FreeSlot(g, st);
    GeometryFacts(g);
  }

  /** With one slot free it is the last one. */
  lemma OnlyLastFree(g: Geometry, st: LogState)
    requires g.Ok() && LogInv(g, st) && FreeSlots(st.tail) == 1
    ensures g.segmentSize < UINT_MAX && HeldBelow(st.held, Addr(st.tail.number, g.segmentSize - 1))
  {
    hide Stores, LiveOk, Geometry.BlockBytes;
    GeometryFacts(g);
    OccupiedFull(st.tail.inums, g.segmentSize - 1);
  }

  /** A block written to a tail with another slot to spare: it goes to the first slot that is not held. */
  method Put(log: Log, inum: word, fileBlock: word, ghost role: Role, block: seq<byte>) returns (a: Addr)
    requires log.Valid() && log.Stock().room > 1 && log.g.InLog(log.tail.number) && |block| == log.g.BlockBytes() && inum < 0x8000_0000
    modifies log, log.cache, log.flash, log.flash.data, log.flash.full, log.flash.wear
    ensures log.Valid() && SettingOf(log) == old(SettingOf(log)) && log.Stock().room == old(log.Stock().room) - 1
    ensures a.seg == log.tail.number && 1 <= a.slot < log.g.segmentSize && a !in old(log.held)
    ensures log.held == old(log.held)[a := Slot(inum, Signed(fileBlock), role, block)] && HeldBelow(old(log.held), a)
  {
    hide LogInv, Consistent, Log.Structure, Log.States, Log.Durable, Geometry.Ok, Geometry.BlockBytes, Full, FirstFree, FreeSlots,
         WellFormed, SealedFrom, WornBy, Clear, HeldBelow;
    NotFull(log.g, log.tail.number);
    FirstFit(log.g, log.State());
    AfterPlaceIs(log, Signed(inum), Signed(fileBlock), role, block);
    var r;
    r, a := log.Write(inum, fileBlock, role, block);
  }

  lemma NotFull(g: Geometry, s: word)
    requires g.Ok() && g.InLog(s)
    ensures s != FLASH_FULL && s != UINT_MAX
  {
    GeometryFacts(g);
  }

  /** Blocks tagged as the table's first until one slot of the tail is free. */
  method PadTail(log: Log, block: seq<byte>)
    requires log.Valid() && log.Stock().room >= 1 && log.g.InLog(log.tail.number) && |block| == log.g.BlockBytes()
    modifies log, log.cache, log.flash, log.flash.data, log.flash.full, log.flash.wear
    ensures log.Valid() && SettingOf(log) == old(SettingOf(log)) && log.Stock().room == 1
    ensures Padded(old(log.held), log.held, log.tail.number, block)
  {
    hide Log.Valid, Geometry.Ok, Geometry.BlockBytes, FreeSlots, Log.Sealable;
    while FreeSlots(log.tail) > 1
      invariant log.Valid() && SettingOf(log) == old(SettingOf(log)) && FreeSlots(log.tail) >= 1
      invariant Padded(old(log.held), log.held, log.tail.number, block)
      decreases FreeSlots(log.tail)
    {
      assert Signed(0) == 0;
      var a := Put(log, 0, 0, Data(0), block);
    }
  }

  /** A block written to the last free slot of a tail that can be sealed. */
  method PutLast(log: Log, inum: word, fileBlock: word, ghost role: Role, block: seq<byte>) returns (a: Addr)
    requires log.Valid() && log.Stock().room == 1 && log.g.InLog(log.tail.number) && |block| == log.g.BlockBytes() && inum < 0x8000_0000
    requires log.Sealable()
    modifies log, log.cache, log.flash, log.flash.data, log.flash.full, log.flash.wear
    ensures log.Ready() && log.failures == old(log.failures) && log.iFileINode == old(log.iFileINode)
    ensures a.seg == old(log.tail.number) && 1 <= a.slot < log.g.segmentSize && a !in old(log.held)
    ensures log.held == old(log.held)[a := Slot(inum, Signed(fileBlock), role, block)]
    ensures exists st :: SealedFrom(log.g, st, log.State(), log.cache.size) && st.tail.number == old(log.tail.number)
                         && st.image == old(log.image) && st.cache == old(log.cache.queue) && st.live == old(log.live)
                         && WellFormed(log.g, st.tail) && Full(log.g, st.tail)
    ensures !log.recoveredWithPartialSegment && log.unwritten == old(log.unwritten) - {old(log.tail.number)}
    ensures log.checkpoint.iFileINode == log.iFileINode && log.tail.number != old(log.tail.number)
    ensures old(log.Saving()) && log.monotone ==>
              (Recoverable(log.g, log.OnDisk(), log.State().(cache := []), log.iFileINode) <==> log.BeforeTailFull())
    ensures WornBy(SEAL_WEAR, old(log.flash.wear[..]), log.flash.wear[..])
  {
    hide LogInv, Consistent, Log.Structure, Log.States, Log.Durable, Geometry.Ok, Geometry.BlockBytes, Full, FirstFree, FreeSlots,
         WellFormed, SealedFrom, WornBy, Clear, Log.Sealable, Log.Saving, Recoverable, Log.BeforeTailFull;
    NotFull(log.g, log.tail.number);
    ghost var st := log.AfterPlace(Signed(inum), Signed(fileBlock), role, block);
    var r;
    r, a := log.Write(inum, fileBlock, role, block);
    SealedMoves(log.g, st, log.State(), log.cache.size);
  }

  /** A block of the tail given up: its slot is free again, every other one is as it was. */
  method GiveBack(log: Log, a: Addr)
    requires log.Valid() && a in log.held && a.seg == log.tail.number && log.g.InLog(log.tail.number)
    modifies log`tail, log`live, log`held
    ensures log.Valid() && log.tail.number == old(log.tail.number) && log.held == old(log.held) - {a}
    ensures log.Stock().room == old(log.Stock().room) + 1 && log.Sealable() == old(log.Sealable())
  {
    hide LogInv, Log.Structure, Log.States, Log.Durable, Geometry.Ok, Geometry.BlockBytes, FreeSlots, Stores;
    NotFull(log.g, log.tail.number);
    Occupies(log.g, log.State(), a);
    log.Free(a);
  }

  lemma Occupies(g: Geometry, st: LogState, a: Addr)
    requires g.Ok() && LogInv(g, st) && a in st.held && a.seg == st.tail.number && st.tail.number != FLASH_FULL
    ensures a.slot < |st.tail.inums| && a.slot < |st.tail.fileBlocks|
    ensures FreeSlots(Cleared(st.tail, a.slot)) == FreeSlots(st.tail) + 1
  {
    hide FreeSlots, LiveOk, Geometry.Ok, Geometry.BlockBytes, BlockAt;
    assert Stores(g, st.tail, a.slot, st.held[a]);
    ClearedRoom(st.tail, a.slot);
  }

  lemma CleanAt(g: Geometry, live: seq<word>, n: nat)
    requires g.Ok() && |live| == g.flashSize && g.FirstSegment() <= n < g.flashSize && live[n] == 0
    requires forall s :: g.FirstSegment() <= s < n ==> live[s] != 0
    ensures FirstClean(g, live, g.FirstSegment()) == n < FLASH_FULL
  {
    GeometryFacts(g);
    hide Geometry.Ok;
    assert live[n] == 0;
  }

  lemma PushedOne(q: seq<Segment>, x: Segment)
    requires |q| <= 1
    ensures Pushed(q, 1, x) == [x]
  {
  }

  lemma BuiltNumber(g: Geometry, s: word)
    requires g.Ok()
    ensures Build(g, s).number == s
  {
  }

  /** The first seal moves on to the second log segment, and nothing but the first is cached. */
  lemma MovedOn(g: Geometry, st: LogState, after: LogState, size: nat)
    requires g.Ok() && SealedFrom(g, st, after, size) && st.tail.number == g.FirstSegment() && st.cache == []
    requires g.FirstSegment() + 1 < g.flashSize && st.live[g.FirstSegment() + 1] == 0
    ensures var f := g.FirstSegment();
            && after.tail.number == f + 1 && FreeSlots(after.tail) == g.segmentSize - 1 && HeldIn(after.held, f + 1) == {}
            && !Cached(after.cache, f + 1) && (forall c :: c in after.cache ==> c.number == f)
            && |after.live| == g.flashSize && after.live[f] != 0 && forall s :: f < s < g.flashSize ==> after.live[s] == st.live[s]
  {
    hide Geometry.Ok, Geometry.BlockBytes, WellFormed, FreeSlots, FirstClean, Build, HeldIn, Wrap;
    LiveAfter(g, st.live, st.tail.number);
    CleanAt(g, after.live, g.FirstSegment() + 1);
    BuiltNumber(g, g.FirstSegment() + 1);
    BuiltRoom(g, g.FirstSegment() + 1);
  }

  // ---- Filling the log -------------------------------------------------------------------------

  /** Nothing was freed yet: but for the tail, a log segment is live exactly if it was written, and only those are cached. */
  ghost predicate NothingFreed(g: Geometry, st: LogState, unwritten: set<word>)
    requires g.Ok()
  {
    && (st.tail.number == FLASH_FULL || (g.InLog(st.tail.number) && !Cached(st.cache, st.tail.number)))
    && (forall s :: s in unwritten ==> g.InLog(s)) && (forall c :: c in st.cache ==> c.number !in unwritten)
    && |st.live| == g.flashSize
    && forall s: word :: g.InLog(s) && s != st.tail.number ==> (st.live[s] == 0 <==> s in unwritten)
  }

  lemma FilledOn(g: Geometry, st: LogState, after: LogState, size: nat, unwritten: set<word>)
    requires g.Ok() && NothingFreed(g, st, unwritten) && st.tail.number != FLASH_FULL
    requires FilledFrom(g, st, after, size) && |st.cache| <= size
    ensures NothingFreed(g, after, unwritten - {st.tail.number})
    ensures if after.tail.number == FLASH_FULL then unwritten - {st.tail.number} == {} else after.tail.number in unwritten - {st.tail.number}
    ensures after.live[st.tail.number] == Wrap((g.segmentSize - 1) * g.BlockBytes())
    ensures forall s: word :: g.InLog(s) && s != st.tail.number ==> after.live[s] == st.live[s]
  {
    hide Geometry.Ok, Geometry.BlockBytes, Full, WellFormed, Pushed;
    LiveAfter(g, st.live, st.tail.number);
    CleanInLog(g, after.live);
    GeometryFacts(g);
    var x := after.image[st.tail.number];
    PushedMembers(st.cache, size, x);
    var t := after.tail.number;
    if Cached(after.cache, t) {
      var i :| 0 <= i < |after.cache| && after.cache[i].number == t;
      assert after.cache[i] in after.cache;
    }
  }

  /** The paces of a run of seals, with the tail each of them moved on to. */
  ghost predicate SealRun(g: Geometry, interval: nat, paces: seq<Pace>, tails: seq<word>) {
    |paces| == |tails| >= 1 && forall i :: 0 < i < |paces| ==> SealStep(g, interval, paces[i - 1], paces[i], tails[i])
  }

  lemma NoSealYet(g: Geometry, interval: nat, p: Pace, tail: word)
    ensures SealRun(g, interval, [p], [tail])
  {
  }

  lemma OneMoreSeal(g: Geometry, interval: nat, paces: seq<Pace>, tails: seq<word>, p: Pace, tail: word)
    requires SealRun(g, interval, paces, tails) && SealStep(g, interval, paces[|paces| - 1], p, tail)
    ensures SealRun(g, interval, paces + [p], tails + [tail])
  {
    hide SealStep;
  }

  /**
   * As long as nothing is freed no write fails before the log is full: the free slots of the tail and every slot of every
   * unwritten segment can be written.
   */
  method FillLog(log: Log, block: seq<byte>) returns (ghost paces: seq<Pace>, ghost tails: seq<word>)
    requires log.g.Ok() && log.Ready() && NothingFreed(log.g, log.State(), log.unwritten) && log.tail.number != FLASH_FULL && log.Sealable()
    requires |block| == log.g.BlockBytes()
    modifies log, log.cache, log.flash, log.flash.data, log.flash.full, log.flash.wear
    ensures log.Ready() && log.failures == old(log.failures)
    ensures log.tail.number == FLASH_FULL && |log.live| == log.g.flashSize
    ensures forall s: word :: log.g.InLog(s) && (s in old(log.unwritten) || s == old(log.tail.number)) ==>
              log.live[s] == Wrap((log.g.segmentSize - 1) * log.g.BlockBytes())
    ensures SealRun(log.g, log.checkpointInterval, paces, tails) && paces[0] == old(log.Pacing()) && paces[|paces| - 1] == log.Pacing()
    ensures |paces| > |old(log.unwritten) + {old(log.tail.number)}|
  {
    hide Log.Pacing, Padded, WornBy, SealRun, SealStep;
    hide Geometry.Ok, Geometry.BlockBytes, FilledFrom, Log.Sealable, NothingFreed, Log.Ready, Left;
    ghost var st0, u0, written := log.State(), log.unwritten, {};
    FillStarts(log.g, st0, u0);
    hide Filled;
    paces, tails := [log.Pacing()], [log.tail.number];
    NoSealYet(log.g, log.checkpointInterval, log.Pacing(), log.tail.number);
    while log.tail.number != FLASH_FULL
      invariant log.Ready() && log.failures == old(log.failures)
      invariant NothingFreed(log.g, log.State(), log.unwritten)
      invariant log.tail.number != FLASH_FULL ==> log.Sealable()
      invariant Filled(log.g, st0.tail.number, u0, log.State(), log.unwritten, written)
      invariant |paces| == |tails| == |written| + 1 && SealRun(log.g, log.checkpointInterval, paces, tails)
      invariant paces[0] == old(log.Pacing()) && paces[|paces| - 1] == log.Pacing()
      decreases Left(log.unwritten, log.tail.number), log.tail.number != FLASH_FULL
    {
      ghost var st, u := log.State(), log.unwritten;
      TailFresh(log.g, st, u);
      log.RoomInCache();
      NotYetWritten(log.g, st0.tail.number, u0, st, u, written);
      FillTail(log, block);
      FilledOn(log.g, st, log.State(), log.cache.size, u);
      FilledMore(log.g, st0.tail.number, u0, st, u, written, log.State(), log.cache.size);
      written := written + {st.tail.number};
      OneMoreSeal(log.g, log.checkpointInterval, paces, tails, log.Pacing(), log.tail.number);
      paces, tails := paces + [log.Pacing()], tails + [log.tail.number];
      LeftLess(u, st.tail.number, log.tail.number);
      if log.tail.number != FLASH_FULL {
        log.UnwrittenTail();
        OneLess(u, st.tail.number, log.tail.number);
      }
    }
    FilledAll(log.g, st0.tail.number, u0, log.State(), log.unwritten, written);
  }

  lemma NotYetWritten(g: Geometry, t0: word, u0: set<word>, st: LogState, unwritten: set<word>, written: set<word>)
    requires g.Ok() && Filled(g, t0, u0, st, unwritten, written)
    ensures st.tail.number !in written
  {
  }

  /** Every segment there was to write has been filled, is still unwritten, or is the tail. */
  ghost predicate Filled(g: Geometry, t0: word, u0: set<word>, st: LogState, unwritten: set<word>, written: set<word>)
    requires g.Ok()
  {
    && |st.live| == g.flashSize && written !! unwritten && st.tail.number !in written
    && (st.tail.number == FLASH_FULL ==> unwritten == {})
    && (forall s :: s in u0 || s == t0 ==> s in written || s in unwritten || s == st.tail.number)
    && (forall s :: s in written ==> g.InLog(s) && st.live[s] == Wrap((g.segmentSize - 1) * g.BlockBytes()))
  }

  lemma FillStarts(g: Geometry, st: LogState, unwritten: set<word>)
    requires g.Ok() && NothingFreed(g, st, unwritten) && st.tail.number != FLASH_FULL
    ensures Filled(g, st.tail.number, unwritten, st, unwritten, {}) && forall s :: s in unwritten ==> g.InLog(s)
  {
    hide Geometry.Ok, Geometry.BlockBytes;
  }

  lemma FilledMore(g: Geometry, t0: word, u0: set<word>, st: LogState, unwritten: set<word>, written: set<word>,
                   after: LogState, size: nat)
    requires g.Ok() && NothingFreed(g, st, unwritten) && st.tail.number != FLASH_FULL && |st.cache| <= size
    requires Filled(g, t0, u0, st, unwritten, written) && FilledFrom(g, st, after, size)
    ensures Filled(g, t0, u0, after, unwritten - {st.tail.number}, written + {st.tail.number})
  {
    hide Geometry.Ok, Geometry.BlockBytes, NothingFreed, FilledFrom, Wrap;
    FilledOn(g, st, after, size, unwritten);
    NothingFreedSize(g, after, unwritten - {st.tail.number});
    TailFresh(g, st, unwritten);
    GeometryFacts(g);
  }

  lemma FilledAll(g: Geometry, t0: word, u0: set<word>, st: LogState, unwritten: set<word>, written: set<word>)
    requires g.Ok() && Filled(g, t0, u0, st, unwritten, written) && st.tail.number == FLASH_FULL && t0 != FLASH_FULL
    requires forall s :: s in u0 ==> g.InLog(s)
    ensures |st.live| == g.flashSize && |u0 + {t0}| <= |written|
    ensures forall s: word :: g.InLog(s) && (s in u0 || s == t0) ==> st.live[s] == Wrap((g.segmentSize - 1) * g.BlockBytes())
  {
    hide Geometry.Ok, Geometry.BlockBytes, Wrap;
    GeometryFacts(g);
    SubsetSize(u0 + {t0}, written);
  }

  /** Segments still to be filled after the tail. */
  ghost function Left(unwritten: set<word>, tail: word): nat {
    |unwritten - {tail}|
  }

  lemma OneLess(unwritten: set<word>, t: word, next: word)
    requires next in unwritten - {t}
    ensures Left(unwritten - {t}, next) < Left(unwritten, t)
  {
    assert unwritten - {t} == (unwritten - {t} - {next}) + {next};
  }

  lemma LeftLess(unwritten: set<word>, t: word, next: word)
    ensures Left(unwritten - {t}, next) <= Left(unwritten, t)
  {
    SubsetSize(unwritten - {t} - {next}, unwritten - {t});
  }

  lemma TailFresh(g: Geometry, st: LogState, unwritten: set<word>)
    requires g.Ok() && NothingFreed(g, st, unwritten) && st.tail.number != FLASH_FULL
    ensures g.InLog(st.tail.number) && !Cached(st.cache, st.tail.number)
  {
  }

  lemma NothingFreedSize(g: Geometry, st: LogState, unwritten: set<word>)
    requires g.Ok() && NothingFreed(g, st, unwritten)
    ensures |st.live| == g.flashSize
  {
  }

  lemma NoneLive(g: Geometry, st: LogState, s: word)
    requires g.Ok() && LogInv(g, st) && g.InLog(s) && s != st.tail.number
    requires forall b: word :: 1 <= b < g.segmentSize ==> Addr(s, b) !in st.held
    ensures s < |st.live| && st.live[s] == 0
  {
    hide Geometry.BlockBytes, Stores;
    assert HeldIn(st.held, s) == {};
  }

  /** Freeing every block of a sealed segment brings its live count down to zero. */
  method FreeSegment(log: Log, s: word)
    requires log.Ready() && log.g.InLog(s) && s != log.tail.number
    requires forall b: word :: 1 <= b < log.g.segmentSize ==> Addr(s, b) in log.held
    modifies log`tail, log`live, log`held
    ensures log.Ready() && log.tail == old(log.tail) && |log.live| == |old(log.live)| && s < |log.live|
    ensures log.live[s] == 0 && forall r: word :: r < |log.live| && r != s ==> log.live[r] == old(log.live)[r]
  {
    hide LogInv, Log.Structure, Log.States, Log.Durable, Geometry.Ok, Geometry.BlockBytes;
    SegmentBound(log.g, log.State());
    var b: word := 1;
    while b < log.g.segmentSize
      invariant 1 <= b <= log.g.segmentSize && log.Ready() && log.tail == old(log.tail)
      invariant forall c: word :: b <= c < log.g.segmentSize ==> Addr(s, c) in log.held
      invariant forall c: word :: 1 <= c < b ==> Addr(s, c) !in log.held
      invariant |log.live| == |old(log.live)| && forall r: word :: r < |log.live| && r != s ==> log.live[r] == old(log.live)[r]
    {
      log.Free(Addr(s, b));
      b := b + 1;
    }
    NoneLive(log.g, log.State(), s);
  }

  lemma SegmentBound(g: Geometry, st: LogState)
    requires g.Ok() && LogInv(g, st)
    ensures g.segmentSize < UINT_MAX && g.segmentSize >= 16 && |st.live| == g.flashSize < FLASH_FULL
  {
    GeometryFacts(g);
  }

  /** The log is about to fill the first log segment, with the next one unwritten behind it. */
  ghost predicate AtFirst(log: Log)
    reads log, log.Repr, log.cache, log.flash, log.flash.Repr
  {
    var f := log.g.FirstSegment();
    && log.Ready() && log.tail.number == f && log.cache.queue == [] && log.Sealable()
    && f + 1 < log.g.flashSize && f + 1 < |log.live| && log.live[f + 1] == 0 && (f + 1) in log.unwritten
  }

  lemma LiveAfter(g: Geometry, live: seq<word>, s: word)
    requires g.Ok() && |live| == g.flashSize && s < g.flashSize
    ensures live[s := Wrap((g.segmentSize - 1) * g.BlockBytes())][s] != 0
  {
    SealedCount(g);
  }

  /** Fill the first segment and free all of it: the second one is the tail, and can be sealed. */
  method FillAndFree(log: Log, block: seq<byte>)
    requires AtFirst(log) && |block| == log.g.BlockBytes()
    modifies log, log.cache, log.flash, log.flash.data, log.flash.full, log.flash.wear
    ensures log.Ready() && log.failures == old(log.failures) && !log.TailCached() && log.Sealable()
    ensures var f := log.g.FirstSegment();
            && log.tail.number == f + 1 && f < |log.live| && log.live[f] == 0 && log.g.InLog(log.tail.number)
            && |log.cache.queue| == 1 && log.cache.queue[0].number == f
            && f in log.image && WellFormed(log.g, log.image[f]) && Full(log.g, log.image[f])
    ensures log.checkpoints <= old(log.checkpoints) + 1
  {
    hide LogInv, Log.Structure, Log.Durable, Geometry.Ok, Geometry.BlockBytes, Geometry.SegmentSectors, Full, WellFormed, Build,
         FilledFrom, Log.States, Log.SegmentEmpty, Log.CanErase, WornBy, Padded;
    SegmentBound(log.g, log.State());
    ghost var st := log.State();
    FillTail(log, block);
    FilledOnce(log.g, st, log.State(), log.cache.size);
    FreeSegment(log, log.g.FirstSegment());
    log.UnwrittenEmpty(log.g.FirstSegment() + 1);
  }

  /**
   * Then fill the second one: every call succeeds, and the seal has come back to the first segment, which the cache still
   * holds.
   */
  method StaleRun(log: Log, block: seq<byte>)
    requires AtFirst(log) && log.cache.size >= 2 && |block| == log.g.BlockBytes()
    modifies log, log.cache, log.flash, log.flash.data, log.flash.full, log.flash.wear
    ensures log.Ready() && log.failures == old(log.failures)
    ensures log.TailCached() && log.tail == Build(log.g, log.g.FirstSegment())
    ensures log.g.FirstSegment() in log.image && WellFormed(log.g, log.image[log.g.FirstSegment()])
    ensures Full(log.g, log.image[log.g.FirstSegment()])
  {
    hide LogInv, Log.Structure, Log.Durable, Geometry.Ok, Geometry.BlockBytes, Geometry.SegmentSectors, Full, WellFormed, Build,
         FilledFrom, Log.States, Log.SegmentEmpty, Log.CanErase, WornBy, Padded;
    FillAndFree(log, block);
    ghost var st := log.State();
    FillTail(log, block);
    FilledTwice(log.g, st, log.State(), log.cache.size);
  }

  /** From the first segment, its successor free, the tail moves on to the successor. */
  lemma FilledOnce(g: Geometry, st: LogState, after: LogState, size: nat)
    requires g.Ok() && FilledFrom(g, st, after, size) && st.tail.number == g.FirstSegment() && st.cache == []
    requires g.FirstSegment() + 1 < g.flashSize && st.live[g.FirstSegment() + 1] == 0
    ensures var f := g.FirstSegment();
            && after.tail.number == f + 1 && |after.live| == g.flashSize
            && f in after.image && |after.cache| == 1 && after.cache[0].number == f
            && after.image[f].number == f && WellFormed(g, after.image[f]) && Full(g, after.image[f])
            && forall b: word :: 1 <= b < g.segmentSize ==> Addr(f, b) in after.held
  {
    hide Geometry.Ok, Geometry.BlockBytes, Full, WellFormed;
    LiveAfter(g, st.live, st.tail.number);
    assert after.live[g.FirstSegment()] != 0 && after.live[g.FirstSegment() + 1] == 0;
    GeometryFacts(g);
  }

  /** From the second segment, nothing live in the first, it moves back to the first, which is still cached. */
  lemma FilledTwice(g: Geometry, st: LogState, after: LogState, size: nat)
    requires g.Ok() && FilledFrom(g, st, after, size) && st.tail.number == g.FirstSegment() + 1
    requires size >= 2 && |st.cache| == 1 && st.cache[0].number == g.FirstSegment() && st.live[g.FirstSegment()] == 0
    ensures after.tail == Build(g, g.FirstSegment()) && Cached(after.cache, g.FirstSegment())
    ensures g.FirstSegment() in st.image ==> g.FirstSegment() in after.image && after.image[g.FirstSegment()] == st.image[g.FirstSegment()]
  {
    hide Geometry.Ok, Geometry.BlockBytes, Full, WellFormed;
    assert after.cache[1] == st.cache[0];
  }

  /** With a cache of one it moves back to the first as well, which has left the cache. */
  lemma BackToFirst(g: Geometry, st: LogState, after: LogState)
    requires g.Ok() && FilledFrom(g, st, after, 1) && st.tail.number == g.FirstSegment() + 1 && st.live[g.FirstSegment()] == 0
    requires |st.cache| <= 1
    ensures after.tail.number == g.FirstSegment() && Wrap(after.tail.number - 1) == g.checkpointSegment
    ensures !Cached(after.cache, g.FirstSegment())
  {
    GeometryFacts(g);
    hide Geometry.Ok, Geometry.BlockBytes, Full, WellFormed, FirstClean, Build, Pushed, Wrap;
    WrapSmall(g.checkpointSegment);
    CleanAt(g, after.live, g.FirstSegment());
    BuiltNumber(g, g.FirstSegment());
    PushedOne(st.cache, after.image[st.tail.number]);
    assert st.tail.number != g.FirstSegment() && after.live[g.FirstSegment()] == st.live[g.FirstSegment()];
  }

  // ---- What is read from there ------------------------------------------------------------------

  /** Looking a segment up leaves it in the cache. */
  lemma LookupStays(before: seq<Segment>, after: seq<Segment>, size: nat, s: word, t: word)
    requires size >= 1 && Cached(before, s) && Numbers(after) == AfterLookup(before, size, s, t)
    ensures Cached(after, s)
  {
    var i :| 0 <= i < |before| && before[i].number == s;
    assert Numbers(before)[i] == s;
    assert Numbers(after)[0] == s;
    assert after[0].number == s;
  }

  /** On a cached tail Log_Read answers from the old segment, whatever has been written to the tail since. */
  method ReadCached(log: Log, a: Addr) returns (r: Outcome, block: seq<byte>)
    requires log.Ready() && log.TailCached() && a.seg == log.tail.number && 1 <= a.slot < log.g.segmentSize && log.g.InLog(a.seg)
    modifies log.cache
    ensures log.Ready() && log.TailCached() && a.seg in log.image
    ensures r == if Dead(log.image[a.seg], a.slot) then Thrown else Done
    ensures r == Done ==> Fetched(log.g, log.image[a.seg], a.slot, block)
  {
    hide LogInv, Log.Structure, Log.States, Log.Durable, Geometry.Ok, Geometry.BlockBytes, WellFormed, BlockAt, AfterLookup;
    SourceStores(log.g, log.State(), a.seg);
    log.RoomInCache();
    ghost var was := log.cache.queue;
    r, block := log.Read(a);
    LookupStays(was, log.cache.queue, log.cache.size, a.seg, log.tail.number);
  }

  lemma FirstOfBuilt(g: Geometry, s: word)
    requires g.Ok()
    ensures FirstFree(Build(g, s).inums, 1) == 1 && g.segmentSize >= 16
  {
  }

  lemma NoneDead(g: Geometry, s: Segment, b: nat)
    requires g.Ok() && WellFormed(g, s) && Full(g, s) && 1 <= b < g.segmentSize
    ensures !Dead(s, b)
  {
  }

  /** Where a run as above has come to, a block is written, read back, and another one is got. */
  method WriteAndReadBack(log: Log) returns (a: Addr, written: seq<byte>, got: seq<byte>)
    requires log.Ready() && log.TailCached() && log.g.InLog(log.tail.number) && log.tail == Build(log.g, log.tail.number)
    requires log.tail.number in log.image && WellFormed(log.g, log.image[log.tail.number]) && Full(log.g, log.image[log.tail.number])
    modifies log, log.cache, log.flash, log.flash.data, log.flash.full, log.flash.wear
    ensures log.failures == old(log.failures)
    ensures a in log.held && log.held[a].data == written && got != written
  {
    hide LogInv, Consistent, Log.Structure, Log.States, Log.Durable, Geometry.Ok, Geometry.BlockBytes, WellFormed, BlockAt, Build,
         Full, SealedFrom, FirstFree, Log.Sealable, Dead, Log.AfterPlace;
    GeometryFacts(log.g);
    SegmentBound(log.g, log.State());
    FirstOfBuilt(log.g, log.tail.number);
    NoneDead(log.g, log.image[log.tail.number], 1);
    var r, stale;
    r, stale := ReadCached(log, Addr(log.tail.number, 1));
    written := stale[0 := if stale[0] == 0 then 1 else 0];
    PlacedEarly(log, written);
    r, a := log.Write(0, 0, Data(0), written);
    r, got := ReadCached(log, a);
    assert got[0] != written[0];
  }

  lemma PlacedEarly(log: Log, block: seq<byte>)
    requires log.Ready() && log.g.InLog(log.tail.number) && |block| == log.g.BlockBytes() && FirstFree(log.tail.inums, 1) == 1
    ensures Signed(0) == 0 && !Full(log.g, log.AfterPlace(0, 0, Data(0), block).tail)
    ensures log.AfterPlace(0, 0, Data(0), block).held == log.held[Addr(log.tail.number, 1) := Slot(0, 0, Data(0), block)]
  {
    hide LogInv, Consistent, Log.Structure, Log.States, Log.Durable, Geometry.Ok, Geometry.BlockBytes, Full, FirstFree, WellFormed;
    SegmentBound(log.g, log.State());
    PlaceIs(log, block);
  }
}
