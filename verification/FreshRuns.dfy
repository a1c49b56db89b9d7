/** Runs from a formatted flash that go on across seals: when checkpoints are written, and a file of any length that fits. */
module FreshRuns {
  import opened Words
  import opened FlashLayer
  import opened Segments
  import opened SegmentCaches
  import opened INodes
  import opened LogModel
  import opened Checkpoints
  import opened LogLayer
  import opened TailRuns
  import opened FileModel
  import opened FileViews
  import opened FileLayers
  import opened DirectoryLayers
  import opened Mklfs
  import opened Witnesses

  // ---- Checkpoints -------------------------------------------------------------------------------

  /** An interval of 0 writes as many checkpoints as one of 1. */
  function Every(interval: nat): (e: nat)
    ensures e >= 1
  {
    if interval == 0 then 1 else interval
  }

  lemma DivNext(n: nat, e: nat)
    requires e >= 1
    ensures if n % e + 1 < e then (n + 1) / e == n / e && (n + 1) % e == n % e + 1
            else (n + 1) / e == n / e + 1 && (n + 1) % e == 0
  {
    var q, i := n / e, n % e;
    DivBounds(e, n);
    if i + 1 < e {
      DivMod(e, q, i + 1);
    } else {
      DivMod(e, q + 1, 0);
    }
  }

  /** After n seals, as long as the ring lasts. */
  predicate OnPace(g: Geometry, interval: nat, n: nat, p: Pace) {
    n / Every(interval) < g.SegmentSectors() ==> p.calls == n / Every(interval) && p.writes == n % Every(interval)
  }

  lemma OnPaceNext(g: Geometry, interval: nat, n: nat, p: Pace, p': Pace)
    requires OnPace(g, interval, n, p) && SealPaced(g, interval, p, p')
    ensures OnPace(g, interval, n + 1, p')
  {
    hide Geometry.SegmentSectors;
    DivNext(n, Every(interval));
  }

  lemma {:induction false} RunOnPace(g: Geometry, interval: nat, paces: seq<Pace>, tails: seq<word>, n: nat)
    requires SealRun(g, interval, paces, tails) && n < |paces| && paces[0].writes == 0 && paces[0].calls == 0
    ensures OnPace(g, interval, n, paces[n])
  {
    hide Geometry.SegmentSectors, SealPaced, OnPace;
    if n == 0 {
      FirstPace(g, interval, paces[0]);
    } else {
      RunOnPace(g, interval, paces, tails, n - 1);
      assert SealStep(g, interval, paces[n - 1], paces[n], tails[n]);
      OnPaceNext(g, interval, n - 1, paces[n - 1], paces[n]);
    }
  }

  lemma FirstPace(g: Geometry, interval: nat, p: Pace)
    requires p.writes == 0 && p.calls == 0
    ensures OnPace(g, interval, 0, p)
  {
    DivMod(Every(interval), 0, 0);
  }

  /**
   * The n-th seal of a run: if n is a multiple of the interval, a checkpoint that names the segment before the new tail
   * becomes the latest and the count starts over; otherwise the seal is counted and no checkpoint is written.
   */
  predicate NthSeal(interval: nat, paces: seq<Pace>, tails: seq<word>, n: nat)
    requires 0 < n < |paces| == |tails|
  {
    var tail: int := tails[n];
    if n % Every(interval) == 0 then
      && paces[n].calls == paces[n - 1].calls + 1 == n / Every(interval) && paces[n].writes == 0
      && paces[n].last.lastSegmentWritten == Wrap(tail - 1)
    else paces[n] == paces[n - 1].(writes := n % Every(interval))
  }

  lemma EveryNthSeal(g: Geometry, interval: nat, paces: seq<Pace>, tails: seq<word>, n: nat)
    requires SealRun(g, interval, paces, tails) && paces[0].writes == 0 && paces[0].calls == 0
    requires 0 < n < |paces| && n / Every(interval) < g.SegmentSectors()
    ensures NthSeal(interval, paces, tails, n)
  {
    hide Geometry.SegmentSectors, NextSector;
    RunOnPace(g, interval, paces, tails, n);
    RunOnPace(g, interval, paces, tails, n - 1);
    DivNext(n - 1, Every(interval));
    assert SealStep(g, interval, paces[n - 1], paces[n], tails[n]);
  }

  ghost function SegmentsBelow(g: Geometry, n: nat): set<word> {
    set s: word | g.InLog(s) && s < n
  }

  lemma {:induction false} CountBelow(g: Geometry, n: nat)
    requires g.Ok() && g.FirstSegment() <= n <= g.flashSize
    ensures |SegmentsBelow(g, n)| == n - g.FirstSegment()
  {
    hide Geometry.Ok;
    GeometryFacts(g);
    if n == g.FirstSegment() {
      assert SegmentsBelow(g, n) == {};
    } else {
      CountBelow(g, n - 1);
      assert SegmentsBelow(g, n) == SegmentsBelow(g, n - 1) + {n - 1};
    }
  }

  lemma EverySegment(g: Geometry)
    requires g.Ok()
    ensures |LaterSegments(g) + {g.FirstSegment()}| == g.flashSize - g.FirstSegment()
    ensures |LaterSegments(g)| == g.flashSize - g.FirstSegment() - 1
  {
    GeometryFacts(g);
    CountBelow(g, g.flashSize);
    assert LaterSegments(g) + {g.FirstSegment()} == SegmentsBelow(g, g.flashSize);
  }

  /** From a formatted flash every log segment is filled and sealed in turn, with checkpoints at multiples of the interval. */
  method PacedFromFormat(g: Geometry, flash: Flash, cacheSize: nat, checkpointInterval: nat, ghost now: u64)
    returns (log: Log, ghost paces: seq<Pace>, ghost tails: seq<word>)
    requires g.Ok() && now > 0 && Initialised(g, flash, FirstCheckpoint(g, now)) && flash.wearLimit > 0 && cacheSize >= 1
    requires {flash, flash.data, flash.full, flash.wear} == flash.Repr
    modifies flash, flash.data, flash.full, flash.wear
    ensures |paces| == |tails| > g.flashSize - g.FirstSegment()
    ensures SealRun(g, checkpointInterval, paces, tails) && paces[|paces| - 1] == log.Pacing()
    ensures forall n :: 0 < n < |paces| && n / Every(checkpointInterval) < g.SegmentSectors() ==>
              NthSeal(checkpointInterval, paces, tails, n)
  {
    hide Geometry.Ok, Geometry.SegmentSectors, Initialised, Log.Ready, Log.Valid, JustMounted, AtFirst, NothingFreed, FirstCheckpoint,
         Log.Sealable, SealRun, NthSeal;
    log := MountLog(g, flash, cacheSize, checkpointInterval, now);
    MountedAtFirst(log);
    MountedFacts(log);
    AtFirstFacts(log);
    EverySegment(g);
    paces, tails := FillLog(log, Zeros(g.BlockBytes()));
    SealRunShape(g, checkpointInterval, paces, tails);
    forall n | 0 < n < |paces| && n / Every(checkpointInterval) < g.SegmentSectors()
      ensures NthSeal(checkpointInterval, paces, tails, n)
    {
      EveryNthSeal(g, checkpointInterval, paces, tails, n);
    }
  }

  lemma SealRunShape(g: Geometry, interval: nat, paces: seq<Pace>, tails: seq<word>)
    requires SealRun(g, interval, paces, tails)
    ensures |paces| == |tails| >= 1
  {
  }

  // ---- A file of any length ----------------------------------------------------------------------

  /** Slots the log segments behind the first one have. */
  function LaterSlots(g: Geometry): int {
    (g.segmentSize - 1) * (g.flashSize - g.FirstSegment() - 1)
  }

  lemma MountedCapacity(log: Log)
    requires log.g.Ok() && JustMounted(log) && log.flash.wearLimit > 0
    ensures log.Stock().capacity == log.Stock().room + LaterSlots(log.g) && log.Stock().room >= log.g.segmentSize - 5
    ensures log.g.segmentSize >= 16 && StillFresh(log, log.Stock().stored)
  {
    hide Log.Structure, Log.States, Log.Durable, LogInv, FirstHeld, TableINode, Log.Sealable, Log.SealableOn, FreeSlots, FirstLive;
    MountedRoom(log);
    log.SealableIs();
    FirstNumber(log.g);
    GeometryFacts(log.g);
    EverySegment(log.g);
    SecondUnwritten(log.g);
    LiveCount(log.g);
    hide FirstImage, Geometry.Ok, LaterSegments;
    assert CleanBehind(log.g, log.live, log.tail.number) == LaterSegments(log.g);
  }

  lemma LiveCount(g: Geometry)
    requires g.Ok()
    ensures |FirstLive(g)| == g.flashSize && g.FirstSegment() < g.flashSize && g.FirstSegment() != FLASH_FULL
  {
    GeometryFacts(g);
  }

  /** Every log segment but the tail is as it was formatted, and the tail can be sealed. */
  ghost predicate StillFresh(log: Log, s: Stored) {
    && log.SealableOn(s)
    && forall r: word :: log.g.InLog(r) && r != s.tail ==> r in s.disk.unwritten && r !in s.image
  }

  /** Then writing flows, whatever is given up. */
  lemma FreshFlows(log: Log, going: set<Addr>)
    requires log.Valid() && StillFresh(log, log.Stock().stored) && going <= log.held.Keys
    ensures log.Flows(going)
  {
    hide Log.Sealable, Log.SealableOn, LogInv, Log.Structure, Log.States, Log.Durable, Geometry.Ok, FreeSlots, Capacity;
    log.SealableIs();
    forall s: word | log.g.InLog(s) && s != log.tail.number
      ensures s in log.unwritten && Vacant(log.held, s) && !Cached(log.cache.queue, s)
    {
      SourceStores(log.g, log.State(), s);
    }
  }

  lemma ReplacesHeld(bs: nat, h: Held, inum: word, offset: nat, length: nat)
    requires bs > 0
    ensures Replaces(bs, h, inum, offset, length) <= h.Keys
  {
  }

  lemma FilesFacts(layer: DirectoryLayer)
    requires layer.Valid()
    ensures var files := layer.files;
            && files.Valid() && files.blockSizeInBytes == files.log.g.BlockBytes() >= SECTOR_SIZE
            && |files.Files()| == files.iFileSizeInINodes && files.log.Separate() && files !in files.log.Repr
  {
    layer.LayerFacts();
    layer.files.ValidSizes();
  }

  /** A call that fits into the tail. */
  lemma FitsTail(n: nat, r: Outcome, s0: Reserve, s1: Reserve, jammed: bool)
    requires Ends(r, false, n, s0, s1, jammed) && s0.room > n
    ensures r == Done && s1.stored == s0.stored && s1.capacity + n >= s0.capacity
  {
  }

  /** A call that fits into the flash. */
  lemma FitsFlash(n: nat, r: Outcome, reason: bool, capacity: int, still: bool)
    requires Flowing(r, reason, n, capacity, true, still) && !reason && capacity >= n
    ensures r == Done
  {
  }

  lemma FirstCreated(v: seq<FileView>, v': seq<FileView>, inum: word)
    requires v == [RootView()] && 1 <= inum <= |v| + 1 && (inum <= |v| ==> !v[inum - 1].inUse)
    requires var f := FileView(true, File, 1, []); v' == if inum <= |v| then v[inum - 1 := f] else v + [f]
    ensures inum == 2 && |v'| == 2 && v'[0] == RootView() && v'[1] == FileView(true, File, 1, [])
  {
  }

  lemma FirstWritten(bs: nat, v: seq<FileView>, v': seq<FileView>, buffer: seq<byte>)
    requires |v| == 2 && v[0] == RootView() && v[1] == FileView(true, File, 1, [])
    requires v' == v[1 := v[1].(contents := Clamped(bs, Written(v[1].contents, 0, buffer)))]
    ensures v' == [RootView(), FileView(true, File, 1, Clamped(bs, buffer))]
  {
    assert Written([], 0, buffer) == buffer;
  }

  /**
   * From a formatted flash a file is made and written in one go, of any length that fits into the segments there are: the
   * write does not fail, however many seals it takes.
   */
  method LongWrite(g: Geometry, flash: Flash, cacheSize: nat, checkpointInterval: nat, ghost now: u64, buffer: seq<byte>)
    returns (files: FileLayer, r: Outcome)
    requires g.Ok() && now > 0 && Initialised(g, flash, FirstCheckpoint(g, now)) && flash.wearLimit > 0 && cacheSize >= 1
    requires {flash, flash.data, flash.full, flash.wear} == flash.Repr
    requires 0 < |buffer| < 0x1_0000_0000 && g.BlockBytes() > 0
    requires FileSlots(g.BlockBytes(), 2, 0, |buffer|) <= LaterSlots(g) + g.segmentSize - 5 - RECORD_SLOTS
    modifies flash, flash.data, flash.full, flash.wear
    ensures r == Done && files.Valid()
    ensures files.Files() == [RootView(), FileView(true, File, 1, Clamped(g.BlockBytes(), buffer))]
  {
    hide *;
    var layer := Mount(g, flash, cacheSize, checkpointInterval, now);
    files := layer.files;
    MountedCapacity(files.log);
    FilesFacts(layer);
    OneMoreFits(files.blockSizeInBytes, 2);
    RecordIs();
    ghost var v0, s0 := files.Files(), files.log.Stock();
    var inum;
    r, inum := files.Create(File);
    FitsTail(RECORD_SLOTS, r, s0, files.log.Stock(), files.log.Jammed());
    FirstCreated(v0, files.Files(), inum);
    ghost var v1, s1, going := files.Files(), files.log.Stock(), Replaces(files.blockSizeInBytes, files.log.held, inum, 0, |buffer|);
    ReplacesHeld(files.blockSizeInBytes, files.log.held, inum, 0, |buffer|);
    files.ValidSizes();
    FreshFlows(files.log, going);
    r := files.Write(inum, 0, buffer);
    FitsFlash(FileSlots(g.BlockBytes(), 2, 0, |buffer|), r, false, s1.capacity, files.log.Flows({}));
    FirstWritten(g.BlockBytes(), v1, files.Files(), buffer);
  }
}
