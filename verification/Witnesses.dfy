/** Runs from a formatted flash, and states, in which the code does not do what it is there for: one for each such property. */
module Witnesses {
  import opened Words
  import opened FlashLayer
  import opened Segments
  import opened INodes
  import opened LogModel
  import opened Checkpoints
  import opened LogLayer
  import opened TailRuns
  import opened FileModel
  import opened InodeTable
  import opened FileViews
  import opened FileLayers
  import opened DirectoryLists
  import opened Paths
  import opened Namespace
  import opened Walks
  import opened DirectoryLayers
  import opened Mklfs
  import opened Layout
  import opened Restarts

  // ---- The log -----------------------------------------------------------------------------------

  lemma MountedAtFirst(log: Log)
    requires log.g.Ok() && JustMounted(log) && log.flash.wearLimit > 0
    ensures AtFirst(log) && NothingFreed(log.g, log.State(), log.unwritten) && log.tail.number != FLASH_FULL
  {
    hide Log.Structure, Log.States, Log.Durable, LogInv, FirstHeld, TableINode, Log.Sealable;
    var g := log.g;
    FirstNumber(g);
    GeometryFacts(g);
    SecondUnwritten(g);
    hide FirstImage, FirstLive, LaterSegments, Geometry.Ok;
  }

  lemma SecondUnwritten(g: Geometry)
    requires g.Ok()
    ensures g.FirstSegment() + 1 < g.flashSize
    ensures forall s: word :: g.InLog(s) && s != g.FirstSegment() ==> s in LaterSegments(g) && FirstLive(g)[s] == 0
    ensures forall s :: s in LaterSegments(g) ==> g.InLog(s) && s != g.FirstSegment()
  {
    hide Geometry.BlockBytes, RootBlocks;
  }

  /**
   * Write and Free alone, every call succeeding, bring a formatted flash to a tail that is still cached. Then a block is
   * written, and reading it back yields other bytes.
   */
  method StaleFromFormat(g: Geometry, flash: Flash, checkpointInterval: nat, ghost now: u64)
    returns (log: Log, a: Addr, written: seq<byte>, got: seq<byte>)
    requires g.Ok() && now > 0 && Initialised(g, flash, FirstCheckpoint(g, now)) && flash.wearLimit > 0
    requires {flash, flash.data, flash.full, flash.wear} == flash.Repr
    modifies flash, flash.data, flash.full, flash.wear
    ensures log.failures == 0 && a in log.held && log.held[a].data == written && got != written
  {
    hide Geometry.Ok, Initialised, Log.Ready, Log.Valid, JustMounted, AtFirst, NothingFreed, FirstCheckpoint, Full, WellFormed,
         Build, Log.TailCached;
    log := MountLog(g, flash, 2, checkpointInterval, now);
    MountedAtFirst(log);
    MountedFacts(log);
    var block := Zeros(g.BlockBytes());
    StaleRun(log, block);
    StaleFacts(g);
    a, written, got := WriteAndReadBack(log);
  }

  lemma MountedFacts(log: Log)
    requires JustMounted(log)
    ensures log.failures == 0 && log.checkpoints == 0 && log.writesSinceLastCheckpoint == 0 && log.Separate() && log.Valid()
  {
  }

  lemma StaleFacts(g: Geometry)
    requires g.Ok()
    ensures g.InLog(g.FirstSegment()) && Build(g, g.FirstSegment()).number == g.FirstSegment()
  {
    GeometryFacts(g);
  }

  /** From a formatted flash no write fails before every log segment is full. */
  method FullFromFormat(g: Geometry, flash: Flash, cacheSize: nat, checkpointInterval: nat, ghost now: u64) returns (log: Log)
    requires g.Ok() && now > 0 && Initialised(g, flash, FirstCheckpoint(g, now)) && flash.wearLimit > 0 && cacheSize >= 1
    requires {flash, flash.data, flash.full, flash.wear} == flash.Repr
    modifies flash, flash.data, flash.full, flash.wear
    ensures log.failures == 0 && log.tail.number == FLASH_FULL && |log.live| == g.flashSize
    ensures forall s: word :: g.InLog(s) ==> log.live[s] == Wrap((g.segmentSize - 1) * g.BlockBytes())
  {
    hide Geometry.Ok, Initialised, Log.Ready, Log.Valid, JustMounted, AtFirst, NothingFreed, FirstCheckpoint, Log.Sealable;
    log := MountLog(g, flash, cacheSize, checkpointInterval, now);
    MountedAtFirst(log);
    MountedFacts(log);
    AtFirstFacts(log);
    SecondUnwritten(g);
    ghost var paces, tails := FillLog(log, Zeros(g.BlockBytes()));
  }

  lemma AtFirstFacts(log: Log)
    requires AtFirst(log) && JustMounted(log)
    ensures log.Ready() && log.Sealable() && log.tail.number == log.g.FirstSegment() && log.unwritten == LaterSegments(log.g)
  {
    hide Log.Ready, Log.Sealable;
  }

  /** A state whose last segment written is not a log segment is none of this log's. */
  lemma NothingFound(g: Geometry, d: Disk, st: LogState, n: INode)
    requires g.Ok() && d.last.lastSegmentWritten == g.checkpointSegment
    ensures !Recoverable(g, d, st, n)
  {
    hide RingOk, SegmentOn, OnFlash, UsageBytes, RecoveredTail, PointersSettled, RingFilled, AllClear, NthSector, RingBase, Stores;
  }

  /**
   * A checkpoint takes the segment before the tail for the last one written. Fill the first segment, free all of it, fill the
   * second: the tail is back at the first, and the checkpoint written then names the checkpoint region's own segment.
   */
  method UnfoundRun(g: Geometry, flash: Flash, checkpointInterval: nat, ghost now: u64) returns (log: Log)
    requires g.Ok() && now > 0 && Initialised(g, flash, FirstCheckpoint(g, now)) && flash.wearLimit > 0
    requires {flash, flash.data, flash.full, flash.wear} == flash.Repr && checkpointInterval <= 1
    modifies flash, flash.data, flash.full, flash.wear
    ensures log.Valid() && log.failures == 0 && log.g == g
    ensures forall st: LogState, n: INode :: !Recoverable(g, log.OnDisk(), st, n)
  {
    hide Geometry.Ok, Geometry.BlockBytes, Geometry.SegmentSectors, Initialised, Log.Ready, JustMounted, AtFirst, NothingFreed,
         FirstCheckpoint, Full, WellFormed, FilledFrom, Recoverable, WornBy, Padded, Log.Sealable;
    log := MountLog(g, flash, 1, checkpointInterval, now);
    MountedAtFirst(log);
    MountedFacts(log);
    ManySectors(g);
    var block := Zeros(g.BlockBytes());
    FillAndFree(log, block);
    ghost var st := log.State();
    FillTail(log, block);
    BackToFirst(g, st, log.State());
    forall st: LogState, n: INode
      ensures !Recoverable(g, log.OnDisk(), st, n)
    {
      NothingFound(g, log.OnDisk(), st, n);
    }
  }

  lemma StillHeld(h: Held, h': Held, n: INode, p: Addr)
    requires PointersHeld(h, n) && p in h' && forall a :: a in h ==> a in h'
    ensures PointersHeld(h', n.(direct := n.direct[3 := p]))
  {
  }

  /**
   * The log calls of a record update that touches blocks 3 and 4 of the table, after another block was freed: block 3 goes to
   * that block's slot, block 4 to the slot block 3 has given up, and the new indirect block fills the tail. The seal puts
   * the table's inode aside as it was before the update, with a pointer for block 3 whose slot holds block 4.
   */
  method ReusedSlot(g: Geometry, flash: Flash, cacheSize: nat, checkpointInterval: nat, ghost now: u64) returns (log: Log, p: Addr)
    requires g.Ok() && now > 0 && Initialised(g, flash, FirstCheckpoint(g, now)) && flash.wearLimit > 0 && cacheSize >= 1
    requires {flash, flash.data, flash.full, flash.wear} == flash.Repr
    modifies flash, flash.data, flash.full, flash.wear
    ensures log.Ready() && log.failures == 0 && p == log.checkpoint.iFileINode.direct[3]
    ensures p.seg in log.image && p.slot < |log.image[p.seg].inums| && p.slot < |log.image[p.seg].fileBlocks|
    ensures log.image[p.seg].inums[p.slot] == IFILE_INUM && log.image[p.seg].fileBlocks[p.slot] == 4
  {
    hide Geometry.Ok, Geometry.BlockBytes, Initialised, LogInv, Log.Structure, Log.States, Log.Durable, JustMounted, FirstCheckpoint,
         FreeSlots, Log.Sealable, PointersHeld, FirstHeld, TableINode, Padded, HeldBelow, Stores;
    log := MountLog(g, flash, cacheSize, checkpointInterval, now);
    MountedTail(log);
    var block := Zeros(g.BlockBytes());
    ghost var h0 := log.held;
    var x := Put(log, 2, 0, Data(0), block);
    p := Put(log, IFILE_INUM, 3, Data(3), block);
    TablePointersHeld(g, h0);
    StillHeld(h0, log.held, log.iFileINode, p);
    var n := log.iFileINode.(direct := log.iFileINode.direct[3 := p]);
    log.UpdateIFileINode(n);
    ghost var h := log.held;
    InOrder(h0, x, p);
    PadTail(log, block);
    StillPadded(h, log.held, x, p, log.tail.number, block);
    UpdateStraddling(log, x, p, block);
    TagOnFlash(log, p);
  }

  lemma InOrder(h: Held, x: Addr, p: Addr)
    requires HeldBelow(h, x) && p !in h && p != x && p.seg == x.seg && 1 <= p.slot
    ensures x.slot < p.slot
  {
    assert p == Addr(x.seg, p.slot);
  }

  lemma StillPadded(h: Held, h': Held, x: Addr, p: Addr, t: word, block: seq<byte>)
    requires Padded(h, h', t, block)
    ensures x in h ==> x in h'
    ensures p in h ==> p in h'
  {
  }

  /** First fit: if everything below x is held, and x is not, x is where a block goes. */
  lemma LowestIs(h: Held, h': Held, last: word, x: Addr, b: Addr)
    requires HeldBelow(h, Addr(x.seg, last)) && 1 <= x.slot < last && forall a :: a in h && a.slot < x.slot ==> a in h'
    requires HeldBelow(h', b) && b !in h' && x !in h' && b.seg == x.seg && 1 <= b.slot
    ensures b == x
  {
    assert x == Addr(b.seg, x.slot) && b == Addr(x.seg, b.slot);
  }

  lemma LastNotHeld(log: Log, a: Addr)
    requires log.Valid() && a in log.held && a.seg == log.tail.number
    ensures 1 <= a.slot < log.g.segmentSize - 1
  {
    hide Log.Structure, Log.States, Log.Durable, Geometry.Ok, Geometry.BlockBytes, BlockAt;
    assert Stores(log.g, log.tail, a.slot, log.held[a]);
  }

  /** With only the last slot free, the blocks at x and p are given up; then three blocks of the table are written. */
  method UpdateStraddling(log: Log, x: Addr, p: Addr, block: seq<byte>)
    requires log.Valid() && log.g.InLog(log.tail.number) && log.Sealable() && log.Stock().room == 1 && |block| == log.g.BlockBytes()
    requires x in log.held && p in log.held && x.seg == p.seg == log.tail.number && x.slot < p.slot
    modifies log, log.cache, log.flash, log.flash.data, log.flash.full, log.flash.wear
    ensures log.Ready() && log.failures == old(log.failures) && log.checkpoint.iFileINode == log.iFileINode == old(log.iFileINode)
    ensures p.seg != log.tail.number && p in log.held && log.held[p].inum == IFILE_INUM && log.held[p].fileBlock == 4
  {
    hide Geometry.Ok, Geometry.BlockBytes, LogInv, Log.Structure, Log.States, Log.Durable, FreeSlots, Log.Sealable, HeldBelow, Stores,
         SettingOf, SealedFrom, Recoverable, Log.Saving, Log.BeforeTailFull, WornBy, Full, WellFormed;
    ghost var h, last := log.held, log.g.segmentSize - 1;
    OnlyLastFree(log.g, log.State());
    LastNotHeld(log, x);
    LastNotHeld(log, p);
    GiveBack(log, x);
    GiveBack(log, p);
    ghost var h2 := log.held;
    SettingHas(log);
    var b3 := Put(log, IFILE_INUM, 3, Data(3), block);
    SettingHas(log);
    LowestIs(h, h2, last, x, b3);
    ghost var h3 := log.held;
    var b4 := Put(log, IFILE_INUM, 4, Data(4), block);
    SettingHas(log);
    LowestIs(h, h3, last, p, b4);
    var b := PutLast(log, IFILE_INUM, EMPTY.slot, Indirect, block);
  }

  lemma TagOnFlash(log: Log, a: Addr)
    requires log.Ready() && a in log.held && a.seg != log.tail.number
    ensures a.seg in log.image && a.slot < |log.image[a.seg].inums| && a.slot < |log.image[a.seg].fileBlocks|
    ensures log.image[a.seg].inums[a.slot] == log.held[a].inum && log.image[a.seg].fileBlocks[a.slot] == log.held[a].fileBlock
  {
    hide LogInv, Log.Structure, Log.States, Log.Durable, Geometry.Ok, Geometry.BlockBytes, BlockAt;
    SourceStores(log.g, log.State(), a.seg);
  }

  // ---- Files -------------------------------------------------------------------------------------

  /** The block past the largest file is let through, the one after it is not. */
  method PastTheLargestFile(files: FileLayer) returns (r: Outcome, next: Outcome)
    requires files.Valid()
    modifies files.log.cache
    ensures r == Done && next == Thrown
  {
    hide FileLayer.Sizes, Log.Valid, TableOk;
    var n := INode(true, ROOT_INUM, File, 0, 1, NoBlocks(), EMPTY);
    var a;
    r, a := files.GetBlockAddress(n, files.maxFileBlocks);
    next, a := files.GetBlockAddress(n, files.maxFileBlocks + 1);
  }

  // ---- Names -------------------------------------------------------------------------------------

  const A: seq<byte> := [0x61]
  const B: seq<byte> := [0x62]
  /** "/a" */
  const PATH_A: seq<byte> := [SLASH, 0x61]
  /** "/a/b" */
  const PATH_AB: seq<byte> := [SLASH, 0x61, SLASH, 0x62]

  lemma PathsAre()
    ensures Splits(PATH_A) && DirectoryPath(PATH_A) == [] && LastElement(PATH_A) == A
    ensures Splits(PATH_AB) && DirectoryPath(PATH_AB) == PATH_A && LastElement(PATH_AB) == B
    ensures 0 !in PATH_A && 0 !in PATH_AB && |A| < MAX_FILE_NAME_LENGTH && |B| < MAX_FILE_NAME_LENGTH
    ensures PATH_AB == PATH_A + [SLASH] + B && !IsDot(A) && !IsDot(B) && NameOk(A) && NameOk(B)
  {
    hide FindLast;
    Joined([], A);
    Joined(PATH_A, B);
    assert [] + [SLASH] + A == PATH_A && PATH_A + [SLASH] + B == PATH_AB;
  }

  /** Slots a run below takes at most. */
  const RUN_SLOTS: nat := 56

  /** A file system just formatted, with room in the tail for a run below. */
  ghost predicate Formatted(layer: DirectoryLayer)
    reads layer, layer.files, layer.files.log, layer.files.log.Repr, layer.files.log.cache, layer.files.log.flash,
          layer.files.log.flash.Repr
  {
    layer.Valid() && layer.files.Files() == [RootView()] && layer.tree == FIRST_TREE && layer.files.log.Stock().room > RUN_SLOTS
  }

  /** Two-sector blocks, 64 blocks a segment, 100 segments: a geometry that every run here and in LosingRuns allows. */
  const WIDE: Geometry := Geometry(2, 64, 100, 1, 2)

  lemma WideEnough()
    ensures WIDE.Ok() && WIDE.segmentSize >= 64 && WIDE.FirstSegment() + 2 < WIDE.flashSize
  {
  }

  /** A flash formatted with segments of 64 blocks or more comes up like that. */
  method MountWide(g: Geometry, flash: Flash, cacheSize: nat, checkpointInterval: nat, ghost now: u64) returns (layer: DirectoryLayer)
    requires g.Ok() && now > 0 && Initialised(g, flash, FirstCheckpoint(g, now)) && cacheSize >= 1 && g.segmentSize >= 64
    requires {flash, flash.data, flash.full, flash.wear} == flash.Repr
    ensures Formatted(layer)
  {
    hide *;
    layer := Mount(g, flash, cacheSize, checkpointInterval, now);
    MountedRoom(layer.files.log);
    FormattedIs(layer);
  }

  lemma FormattedIs(layer: DirectoryLayer)
    requires layer.Valid() && layer.files.Files() == [RootView()] && layer.tree == FIRST_TREE && layer.files.log.Stock().room > 56
    ensures Formatted(layer)
  {
  }

  lemma RootResolves(v: seq<FileView>)
    ensures Resolve(v, []) == Found(ROOT_INUM)
  {
  }

  lemma OneMoreFits(bs: nat, n: nat)
    requires bs >= SECTOR_SIZE && n <= 3
    ensures Fits(bs, n)
  {
    MulOrder(4, MaxBlocks(bs), bs);
  }

  lemma FewFit(bs: nat, n: nat)
    requires bs >= SECTOR_SIZE && n <= 4
    ensures DirFits(bs, n)
  {
    MulOrder(4, MaxBlocks(bs), bs);
  }

  lemma FirstLookups(bs: nat)
    requires bs >= SECTOR_SIZE
    ensures IsDir([RootView()], ROOT_INUM) && Rooted(FIRST_TREE)
    ensures Resolve([RootView()], PATH_A) == Missing && Enterable(bs, [RootView()], PATH_A)
    ensures !NoParent([RootView()], PATH_A) && NoParent([RootView()], PATH_AB) && Enterable(bs, [RootView()], PATH_AB)
  {
    hide DirAt, Find, DecodeDir, EncodeDir, RootDir;
    PathsAre();
    RootResolves([RootView()]);
    RootReads();
    RootLookups();
    ResolveSplits([RootView()], PATH_A);
    FewFit(bs, 4);
    RootReached(FIRST_TREE);
    RootLength();
  }

  lemma RootLength()
    ensures |RootDir().entries| == 3
  {
  }

  // ---- Slots the runs take ----------------------------------------------------------------------

  lemma {:induction false} NamesCount(es: seq<DirEntry>, s: set<seq<byte>>)
    requires Distinct(es) && forall k :: 0 <= k < |es| ==> es[k].name in s
    ensures |es| <= |s|
  {
    if es != [] {
      var last := |es| - 1;
      NamesCount(es[..last], s - {es[last].name});
    }
  }

  /** A directory has its two dot entries and those of the tree. */
  lemma EntriesFew(v: seq<FileView>, tree: Tree, d: word, s: set<seq<byte>>)
    requires NamespaceOk(v, tree) && IsDir(v, d) && forall n: seq<byte> :: Key(d, n) in tree ==> n in s
    ensures |DirAt(v, d)| <= |s| + 2
  {
    hide DecodeDir, WholeDir, TargetsOk, CountsOk;
    var es, all := DirAt(v, d), s + {DOT, DOTDOT};
    assert DirOk(d, v[d - 1].contents);
    forall k | 0 <= k < |es|
      ensures es[k].name in all
    {
      assert Find(es, es[k].name) != Missing;
      assert Key(d, es[k].name) in tree || IsDot(es[k].name);
    }
    NamesCount(es, all);
    assert |all| <= |s| + |{DOT, DOTDOT}|;
  }

  lemma FewSlots(bs: nat, n: nat)
    requires bs >= SECTOR_SIZE && n <= 4
    ensures DirSlots(bs, n) <= 10
  {
    var length := HEADER_BYTES + ENTRY_BYTES * n;
    LastBlockEnds(bs, 0, length);
    LastBlockIs(bs, 0, length);
    var e := LastBlock(bs, 0, length);
    hide LastBlock, BlocksTouched;
    if e >= 3 {
      MulOrder(3, e, bs);
    }
  }

  lemma ParentFew(bs: nat, v: seq<FileView>, path: seq<byte>, p: word, more: nat)
    requires bs >= SECTOR_SIZE && Resolve(v, DirectoryPath(path)) == Found(p) && |DirAt(v, p)| + more <= 4
    ensures ParentSlots(bs, v, path, more) <= 10
  {
    hide Resolve, DirAt, DirSlots;
    FewSlots(bs, |DirAt(v, p)| + more);
  }

  lemma FirstSlots(bs: nat)
    requires bs >= SECTOR_SIZE
    ensures RECORD_SLOTS + ParentSlots(bs, [RootView()], PATH_AB, 1) <= 24
    ensures RECORD_SLOTS + ParentSlots(bs, [RootView()], PATH_A, 1) + DirSlots(bs, 2) <= 24
  {
    hide Resolve, DirSlots;
    PathsAre();
    FirstLookups(bs);
    RootResolves([RootView()]);
    RootReads();
    RootLength();
    ParentFew(bs, [RootView()], PATH_A, ROOT_INUM, 1);
    FewSlots(bs, 2);
  }

  lemma SlotsA(bs: nat, v: seq<FileView>, tree: Tree, a: word)
    requires bs >= SECTOR_SIZE && NamespaceOk(v, tree) && WithA(v, tree, a)
    ensures ParentSlots(bs, v, PATH_A, 0) <= 10 && ParentSlots(bs, v, PATH_AB, 1) <= 10
  {
    hide *;
    PathsAre();
    RootResolves(v);
    UnderA(bs, v, tree, a);
    SizeA(v, tree, a);
    RootHolds(v, tree);
    ParentFew(bs, v, PATH_A, ROOT_INUM, 0);
    ParentFew(bs, v, PATH_AB, a, 1);
  }

  lemma SizeA(v: seq<FileView>, tree: Tree, a: word)
    requires WithA(v, tree, a)
    ensures |DirAt(v, a)| == 2 && forall n: seq<byte> :: Key(ROOT_INUM, n) in tree ==> n in {IFILE_NAME, A}
  {
    hide Resolve, DirAt, Find;
  }

  /** The root has its dot entries, the table file's and that of "/a". */
  lemma RootHolds(v: seq<FileView>, tree: Tree)
    requires NamespaceOk(v, tree) && forall n: seq<byte> :: Key(ROOT_INUM, n) in tree ==> n in {IFILE_NAME, A}
    ensures |DirAt(v, ROOT_INUM)| <= 4
  {
    hide DirAt, Shown, TargetsOk, CountsOk;
    EntriesFew(v, tree, ROOT_INUM, {IFILE_NAME, A});
    assert |{IFILE_NAME, A}| <= 2;
  }

  lemma SlotsAB(bs: nat, v: seq<FileView>, tree: Tree, a: word, i: word)
    requires bs >= SECTOR_SIZE && NamespaceOk(v, tree) && WithAB(tree, a, i) && a != ROOT_INUM
    ensures ParentSlots(bs, v, PATH_A, 0) <= 10
  {
    PathsAre();
    RootResolves(v);
    hide Resolve, DirAt, NamespaceOk;
    RootHolds(v, tree);
    ParentFew(bs, v, PATH_A, ROOT_INUM, 0);
  }

  lemma RecordIs()
    ensures RECORD_SLOTS == 4
  {
  }

  /** Creating "/a/b" where there is no "/a" leaves an inode in use that no entry names. */
  method OrphanRun(layer: DirectoryLayer) returns (r: Outcome, ghost orphan: bool)
    requires Formatted(layer)
    modifies layer.files.log.Repr, layer.files`iFileSizeInINodes, layer`tree
    ensures r == Failed && orphan && layer.tree == FIRST_TREE && !CountsOk(layer.files.Files(), layer.tree)
  {
    hide *;
    FormattedFacts(layer);
    PathsAre();
    FirstLookups(layer.files.blockSizeInBytes);
    FirstSlots(layer.files.blockSizeInBytes);
    OneMoreFits(layer.files.blockSizeInBytes, 2);
    ghost var s0, made := layer.files.log.Stock(), [];
    var inum;
    r, inum, orphan, made := layer.CreateFile(PATH_AB, File);
    Spends(RECORD_SLOTS + ParentSlots(layer.files.blockSizeInBytes, [RootView()], PATH_AB, 1), 24, s0,
           layer.files.log.Stock(), layer.files.log.Jammed(), r, |LastElement(PATH_AB)| >= MAX_FILE_NAME_LENGTH || orphan);
    if r == Done {
      MadeInParent([RootView()], FIRST_TREE, PATH_AB, inum, layer.tree);
    }
  }

  lemma FormattedFacts(layer: DirectoryLayer)
    requires Formatted(layer)
    ensures layer.Valid() && layer.files.Files() == [RootView()] && layer.tree == FIRST_TREE && layer.files.Valid()
    ensures layer.files.blockSizeInBytes >= SECTOR_SIZE && layer.files.blockSizeInBytes > 0
    ensures layer.files.log.Stock().room > 56 && RUN_SLOTS == 56
  {
    layer.LayerFacts();
  }

  lemma Spends(n: nat, most: nat, before: Reserve, after: Reserve, jammed: bool, r: Outcome, reason: bool)
    requires n <= most < before.room && Ends(r, reason, n, before, after, jammed)
    ensures (r == Done || reason) && after.room + most >= before.room
  {
  }

  lemma MadeInParent(v: seq<FileView>, tree: Tree, path: seq<byte>, i: word, tree': Tree)
    requires EntryMade(v, tree, path, i, tree')
    ensures !NoParent(v, path)
  {
    hide Resolve;
  }

  /** "/a" has just been made in a formatted file system. */
  ghost predicate WithA(v: seq<FileView>, tree: Tree, a: word) {
    && Resolve(v, PATH_A) == Found(a) && IsDir(v, a) && a != ROOT_INUM
    && tree == FIRST_TREE[Key(ROOT_INUM, A) := a] && |v| <= 2 && |DirAt(v, a)| == 2 && Find(DirAt(v, a), B) == Missing
  }

  lemma ValidNames(layer: DirectoryLayer)
    ensures layer.Valid() ==> NamespaceOk(layer.files.Files(), layer.tree) && CountsOk(layer.files.Files(), layer.tree)
    ensures layer.Named(IFILE_INUM) && CountsOk(layer.files.Files(), layer.tree) ==> layer.Valid()
  {
  }

  method MakeA(layer: DirectoryLayer) returns (r: Outcome, ghost a: word)
    requires Formatted(layer)
    modifies layer.files.log.Repr, layer.files`iFileSizeInINodes, layer`tree
    ensures r == Done && layer.Valid() && Rooted(layer.tree) && WithA(layer.files.Files(), layer.tree, a)
    ensures layer.files.blockSizeInBytes >= SECTOR_SIZE && layer.files.blockSizeInBytes > 0 && layer.files.log.Stock().room > 32
  {
    hide *;
    FormattedFacts(layer);
    PathsAre();
    FirstLookups(layer.files.blockSizeInBytes);
    FirstSlots(layer.files.blockSizeInBytes);
    OneMoreFits(layer.files.blockSizeInBytes, 2);
    ghost var s0 := layer.files.log.Stock();
    r, a := layer.Mkdir(PATH_A, A);
    Spends(RECORD_SLOTS + ParentSlots(layer.files.blockSizeInBytes, [RootView()], PATH_A, 1) + DirSlots(layer.files.blockSizeInBytes, 2), 24,
           s0, layer.files.log.Stock(), layer.files.log.Jammed(), r,
           |LastElement(PATH_A)| >= MAX_FILE_NAME_LENGTH || NoParent([RootView()], PATH_A));
    ValidNames(layer);
    MadeA(layer.files.Files(), layer.tree, a);
  }

  lemma MadeA(v: seq<FileView>, tree: Tree, a: word)
    requires NamespaceOk(v, tree) && IsDir(v, a) && DirAt(v, a) == Fresh(A, a).entries && |v| <= 2
    requires EntryMade([RootView()], FIRST_TREE, PATH_A, a, tree) && !InUse([RootView()], a)
    ensures WithA(v, tree, a)
  {
    hide Resolve, Fresh, Find, DirAt, DirsOk, CountsOk;
    PathsAre();
    RootResolves([RootView()]);
    RootResolves(v);
    MadeResolves(v, tree, PATH_A, ROOT_INUM, a);
    FreshOk(A, a, B);
    FreshSize(A, a);
  }

  lemma UnderA(bs: nat, v: seq<FileView>, tree: Tree, a: word)
    requires WithA(v, tree, a) && bs >= SECTOR_SIZE
    ensures Enterable(bs, v, PATH_AB) && !NoParent(v, PATH_AB) && Resolve(v, []) == Found(ROOT_INUM)
    ensures Resolve(v, PATH_A) == Found(a) && a != ROOT_INUM && tree == FIRST_TREE[Key(ROOT_INUM, A) := a]
  {
    hide Resolve, DirAt, Find;
    PathsAre();
    RootResolves(v);
    FewFit(bs, 3);
  }

  lemma LosesA(v: seq<FileView>, tree: Tree, a: word)
    requires WithA(v, tree, a)
    ensures RenameLoses(v, PATH_A, PATH_AB) && Resolve(v, PATH_A).Found? && EntryKey(v, PATH_A) == Key(ROOT_INUM, A)
    ensures Key(ROOT_INUM, A) in tree && tree[Key(ROOT_INUM, A)] != IFILE_INUM && tree - {Key(ROOT_INUM, A)} == FIRST_TREE
  {
    hide Resolve, DirAt, Find, RenameLoses;
    PathsAre();
    RootResolves(v);
    RenamedIntoItself(v, PATH_A, B);
  }

  /** Renaming "/a" to "/a/b" takes the entry out and finds no place for it: the directory is in use and named nowhere. */
  method LostRun(layer: DirectoryLayer) returns (r: Outcome, ghost lost: bool)
    requires Formatted(layer)
    modifies layer.files.log.Repr, layer.files`iFileSizeInINodes, layer`tree
    ensures r == Failed && lost && layer.tree == FIRST_TREE && !layer.Valid()
  {
    hide *;
    ghost var a;
    r, a := MakeA(layer);
    PathsAre();
    UnderA(layer.files.blockSizeInBytes, layer.files.Files(), layer.tree, a);
    ValidNames(layer);
    ghost var v, s1 := layer.files.Files(), layer.files.log.Stock();
    SlotsA(layer.files.blockSizeInBytes, v, layer.tree, a);
    LosesA(v, layer.tree, a);
    r, lost := layer.Rename(PATH_A, PATH_AB);
    Spends(ParentSlots(layer.files.blockSizeInBytes, v, PATH_A, 0) + ParentSlots(layer.files.blockSizeInBytes, v, PATH_AB, 1), 20,
           s1, layer.files.log.Stock(), layer.files.log.Jammed(), r,
           Resolve(v, PATH_A) == Missing || IsDot(LastElement(PATH_A)) || lost || |LastElement(PATH_AB)| >= MAX_FILE_NAME_LENGTH);
  }

  /** The entries once "/a/b" names inode i as well. */
  ghost predicate WithAB(tree: Tree, a: word, i: word) {
    tree == FIRST_TREE[Key(ROOT_INUM, A) := a][Key(a, B) := i]
  }

  lemma LinksAB(tree: Tree, a: word, i: word)
    requires WithAB(tree, a, i) && a != ROOT_INUM && a != IFILE_INUM
    ensures |LinksTo(tree, a)| == if i == a then 2 else 1
  {
    if i == a {
      assert LinksTo(tree, a) == {Key(ROOT_INUM, A), Key(a, B)};
    } else {
      assert LinksTo(tree, a) == {Key(ROOT_INUM, A)};
    }
  }

  lemma TreeAB(tree: Tree, a: word, i: word)
    requires WithAB(tree, a, i) && a != ROOT_INUM
    ensures Key(ROOT_INUM, A) in tree && tree[Key(ROOT_INUM, A)] == a && Key(a, B) in tree
    ensures Childless(tree - {Key(ROOT_INUM, A)}, a) <==> i == IFILE_INUM
  {
    var rest := tree - {Key(ROOT_INUM, A)};
    assert Key(a, B) in rest && rest[Key(a, B)] == i;
  }

  lemma DirWithEntry(v: seq<FileView>, tree: Tree, k: Key)
    requires Shown(v, tree) && k in tree
    ensures IsDir(v, k.dir)
  {
    if !IsDir(v, k.dir) {
      NoKeysOf(v, tree, k.dir);
    }
  }

  /** What holds of "/a" once "/a/b" names inode i. */
  lemma NamedAB(v: seq<FileView>, tree: Tree, a: word, i: word)
    requires NamespaceOk(v, tree) && WithAB(tree, a, i) && a != ROOT_INUM && (i == a || InUse(v, i))
    ensures Resolve(v, PATH_A) == Found(a) && EntryKey(v, PATH_A) == Key(ROOT_INUM, A) && IsDir(v, a)
    ensures Key(ROOT_INUM, A) in tree && tree[Key(ROOT_INUM, A)] == a
    ensures v[a - 1].nlinks == (if i == a then 2 else 1) && a != IFILE_INUM
    ensures UnlinkSafe(v, tree, Key(ROOT_INUM, A)) <==> i == a
  {
    PathsAre();
    RootResolves(v);
    assert Counted(v, tree, a);
    hide Resolve, Find, DirsOk, Shown, TargetsOk, CountsOk, LinksTo, DirAt, FindLast, WithAB, Childless, LastElement,
         DirectoryPath, Splits;
    TreeAB(tree, a, i);
    MadeResolves(v, tree, PATH_A, ROOT_INUM, a);
    DirWithEntry(v, tree, Key(a, B));
    LinksAB(tree, a, i);
  }

  lemma MadeAB(v: seq<FileView>, tree: Tree, a: word, i: word, tree': Tree)
    requires WithA(v, tree, a) && EntryMade(v, tree, PATH_AB, i, tree')
    ensures WithAB(tree', a, i)
  {
    hide Resolve, DirAt, Find;
    PathsAre();
  }

  lemma AnotherInum(v: seq<FileView>, tree: Tree, a: word, v': seq<FileView>, i: word)
    requires WithA(v, tree, a) && InodeMade(v, v', i, File)
    ensures i != a
  {
  }

  /** Unlinking "/a" with a file "/a/b" in it frees the directory and leaves the file counted but not named. */
  method UnsafeRun(layer: DirectoryLayer) returns (r: Outcome)
    requires Formatted(layer)
    modifies layer.files.log.Repr, layer.files`iFileSizeInINodes, layer`tree
    ensures r == Done && !layer.Valid()
  {
    hide *;
    ghost var a, orphan, made;
    r, a := MakeA(layer);
    PathsAre();
    UnderA(layer.files.blockSizeInBytes, layer.files.Files(), layer.tree, a);
    AFits(layer.files.blockSizeInBytes, layer.files.Files(), layer.tree, a);
    ghost var bs, v, t, s1 := layer.files.blockSizeInBytes, layer.files.Files(), layer.tree, layer.files.log.Stock();
    ValidNames(layer);
    SlotsA(bs, v, t, a);
    var b;
    r, b, orphan, made := layer.CreateFile(PATH_AB, File);
    ghost var s2 := layer.files.log.Stock();
    RecordIs();
    Spends(RECORD_SLOTS + ParentSlots(bs, v, PATH_AB, 1), 14, s1, s2, layer.files.log.Jammed(), r,
           |LastElement(PATH_AB)| >= MAX_FILE_NAME_LENGTH || orphan);
    MadeAB(v, t, a, b, layer.tree);
    AnotherInum(v, t, a, made, b);
    ValidNames(layer);
    NamedAB(layer.files.Files(), layer.tree, a, b);
    SlotsAB(bs, layer.files.Files(), layer.tree, a, b);
    ghost var v2 := layer.files.Files();
    r := layer.Unlink(PATH_A);
    Spends(ParentSlots(bs, v2, PATH_A, 0) + 2 * RECORD_SLOTS, 18, s2, layer.files.log.Stock(), layer.files.log.Jammed(), r,
           Resolve(v2, PATH_A) in {Missing, Found(IFILE_INUM)} || IsDot(LastElement(PATH_A)));
  }

  lemma NotReached(tree: Tree, a: word, n: nat)
    requires a != ROOT_INUM && a != IFILE_INUM && tree == FIRST_TREE[Key(a, B) := a]
    ensures !ReachedIn(tree, a, n)
    decreases n
  {
    if n > 0 {
      NotReached(tree, a, n - 1);
    }
  }

  /** Once "/a/b" names "/a" itself, "/a" is not needed to keep it counted, but to reach it. */
  lemma HangsLoose(tree: Tree, a: word)
    requires WithAB(tree, a, a) && a != ROOT_INUM && a != IFILE_INUM
    ensures !StaysRooted(tree, Key(ROOT_INUM, A))
  {
    LinksAB(tree, a, a);
    var rest := tree - {Key(ROOT_INUM, A)};
    assert rest == FIRST_TREE[Key(a, B) := a];
    assert Key(a, B) in rest;
    forall n: nat
      ensures !ReachedIn(rest, a, n)
    {
      NotReached(rest, a, n);
    }
  }

  lemma FewLinks(v: seq<FileView>, tree: Tree, a: word)
    requires CountsOk(v, tree) && tree == FIRST_TREE[Key(ROOT_INUM, A) := a]
    ensures forall i: word :: InUse(v, i) ==> v[i - 1].nlinks < UINT_MAX
  {
    forall i: word | InUse(v, i)
      ensures v[i - 1].nlinks < UINT_MAX
    {
      assert Counted(v, tree, i);
      LinksWithin(tree, i, {Key(ROOT_INUM, IFILE_NAME), Key(ROOT_INUM, A)});
    }
  }

  lemma LinksWithin(tree: Tree, i: int, s: set<Key>)
    requires tree.Keys <= s
    ensures |LinksTo(tree, i)| <= |s|
  {
    var links := LinksTo(tree, i);
    assert s == links + (s - links);
  }

  /** Linking "/a" as "/a/b" and unlinking "/a" leaves every count right and the directory beyond every path's reach. */
  method CycleRun(layer: DirectoryLayer) returns (r: Outcome)
    requires Formatted(layer)
    modifies layer.files.log.Repr, layer.files`iFileSizeInINodes, layer`tree
    ensures r == Done && layer.Valid() && !Rooted(layer.tree)
  {
    hide *;
    ghost var a;
    r, a := MakeA(layer);
    PathsAre();
    UnderA(layer.files.blockSizeInBytes, layer.files.Files(), layer.tree, a);
    ValidNames(layer);
    FewLinks(layer.files.Files(), layer.tree, a);
    ghost var bs, v, t, s1 := layer.files.blockSizeInBytes, layer.files.Files(), layer.tree, layer.files.log.Stock();
    SlotsA(bs, v, t, a);
    r := layer.Link(PATH_A, PATH_AB);
    ghost var s2 := layer.files.log.Stock();
    RecordIs();
    Spends(ParentSlots(bs, v, PATH_AB, 1) + RECORD_SLOTS, 14, s1, s2, layer.files.log.Jammed(), r,
           Resolve(v, PATH_A) == Missing || NoParent(v, PATH_AB) || |LastElement(PATH_AB)| >= MAX_FILE_NAME_LENGTH);
    MadeAB(v, t, a, a, layer.tree);
    ValidNames(layer);
    NamedAB(layer.files.Files(), layer.tree, a, a);
    HangsLoose(layer.tree, a);
    SlotsAB(bs, layer.files.Files(), layer.tree, a, a);
    ghost var v2 := layer.files.Files();
    r := layer.Unlink(PATH_A);
    Spends(ParentSlots(bs, v2, PATH_A, 0) + 2 * RECORD_SLOTS, 18, s2, layer.files.log.Stock(), layer.files.log.Jammed(), r,
           Resolve(v2, PATH_A) in {Missing, Found(IFILE_INUM)} || IsDot(LastElement(PATH_A)));
  }

  lemma AFits(bs: nat, v: seq<FileView>, tree: Tree, a: word)
    requires WithA(v, tree, a) && bs >= SECTOR_SIZE
    ensures Fits(bs, |v| + 1) && |v| + 1 < 0x7FFF_FFFF
  {
    OneMoreFits(bs, |v| + 1);
  }
}
