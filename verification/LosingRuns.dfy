/** A run from a formatted flash in which a round of cleaning loses an indirect block. */
module LosingRuns {
  import opened Words
  import opened FlashLayer
  import opened Segments
  import opened INodes
  import opened SegmentCaches
  import opened LogModel
  import opened Layout
  import opened Checkpoints
  import opened LogLayer
  import opened TailRuns
  import opened FileModel
  import opened InodeTable
  import opened FileViews
  import opened FileLayers
  import opened Cleaning
  import opened Victims
  import opened Mklfs

  // ---- A file of six blocks ---------------------------------------------------------------------

  const INUM: word := 2
  const BLOCKS: nat := 6

  /** The first k blocks of a new file, all in segment s, with what h0 holds still held. */
  ghost predicate Laid(bs: nat, h0: Held, h: Held, n: INode, s: word, k: nat) {
    && n == INode(true, INUM, File, 0, 1, n.direct, n.indirect) && INodeOk(bs, h, INUM, n)
    && (forall a :: a in h0 ==> a in h && h[a] == h0[a])
    && (forall b: nat :: if b < k then Ptr(bs, h, n, b) != EMPTY && Ptr(bs, h, n, b).seg == s else Ptr(bs, h, n, b) == EMPTY)
  }

  lemma LaidNone(bs: nat, h: Held, s: word)
    requires bs > 0
    ensures Laid(bs, h, h, INode(true, INUM, File, 0, 1, NoBlocks(), EMPTY), s, 0)
  {
    var n := INode(true, INUM, File, 0, 1, NoBlocks(), EMPTY);
    EmptyFile(bs, h, n);
    BlankIndirects(bs, h, n);
  }

  lemma LaidNext(bs: nat, h0: Held, h: Held, n: INode, s: word, k: nat, h': Held, n': INode, block: seq<byte>)
    requires Laid(bs, h0, h, n, s, k) && Relinked(bs, h, n, h', n', k, block) && Ptr(bs, h', n', k).seg == s
    ensures Laid(bs, h0, h', n', s, k + 1)
  {
    hide Ptr, INodeOk;
  }

  lemma LaidKept(bs: nat, h0: Held, h: Held, n: INode, s: word, k: nat, h': Held)
    requires bs > 0 && Laid(bs, h0, h, n, s, k) && forall a :: a in h ==> a in h' && h'[a] == h[a]
    ensures Laid(bs, h0, h', n, s, k)
  {
    hide Ptr, INodeOkBut;
    FileKept(bs, h, h', INUM, n);
  }

  lemma LaidBut(bs: nat, h0: Held, h: Held, n: INode, s: word, k: nat)
    requires Laid(bs, h0, h, n, s, k)
    ensures n.inum == INUM && INodeOkBut(bs, h, n.inum, n, k)
  {
    AnyBut(bs, h, n, k);
  }

  /** Direct blocks, and the pair of a block behind them and the first indirect block: what File_Write does for five blocks. */
  method LayBlocks(log: Log, block: seq<byte>) returns (n: INode, addrs: seq<Addr>)
    requires log.Valid() && log.Stock().room > 6 && log.g.InLog(log.tail.number) && |block| == log.g.BlockBytes()
    modifies log, log.cache, log.flash, log.flash.data, log.flash.full, log.flash.wear
    ensures log.Valid() && SettingOf(log) == old(SettingOf(log)) && log.Stock().room == old(log.Stock().room) - 6
    ensures Laid(log.g.BlockBytes(), old(log.held), log.held, n, log.tail.number, 5)
    ensures n.indirect != EMPTY && 1 <= n.indirect.slot < log.g.segmentSize && addrs == Indirects(log.g.BlockBytes(), log.held, n)
  {
    hide DecodeAddrs, Log.Structure, LogInv, Log.States, Log.Durable, Geometry.Ok, Geometry.BlockBytes, Log.Stock, Laid, Relinked, INodeOkBut, Ptr,
         SettingOf, EncodeAddrs;
    BlockFacts(log.g);
    NotFull(log.g, log.tail.number);
    var bs := log.g.BlockBytes();
    ghost var h0, s := log.held, log.tail.number;
    n := INode(true, INUM, File, 0, 1, NoBlocks(), EMPTY);
    LaidNone(bs, h0, s);
    var b := 0;
    while b < DIRECT_BLOCKS
      invariant b <= DIRECT_BLOCKS && log.Valid() && SettingOf(log) == old(SettingOf(log)) && log.tail.number == s
      invariant log.Stock().room == old(log.Stock().room) - b
      invariant Laid(bs, h0, log.held, n, s, b) && n.indirect == EMPTY
    {
      ghost var h := log.held;
      SettingHas(log);
      var a := Put(log, INUM, b, Data(b), block);
      SettingHas(log);
      LaidBut(bs, h0, h, n, s, b);
      LinkDirect(bs, h, n, b, a, block);
      LaidNext(bs, h0, h, n, s, b, log.held, n.(direct := n.direct[b := a]), block);
      n := n.(direct := n.direct[b := a]);
      b := b + 1;
    }
    ghost var h := log.held;
    SettingHas(log);
    var a := Put(log, INUM, 4, Data(4), block);
    SettingHas(log);
    BlankIndirects(bs, log.held, n);
    addrs := NoAddrs(bs)[0 := a];
    var table := Put(log, INUM, n.indirect.slot, Indirect, EncodeAddrs(addrs));
    SettingHas(log);
    AddrsRoundTrip(addrs);
    LaidBut(bs, h0, h, n, s, 4);
    LinkIndirect(bs, h, n, 4, a, block, table, Signed(n.indirect.slot));
    LaidNext(bs, h0, h, n, s, 4, log.held, n.(indirect := table), block);
    n := n.(indirect := table);
  }

  lemma BlockFacts(g: Geometry)
    requires g.Ok()
    ensures g.BlockBytes() >= SECTOR_SIZE && g.BlockBytes() % 8 == 0 && 16 <= g.segmentSize < 0x8000_0000
    ensures g.segmentSize + 4 <= PerBlock(g.BlockBytes()) && MaxBlocks(g.BlockBytes()) > BLOCKS
  {
    GeometryFacts(g);
  }

  // ---- The seals between ------------------------------------------------------------------------

  /** The second one moves on to the third. */
  lemma MovedOnAgain(g: Geometry, st: LogState, after: LogState, size: nat)
    requires g.Ok() && FilledFrom(g, st, after, size) && st.tail.number == g.FirstSegment() + 1
    requires g.FirstSegment() + 2 < g.flashSize && |st.live| == g.flashSize
    requires st.live[g.FirstSegment()] != 0 && st.live[g.FirstSegment() + 2] == 0
    requires forall c :: c in st.cache ==> c.number == g.FirstSegment()
    ensures var f := g.FirstSegment();
            && after.tail.number == f + 2 && FreeSlots(after.tail) == g.segmentSize - 1 && !Cached(after.cache, f + 2)
            && f + 1 in after.image && AllHeld(g, after.held, f + 1)
  {
    hide Geometry.Ok, Geometry.BlockBytes, Full, WellFormed, FreeSlots, FirstClean, Build, Wrap;
    LiveAfter(g, st.live, st.tail.number);
    CleanAt(g, after.live, g.FirstSegment() + 2);
    BuiltNumber(g, g.FirstSegment() + 2);
    BuiltRoom(g, g.FirstSegment() + 2);
    forall c | c in after.cache
      ensures c.number != g.FirstSegment() + 2
    {
    }
  }

  /** Every slot of segment t is held. */
  ghost predicate AllHeld(g: Geometry, h: Held, t: word) {
    forall b: word :: 1 <= b < g.segmentSize ==> Addr(t, b) in h
  }

  /** The first log segment is the tail, nothing is cached, and the next two are clean. */
  ghost predicate Starts(g: Geometry, s: Setting) {
    var f := g.FirstSegment();
    && s.tail == f && s.cache == [] && s.sealable && f + 2 < g.flashSize
    && |s.live| == g.flashSize && s.live[f + 1] == 0 && s.live[f + 2] == 0 && (f + 1) in s.unwritten
  }

  /** The sixth block takes the last slot of the first segment; the second one is next. */
  method PutSixth(log: Log, block: seq<byte>) returns (a: Addr)
    requires log.Valid() && Starts(log.g, SettingOf(log)) && log.Stock().room == 1 && |block| == log.g.BlockBytes()
    modifies log, log.cache, log.flash, log.flash.data, log.flash.full, log.flash.wear
    ensures log.Valid() && log.tail.number == log.g.FirstSegment() + 1 && log.Sealable() && log.Stock().room == log.g.segmentSize - 1
    ensures forall c :: c in log.cache.queue ==> c.number == log.g.FirstSegment()
    ensures |log.live| == log.g.flashSize && log.live[log.g.FirstSegment()] != 0 && log.live[log.g.FirstSegment() + 2] == 0
    ensures a.seg == log.g.FirstSegment() && a !in old(log.held) && forall x :: x in log.held ==> x.seg != log.tail.number
    ensures 1 <= a.slot < log.g.segmentSize && log.held == old(log.held)[a := Slot(INUM, 5, Data(5), block)]
    ensures log.failures == old(log.failures) && log.iFileINode == old(log.iFileINode)
    ensures WornBy(SEAL_WEAR, old(log.flash.wear[..]), log.flash.wear[..])
  {
    hide Log.Structure, LogInv, Log.States, Log.Durable, Geometry.Ok, Geometry.BlockBytes, WornBy, SealedFrom, FreeSlots,
         Log.SegmentEmpty, Log.CanErase;
    var f := log.g.FirstSegment();
    a := PutLast(log, INUM, 5, Data(5), block);
    ghost var st :| SealedFrom(log.g, st, log.State(), log.cache.size) && st.tail.number == f && st.cache == [] && st.live == old(log.live);
    MovedOn(log.g, st, log.State(), log.cache.size);
    log.UnwrittenEmpty(f + 1);
    NoneHeldIn(log.held, f + 1);
  }

  /** The rewritten indirect block takes the first slot of the second segment. */
  method LaySixth(log: Log, n: INode, addrs: seq<Addr>, block: seq<byte>, ghost h0: Held) returns (n': INode)
    requires log.Valid() && Starts(log.g, SettingOf(log)) && log.Stock().room == 1 && |block| == log.g.BlockBytes()
    requires Laid(log.g.BlockBytes(), h0, log.held, n, log.tail.number, 5) && n.indirect != EMPTY && 1 <= n.indirect.slot < log.g.segmentSize
    requires addrs == Indirects(log.g.BlockBytes(), log.held, n)
    modifies log, log.cache, log.flash, log.flash.data, log.flash.full, log.flash.wear
    ensures log.Valid() && log.tail.number == log.g.FirstSegment() + 1 && log.Sealable()
    ensures forall c :: c in log.cache.queue ==> c.number == log.g.FirstSegment()
    ensures |log.live| == log.g.flashSize && log.live[log.g.FirstSegment()] != 0 && log.live[log.g.FirstSegment() + 2] == 0
    ensures Laid(log.g.BlockBytes(), h0, log.held, n', log.g.FirstSegment(), 6)
    ensures n'.indirect.seg == log.tail.number && n'.indirect in log.held && log.held[n'.indirect].inum == INUM
    ensures log.held[n'.indirect].fileBlock == Signed(n.indirect.slot)
    ensures forall a :: a in log.held && a.seg == log.tail.number ==> a == n'.indirect
    ensures log.failures == old(log.failures) && log.iFileINode == old(log.iFileINode)
    ensures WornBy(SEAL_WEAR, old(log.flash.wear[..]), log.flash.wear[..])
  {
    hide Log.Structure, LogInv, Log.States, Log.Durable, Geometry.Ok, Geometry.BlockBytes, Laid, Relinked, INodeOkBut, Ptr,
         EncodeAddrs, DecodeAddrs, WornBy, FreeSlots, Log.SegmentEmpty, Log.CanErase, Log.Sealable;
    BlockFacts(log.g);
    NotFull(log.g, log.g.FirstSegment() + 1);
    var bs, f := log.g.BlockBytes(), log.g.FirstSegment();
    ghost var h := log.held;
    LaidBut(bs, h0, h, n, f, 5);
    var a := PutSixth(log, block);
    IndirectsKept(bs, h, log.held, INUM, n);
    var table := Put(log, INUM, n.indirect.slot, Indirect, EncodeAddrs(addrs[1 := a]));
    LinkIndirect(bs, h, n, 5, a, block, table, Signed(n.indirect.slot));
    n' := n.(indirect := table);
    LaidNext(bs, h0, h, n, f, 5, log.held, n', block);
  }

  /** Segment t is full of blocks tagged as the table's first, but for one at `but`. */
  ghost predicate PadsBut(g: Geometry, h: Held, t: word, but: Addr) {
    AllHeld(g, h, t) && forall a :: a in h && a.seg == t && a != but ==> h[a].inum == IFILE_INUM && h[a].fileBlock == 0 && h[a].role == Data(0)
  }

  lemma PadsAround(g: Geometry, h: Held, h': Held, t: word, but: Addr, block: seq<byte>)
    requires Padded(h, h', t, block) && AllHeld(g, h', t) && forall a :: a in h && a.seg == t ==> a == but
    ensures PadsBut(g, h', t, but)
  {
  }

  lemma WornTwice(wear: seq<nat>, wear1: seq<nat>, wear2: seq<nat>)
    requires WornBy(SEAL_WEAR, wear, wear1) && WornBy(SEAL_WEAR, wear1, wear2)
    ensures WornBy(2 * SEAL_WEAR, wear, wear2)
  {
  }

  /** Six blocks in the first segment, and in the second nothing of the file but the indirect block. */
  method Prepare(log: Log, block: seq<byte>) returns (n: INode)
    requires log.Valid() && Starts(log.g, SettingOf(log)) && log.Stock().room > 6 && |block| == log.g.BlockBytes()
    modifies log, log.cache, log.flash, log.flash.data, log.flash.full, log.flash.wear
    ensures log.Valid() && log.tail.number == log.g.FirstSegment() + 2 && log.Stock().room == log.g.segmentSize - 1
    ensures Laid(log.g.BlockBytes(), old(log.held), log.held, n, log.g.FirstSegment(), 6)
    ensures n.indirect.seg == log.g.FirstSegment() + 1 && n.indirect in log.held && log.held[n.indirect].inum == INUM
    ensures 1 <= log.held[n.indirect].fileBlock < log.g.segmentSize
    ensures log.g.FirstSegment() + 1 in log.image && PadsBut(log.g, log.held, log.g.FirstSegment() + 1, n.indirect)
    ensures log.failures == old(log.failures) && log.iFileINode == old(log.iFileINode)
    ensures WornBy(2 * SEAL_WEAR, old(log.flash.wear[..]), log.flash.wear[..])
  {
    hide Log.Structure, LogInv, Log.States, Log.Durable, Geometry.Ok, Geometry.BlockBytes, Laid, Indirects, WornBy, FreeSlots,
         Log.CanErase, Log.SegmentEmpty, Log.Sealable, FilledFrom, Padded, PadsBut;
    BlockFacts(log.g);
    var bs, f := log.g.BlockBytes(), log.g.FirstSegment();
    ghost var h0 := log.held;
    var addrs;
    n, addrs := LayBlocks(log, block);
    ghost var h1 := log.held;
    PadTail(log, block);
    PaddedKeeps(bs, h0, h1, n, f, 5, log.held, f, block);
    ghost var k, w0 := n.indirect.slot, log.flash.wear[..];
    n := LaySixth(log, n, addrs, block, h0);
    ghost var h2, st, w1 := log.held, log.State(), log.flash.wear[..];
    FillTail(log, block);
    MovedOnAgain(log.g, st, log.State(), log.cache.size);
    PaddedKeeps(bs, h0, h2, n, f, 6, log.held, f + 1, block);
    PadsAround(log.g, h2, log.held, f + 1, n.indirect, block);
    WornTwice(w0, w1, log.flash.wear[..]);
  }

  lemma PaddedKeeps(bs: nat, h0: Held, h: Held, n: INode, s: word, k: nat, h': Held, t: word, block: seq<byte>)
    requires bs > 0 && Laid(bs, h0, h, n, s, k) && Padded(h, h', t, block)
    ensures Laid(bs, h0, h', n, s, k) && Indirects(bs, h', n) == Indirects(bs, h, n)
    ensures n.indirect in h ==> n.indirect in h' && h'[n.indirect] == h[n.indirect]
  {
    LaidKept(bs, h0, h, n, s, k, h');
    IndirectsKept(bs, h, h', INUM, n);
  }

  // ---- The record of the file, and the state it leaves ------------------------------------------

  /** Everything formatted is in the first log segment, which is the tail. */
  lemma StartFacts(log: Log)
    requires log.g.Ok() && JustMounted(log) && log.flash.wearLimit > 0 && log.g.FirstSegment() + 2 < log.g.flashSize
    ensures log.Valid() && Starts(log.g, SettingOf(log)) && log.Stock().room > 6 && log.failures == 0
    ensures log.held == FirstHeld(log.g) && log.iFileINode == TableINode(log.g)
    ensures forall a :: a in log.held ==> a.seg == log.g.FirstSegment()
  {
    hide Log.Structure, Log.States, Log.Durable, LogInv, TableINode, Log.Sealable;
    MountedRoom(log);
    FirstNumber(log.g);
    GeometryFacts(log.g);
    hide FirstImage, Geometry.Ok;
  }

  /** Pointers of the table as it was formatted lead into the first segment only. */
  lemma FirstPointers(bs: nat, h: Held, ifile: INode, s: word, i: word, b: nat)
    requires TableOk(bs, h, ifile, 1) && i <= 1 && forall a :: a in h ==> a.seg == s
    ensures PtrOf(bs, h, ifile, i, b) == EMPTY || PtrOf(bs, h, ifile, i, b).seg == s
  {
    hide Entry, Indirects, IFileOk, NoHoles;
    KnownEntry(bs, h, ifile, 1, i);
    if b < MaxBlocks(bs) {
      assert Points(bs, h, i, b, PtrOf(bs, h, ifile, i, b));
    }
  }

  lemma SixWhole(bs: nat, h0: Held, h: Held, n: INode, s: word)
    requires bs >= SECTOR_SIZE && MaxBlocks(bs) > BLOCKS && 6 * bs < 0x1_0000_0000 && Laid(bs, h0, h, n, s, 6)
    ensures EntryOk(bs, h, INUM, n.(fileSize := 6 * bs))
    ensures forall b: nat :: Ptr(bs, h, n.(fileSize := 6 * bs), b) == Ptr(bs, h, n, b)
  {
    hide Ptr, INodeOk, MaxBlocks;
    var n' := n.(fileSize := 6 * bs);
    Resized(bs, h, n, 6 * bs);
    forall b: nat | b * bs < 6 * bs
      ensures b < 6
    {
      BelowMax(bs, b, 6, b * bs);
    }
  }

  lemma SixFit(g: Geometry)
    requires g.Ok()
    ensures 6 * g.BlockBytes() < 0x1_0000_0000 && Fits(g.BlockBytes(), INUM)
  {
    GeometryFacts(g);
    MulOrder(16, g.segmentSize, g.BlockBytes());
    MulOrder(4, MaxBlocks(g.BlockBytes()), g.BlockBytes());
  }

  /** Once its record is written, the file's indirect block is all that any inode has in segment t. */
  lemma AloneThere(bs: nat, h0: Held, if0: INode, h1: Held, n: INode, h2: Held, if2: INode, s: word, t: word, t0: word, t2: word, b: nat, i: word)
    requires TableOk(bs, h0, if0, 1) && bs > 0 && i <= 2 && s != t && t != UINT_MAX && t != t0
    requires (forall a :: a in h0 ==> a.seg == s) && forall a :: a in h0 ==> a in h1 && h1[a] == h0[a]
    requires INodeOk(bs, h1, INUM, n) && n.indirect.seg == t && n.indirect in h1 && h1[n.indirect].inum == INUM
    requires forall j: nat :: Ptr(bs, h1, n, j) == EMPTY || Ptr(bs, h1, n, j).seg == s
    requires EntryUpdated(bs, h1, if0, h2, if2, 1, 2, n) && SparedKept(bs, h1, IFILE_INUM, if0, t0, h2, if2, t2)
    ensures PtrOf(bs, h2, if2, i, b).seg != t
  {
    hide Ptr, IFileOk, INodeOkBut, NoHoles, Entry;
    KeepAll(h0, h1);
    EntryZero(bs, h0, if0);
    EntryZero(bs, h2, if2);
    if i == IFILE_INUM {
      FirstPointers(bs, h0, if0, s, 0, b);
      KnownEntry(bs, h0, if0, 1, 0);
      PtrsKept(bs, h0, h1, 0, if0);
      assert Spared(bs, h1, IFILE_INUM, if0, n.indirect);
    } else {
      OthersKept(bs, h1, IFILE_INUM, if0, t0, h2, if2, t2, i);
      if i == 1 {
        FirstPointers(bs, h0, if0, s, 1, b);
        KnownEntry(bs, h0, if0, 1, 1);
        TableKeptFor(bs, h0, h1, if0, 1);
        PtrsKept(bs, h0, h2, 1, Entry(bs, h0, if0, 1));
      } else {
        PtrsKept(bs, h1, h2, 2, n);
      }
    }
  }

  lemma LosesAlone(bs: nat, h: Held, ifile: INode, t: word)
    requires bs > 0 && Evacuated(bs, h, ifile, 2, t) && Entry(bs, h, ifile, 2).indirect.seg == t
    ensures LosesIndirect(bs, h, ifile, 2, t)
  {
    hide Entry, Ptr;
    var k: word := 2;
    assert Entry(bs, h, ifile, k).indirect.seg == t && !Rewritten(bs, h, ifile, 2, t, k);
  }

  /** Writing the record leaves segment t as it was. */
  lemma PadsKept(bs: nat, g: Geometry, h1: Held, if0: INode, h2: Held, if2: INode, t: word, but: Addr, t0: word, t2: word)
    requires PadsBut(g, h1, t, but) && SparedKept(bs, h1, IFILE_INUM, if0, t0, h2, if2, t2) && Ptr(bs, h1, if0, 0).seg != t
    requires but in h1 && h1[but].inum == INUM && forall a :: a in h2 && a.seg == t ==> 1 <= a.slot < g.segmentSize
    ensures PadsBut(g, h2, t, but) && but in h2 && h2[but] == h1[but]
  {
    hide Ptr, SteersClear;
    assert Spared(bs, h1, IFILE_INUM, if0, but);
    forall a | a in h1 && a.seg == t
      ensures a in h2 && h2[a] == h1[a]
    {
      assert Spared(bs, h1, IFILE_INUM, if0, a);
    }
    forall a | a in h2 && a.seg == t
      ensures a in h1
    {
      assert Addr(t, a.slot) in h1;
    }
  }

  /** No tag in segment t stops the cleaner. */
  lemma NothingStops(g: Geometry, image: Segment, h: Held, ifile: INode, but: Addr)
    requires g.Ok() && WellFormed(g, image) && Describes(g, image, h) && PadsBut(g, h, image.number, but)
    requires but in h && h[but].inum == INUM && 1 <= h[but].fileBlock < g.segmentSize
    ensures g.BlockBytes() > 0 && !StopsSomewhere(g.BlockBytes(), image, h, ifile, 2)
  {
    BlockFacts(g);
    hide Geometry.Ok, Geometry.BlockBytes, BlockAt, Entry, TouchedBefore;
    forall s: word | s >= 1
      ensures !StopsAt(g.BlockBytes(), image, h, ifile, 2, s)
    {
      if s < g.segmentSize {
        var a := Addr(image.number, s);
        assert a in h && Stores(g, image, a.slot, h[a]);
      }
    }
  }

  /** Segment v is sealed, fit to be erased, and holds no data block and one indirect block. */
  ghost predicate AboutToLose(files: FileLayer, v: word)
    reads files, files.log, files.log.Repr, files.log.cache, files.log.flash, files.log.flash.Repr
  {
    && files.Valid() && v in files.log.image && files.log.g.InLog(v) && v != files.log.tail.number
    && files.NoBlockIn(v) && files.LosesIndirectIn(v) && !files.Stops(files.log.image[v])
    && files.log.CanErase(v) && files.log.CanErase(files.log.g.usageSegment)
  }

  lemma LaidFacts(bs: nat, h0: Held, h: Held, n: INode, s: word)
    requires Laid(bs, h0, h, n, s, 6)
    ensures n.inum == INUM && n.inUse && n.fileSize == 0 && INodeOk(bs, h, INUM, n) && forall a :: a in h0 ==> a in h && h[a] == h0[a]
    ensures forall j: nat :: Ptr(bs, h, n, j) == EMPTY || Ptr(bs, h, n, j).seg == s
  {
    hide Ptr, INodeOk;
  }

  lemma InSegmentSlots(log: Log, t: word)
    requires log.Valid()
    ensures forall a :: a in log.held && a.seg == t ==> 1 <= a.slot < log.g.segmentSize
  {
    HeldInRange(log.g, log.State());
  }

  lemma Installed(g: Geometry, h0: Held, if0: INode, h1: Held, n: INode, h2: Held, if2: INode, s: word, t: word, t0: word, t2: word)
    requires g.Ok() && s != t && t != UINT_MAX && t != t0
    requires var bs := g.BlockBytes();
             && bs > 0 && TableOk(bs, h0, if0, 1) && INodeOk(bs, h1, INUM, n)
             && (forall j: nat :: Ptr(bs, h1, n, j) == EMPTY || Ptr(bs, h1, n, j).seg == s)
             && EntryUpdated(bs, h1, if0, h2, if2, 1, 2, n) && SparedKept(bs, h1, IFILE_INUM, if0, t0, h2, if2, t2)
    requires (forall a :: a in h0 ==> a.seg == s) && forall a :: a in h0 ==> a in h1 && h1[a] == h0[a]
    requires n.indirect.seg == t && n.indirect in h1 && h1[n.indirect].inum == INUM && PadsBut(g, h1, t, n.indirect)
    requires forall a :: a in h2 && a.seg == t ==> 1 <= a.slot < g.segmentSize
    ensures Evacuated(g.BlockBytes(), h2, if2, 2, t) && LosesIndirect(g.BlockBytes(), h2, if2, 2, t)
    ensures PadsBut(g, h2, t, n.indirect) && n.indirect in h2 && h2[n.indirect] == h1[n.indirect]
  {
    var bs := g.BlockBytes();
    hide Ptr, INodeOk, IFileOk, NoHoles, Entry, Geometry.Ok, Geometry.BlockBytes, SparedKept, PadsBut, LosesIndirect;
    FirstPointers(bs, h0, if0, s, 0, 0);
    EntryZero(bs, h0, if0);
    KnownEntry(bs, h0, if0, 1, 0);
    KeepAll(h0, h1);
    PtrsKept(bs, h0, h1, 0, if0);
    PadsKept(bs, g, h1, if0, h2, if2, t, n.indirect, t0, t2);
    forall i: word, b: nat | i <= 2
      ensures PtrOf(bs, h2, if2, i, b).seg != t
    {
      AloneThere(bs, h0, if0, h1, n, h2, if2, s, t, t0, t2, b, i);
    }
    LosesAlone(bs, h2, if2, t);
  }

  /** The record of the file that was prepared: the file layer's invariant holds of what is there then. */
  method InstallSixth(log: Log, n: INode, ghost h0: Held) returns (files: FileLayer)
    requires log.Valid() && log.g.FirstSegment() + 2 < log.g.flashSize && log.tail.number == log.g.FirstSegment() + 2
    requires log.Stock().room == log.g.segmentSize - 1 && log.g.BlockBytes() > 0
    requires TableOk(log.g.BlockBytes(), h0, log.iFileINode, 1) && forall a :: a in h0 ==> a.seg == log.g.FirstSegment()
    requires Laid(log.g.BlockBytes(), h0, log.held, n, log.g.FirstSegment(), 6)
    requires n.indirect.seg == log.g.FirstSegment() + 1 && n.indirect in log.held && log.held[n.indirect].inum == INUM
    requires 1 <= log.held[n.indirect].fileBlock < log.g.segmentSize
    requires log.g.FirstSegment() + 1 in log.image && PadsBut(log.g, log.held, log.g.FirstSegment() + 1, n.indirect)
    modifies log.Repr
    ensures fresh(files) && files.log == log && files.Valid() && log.flash.wear[..] == old(log.flash.wear[..])
    ensures files.NoBlockIn(log.g.FirstSegment() + 1) && files.LosesIndirectIn(log.g.FirstSegment() + 1)
    ensures log.g.FirstSegment() + 1 in log.image && !files.Stops(log.image[log.g.FirstSegment() + 1])
    ensures log.g.FirstSegment() + 1 != log.tail.number
  {
    hide Log.Structure, LogInv, Log.States, Log.Durable, Geometry.Ok, Geometry.BlockBytes, Laid, Ptr, IFileOk, INodeOk, NoHoles, Entry;
    files := new FileLayer(log);
    ghost var bs, f, t := log.g.BlockBytes(), log.g.FirstSegment(), log.g.FirstSegment() + 1;
    ghost var h1, if0, t0 := log.held, log.iFileINode, log.tail.number;
    SixFit(log.g);
    BlockFacts(log.g);
    NotFull(log.g, t);
    LaidFacts(bs, h0, h1, n, f);
    TableGrown(bs, h0, h1, if0, 1);
    SixWhole(bs, h0, h1, n, f);
    FirstPointers(bs, h0, if0, f, 0, 0);
    files.iFileSizeInINodes := 2;
    var n' := n.(fileSize := 6 * files.blockSizeInBytes);
    ghost var s0 := log.Stock();
    var r := files.Install(n', 1);
    assert r == Done;
    InSegmentSlots(log, t);
    Installed(log.g, h0, if0, h1, n', log.held, log.iFileINode, f, t, t0, log.tail.number);
    SourceStores(log.g, log.State(), t);
    files.DescribedByImage(t);
    NothingStops(log.g, log.image[t], log.held, log.iFileINode, n.indirect);
  }

  lemma HardlyWorn(log: Log, before: seq<nat>, s: nat)
    requires log.Valid() && s < log.g.flashSize && log.flash.wearLimit > 2 * SEAL_WEAR
    requires WornBy(2 * SEAL_WEAR, before, log.flash.wear[..]) && forall b :: 0 <= b < |before| ==> before[b] == 0
    ensures log.CanErase(s)
  {
    hide LogInv, Log.States, Log.Durable, Log.RingKept, BlockIn, Geometry.Ok, Log.CanErase, OnFlash, Sized, Flash.Valid;
    log.CanEraseIs(s);
  }

  /**
   * From a formatted flash with three log segments: a file of six blocks is written as File_Write does it, the last of them
   * in the last slot of the first segment, so that its rewritten indirect block comes to lie in the second; that one is
   * filled up and sealed.
   */
  method LosingState(g: Geometry, flash: Flash, cacheSize: nat, checkpointInterval: nat, ghost now: u64)
    returns (files: FileLayer, v: word)
    requires g.Ok() && now > 0 && Initialised(g, flash, FirstCheckpoint(g, now)) && cacheSize >= 1
    requires {flash, flash.data, flash.full, flash.wear} == flash.Repr
    requires g.FirstSegment() + 2 < g.flashSize && flash.wearLimit > 2 * SEAL_WEAR
    modifies flash, flash.data, flash.full, flash.wear
    ensures fresh(files) && fresh(files.log.Repr - flash.Repr) && files.log.g == g && v == g.FirstSegment() + 1 && AboutToLose(files, v)
  {
    hide Geometry.Ok, Geometry.BlockBytes, LogInv, Log.Structure, Log.States, Log.Durable, FlashHolds, FirstCheckpoint, FirstHeld,
         TableINode, Laid, PadsBut, Starts, TableOk, WornBy, Log.CanErase, FlashReady, JustMounted,
         LosesIndirect, StopsSomewhere, Evacuated, FreeSlots, Log.Sealable, BlockIn;
    var log := MountLog(g, flash, cacheSize, checkpointInterval, now);
    StartFacts(log);
    FirstTableOk(g);
    BlockFacts(g);
    ghost var h0, w0 := log.held, log.flash.wear[..];
    var n := Prepare(log, Zeros(g.BlockBytes()));
    files := InstallSixth(log, n, h0);
    GeometryFacts(g);
    v := g.FirstSegment() + 1;
    HardlyWorn(log, w0, g.FirstSegment() + 1);
    HardlyWorn(log, w0, g.usageSegment);
  }

  lemma Losing(files: FileLayer, v: word)
    requires AboutToLose(files, v)
    ensures files.Valid() && v in files.log.image && files.log.g.InLog(v) && v != files.log.tail.number
    ensures files.blockSizeInBytes > 0 && files.NoBlockIn(v) && files.LosesIndirectIn(v) && !files.Stops(files.log.image[v])
    ensures files.log.CanErase(v) && files.log.CanErase(files.log.g.usageSegment)
  {
  }

  /** Cleaning that segment succeeds, and the file is left pointing at an indirect block that is gone. */
  method LosingVictim(g: Geometry, flash: Flash, cacheSize: nat, checkpointInterval: nat, ghost now: u64)
    returns (files: FileLayer, r: Outcome, erased: Outcome)
    requires g.Ok() && now > 0 && Initialised(g, flash, FirstCheckpoint(g, now)) && cacheSize >= 1
    requires {flash, flash.data, flash.full, flash.wear} == flash.Repr
    requires g.FirstSegment() + 2 < g.flashSize && flash.wearLimit > 2 * SEAL_WEAR
    modifies flash, flash.data, flash.full, flash.wear
    ensures r == Done && erased == Done && !files.Valid()
  {
    hide *;
    var v;
    files, v := LosingState(g, flash, cacheSize, checkpointInterval, now);
    Losing(files, v);
    r, erased := files.CleanVictim(v);
  }
}
