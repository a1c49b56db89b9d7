/** Formatting a flash: where the regions go, and the image that every later state starts from. */
module Mklfs {
  import opened Words
  import opened FlashLayer
  import opened Segments
  import opened INodes
  import opened LogModel
  import opened Layout
  import opened Checkpoints
  import opened LogLayer
  import opened FileModel
  import opened InodeTable
  import opened FileViews
  import opened FileLayers
  import opened DirectoryLists
  import opened Paths
  import opened Namespace
  import opened DirectoryLayers

  // ---- Region arithmetic -----------------------------------------------------------------------

  /** sizeof(FlashData) and sizeof(SegmentUsageTableEntry). */
  const FLASH_DATA_BYTES: nat := 24
  const USAGE_ENTRY_BYTES: nat := 16

  /** Units of a size, at least one. */
  function UnitsOf(size: nat, unit: nat): (n: nat)
    requires unit > 0
  {
    var n := size / unit;
    if size % unit != 0 || n == 0 then n + 1 else n
  }

  lemma UnitsFit(size: nat, unit: nat, k: nat)
    requires unit > 0 && k >= 1
    ensures UnitsOf(size, unit) <= k <==> size <= k * unit
  {
    var n := size / unit;
    DivBounds(unit, size);
    if n <= k {
      MulOrder(n, k, unit);
    } else {
      MulOrder(k + 1, n, unit);
      assert (k + 1) * unit == k * unit + unit;
    }
    if n + 1 <= k {
      MulOrder(n + 1, k, unit);
    }
  }

  function UsageSegmentOf(g: Geometry): nat
    requires g.SegmentSectors() > 0
  {
    UnitsOf(UnitsOf(FLASH_DATA_BYTES, SECTOR_SIZE), g.SegmentSectors())
  }

  function CheckpointSegmentOf(g: Geometry): nat
    requires g.SegmentSectors() > 0
  {
    UsageSegmentOf(g) + UnitsOf(UnitsOf(USAGE_ENTRY_BYTES * g.flashSize, SECTOR_SIZE), g.SegmentSectors())
  }

  /** Segment 0 holds the flash data; the usage table has a segment of its own exactly if it fits in one. */
  lemma RegionsAre(g: Geometry)
    requires g.SegmentSectors() > 0
    ensures UsageSegmentOf(g) == 1 && CheckpointSegmentOf(g) >= 2
    ensures CheckpointSegmentOf(g) == 2 <==> USAGE_ENTRY_BYTES * g.flashSize <= g.SegmentBytes()
  {
    hide Geometry.SegmentSectors;
    UnitsFit(UnitsOf(FLASH_DATA_BYTES, SECTOR_SIZE), g.SegmentSectors(), 1);
    UnitsFit(UnitsOf(USAGE_ENTRY_BYTES * g.flashSize, SECTOR_SIZE), g.SegmentSectors(), 1);
    UnitsFit(USAGE_ENTRY_BYTES * g.flashSize, SECTOR_SIZE, g.SegmentSectors());
  }

  /** The flash is created with segmentSize * flashSize erase blocks: enough for the segments exactly up to 16-sector blocks. */
  lemma SegmentsFit(g: Geometry)
    requires g.segmentSize >= 1 && g.flashSize >= 1
    ensures g.flashSize * g.SegmentSectors() <= (g.segmentSize * g.flashSize) * SECTORS_PER_BLOCK <==> g.blockSize <= SECTORS_PER_BLOCK
  {
    var n := g.segmentSize * g.flashSize;
    assert n >= 1 by { MulGrows(g.segmentSize, g.flashSize); }
    assert g.flashSize * (g.segmentSize * g.blockSize) == n * g.blockSize;
    if g.blockSize <= SECTORS_PER_BLOCK {
      MulOrder(g.blockSize, SECTORS_PER_BLOCK, n);
    } else {
      MulOrder(SECTORS_PER_BLOCK + 1, g.blockSize, n);
    }
  }

  /** The root directory's block count: the remainder test is applied to the quotient, not to the size. */
  function BlocksFor(size: nat, bs: nat): (n: nat)
    requires bs > 0
  {
    var n := size / bs;
    if n % bs != 0 || n == 0 then n + 1 else n
  }

  /** So an exact multiple of the block size gets a block too many, and no size below bs * bs gets too few. */
  lemma BlocksForIs(size: nat, bs: nat)
    requires bs > 0 && size < bs * bs
    ensures BlocksFor(size, bs) == UnitsOf(size, bs) + if size > 0 && size % bs == 0 then 1 else 0
    ensures size <= BlocksFor(size, bs) * bs
  {
    var n := size / bs;
    DivBounds(bs, size);
    if n >= bs {
      MulOrder(bs, n, bs);
    }
    ModUnique(n, bs, 0, n);
    if size > 0 && n == 0 {
      ModUnique(size, bs, 0, size);
    }
  }

  // ---- The initial image -----------------------------------------------------------------------

  /** ".ifile" */
  const IFILE_NAME: seq<byte> := [0x2E, 0x69, 0x66, 0x69, 0x6C, 0x65]
  const ROOT_BYTES: nat := HEADER_BYTES + 3 * ENTRY_BYTES

  function RootDir(): (d: DirValue)
    ensures NamesOk(d) && |d.entries| == 3
  {
    Dir(DirEntry([SLASH], ROOT_INUM), [DirEntry(DOT, ROOT_INUM), DirEntry(DOTDOT, ROOT_INUM), DirEntry(IFILE_NAME, IFILE_INUM)])
  }

  function RootBlocks(bs: nat): (n: nat)
    requires bs >= SECTOR_SIZE
    ensures 1 <= n <= 3 && ROOT_BYTES <= n * bs
  {
    MulOrder(SECTOR_SIZE, bs, SECTOR_SIZE);
    MulOrder(SECTOR_SIZE, bs, bs);
    BlocksForIs(ROOT_BYTES, bs);
    UnitsFit(ROOT_BYTES, bs, 3);
    RootFits(bs);
    BlocksFor(ROOT_BYTES, bs)
  }

  lemma RootFits(bs: nat)
    requires bs >= SECTOR_SIZE
    ensures BlocksFor(ROOT_BYTES, bs) <= 3
  {
    DivBounds(bs, ROOT_BYTES);
    if ROOT_BYTES / bs >= 3 {
      MulOrder(3, ROOT_BYTES / bs, bs);
    }
  }

  lemma Blocks(g: Geometry)
    requires g.Ok()
    ensures g.BlockBytes() >= SECTOR_SIZE && g.BlockBytes() % 8 == 0
    ensures g.segmentSize >= SECTORS_PER_BLOCK && g.FirstSegment() < g.flashSize < FLASH_FULL && g.segmentSize < UINT_MAX
    ensures (g.segmentSize - 1) * g.BlockBytes() < 0x1_0000_0000
  {
    GeometryFacts(g);
  }

  /** The inode table's inode, kept in the checkpoint: one block, behind the summary block of the first log segment. */
  function TableINode(g: Geometry): (n: INode)
    requires g.Ok()
  {
    Blocks(g);
    INode(true, IFILE_INUM, File, INODE_BYTES, 1, [Addr(g.FirstSegment(), 1), EMPTY, EMPTY, EMPTY], EMPTY)
  }

  function RootINode(g: Geometry): (n: INode)
    requires g.Ok()
  {
    Blocks(g);
    var blocks := RootBlocks(g.BlockBytes());
    INode(true, ROOT_INUM, Directory, ROOT_BYTES, ROOT_NLINKS,
          seq(DIRECT_BLOCKS, b requires 0 <= b < DIRECT_BLOCKS => if b < blocks then Addr(g.FirstSegment(), 2 + b) else EMPTY), EMPTY)
  }

  function TableBlock(g: Geometry): (block: seq<byte>)
    requires g.Ok()
    ensures |block| == g.BlockBytes()
  {
    Blocks(g);
    EncodeINode(RootINode(g)) + Zeros(g.BlockBytes() - INODE_BYTES)
  }

  function RootData(g: Geometry): (data: seq<byte>)
    requires g.Ok()
    ensures g.BlockBytes() >= SECTOR_SIZE && |data| == RootBlocks(g.BlockBytes()) * g.BlockBytes()
    ensures data[..ROOT_BYTES] == EncodeDir(RootDir())
  {
    Blocks(g);
    EncodeDir(RootDir()) + Zeros(RootBlocks(g.BlockBytes()) * g.BlockBytes() - ROOT_BYTES)
  }

  function RootBlock(g: Geometry, k: nat): (block: seq<byte>)
    requires g.Ok() && g.BlockBytes() >= SECTOR_SIZE && k < RootBlocks(g.BlockBytes())
    ensures |block| == g.BlockBytes()
  {
    MulOrder(k + 1, RootBlocks(g.BlockBytes()), g.BlockBytes());
    Chunk(RootData(g), g.BlockBytes(), k)
  }

  /** What slot b of the first segment holds: the table's block, then the root directory's. */
  function FirstSlot(g: Geometry, b: nat): Slot
    requires g.Ok() && g.BlockBytes() >= SECTOR_SIZE && 1 <= b <= 1 + RootBlocks(g.BlockBytes())
  {
    if b == 1 then Slot(IFILE_INUM, 0, Data(0), TableBlock(g))
    else Slot(ROOT_INUM, b - 2, Data(b - 2), RootBlock(g, b - 2))
  }

  function FirstInum(blocks: nat, b: nat): i32 {
    if b == 0 then SUMMARY_BLOCK else if b == 1 then IFILE_INUM else if b <= 1 + blocks then ROOT_INUM else NO_INUM
  }

  function FirstFileBlock(blocks: nat, b: nat): i32
    requires blocks <= 3
  {
    if b == 0 then SUMMARY_BLOCK else if b == 1 then 0 else if b <= 1 + blocks then b - 2 else NO_BLOCK
  }

  function FirstImage(g: Geometry): (s: Segment)
    requires g.Ok()
    ensures WellFormed(g, s) && s.number == g.FirstSegment() && s.startSector == StartSector(g, s.number)
  {
    Blocks(g);
    ImageSize(g);
    hide Geometry.Ok, Geometry.BlockBytes, Geometry.SegmentSectors;
    var blocks := RootBlocks(g.BlockBytes());
    Segment(g.FirstSegment(), StartSector(g, g.FirstSegment()), g.segmentSize,
            seq(g.segmentSize, b requires 0 <= b < g.segmentSize => FirstInum(blocks, b)),
            seq(g.segmentSize, b requires 0 <= b < g.segmentSize => FirstFileBlock(blocks, b)),
            TableBlock(g) + RootData(g) + Zeros((g.segmentSize - 2 - blocks) * g.BlockBytes()))
  }

  lemma ImageSize(g: Geometry)
    requires g.Ok()
    ensures g.BlockBytes() >= SECTOR_SIZE && g.segmentSize - 2 - RootBlocks(g.BlockBytes()) >= 0
    ensures var n, bs := RootBlocks(g.BlockBytes()), g.BlockBytes();
            bs + n * bs + (g.segmentSize - 2 - n) * bs == (g.segmentSize - 1) * bs && (g.segmentSize - 2 - n) * bs >= 0
  {
    Blocks(g);
    var n, bs := RootBlocks(g.BlockBytes()), g.BlockBytes();
    hide Geometry.Ok, Geometry.BlockBytes, RootBlocks;
    assert (g.segmentSize - 1) * bs == (1 + n + (g.segmentSize - 2 - n)) * bs;
    MulOrder(0, g.segmentSize - 2 - n, bs);
  }

  ghost function FirstHeld(g: Geometry): Held
    requires g.Ok()
  {
    Blocks(g);
    var slots := SlotsOf(g.FirstSegment(), 2 + RootBlocks(g.BlockBytes()));
    map a | a in slots :: FirstSlot(g, a.slot)
  }

  function FirstLive(g: Geometry): (live: seq<word>)
    requires g.Ok()
    ensures |live| == g.flashSize
  {
    Blocks(g);
    LiveBytes(g);
    seq(g.flashSize, s requires 0 <= s < g.flashSize =>
      if s == g.FirstSegment() then (1 + RootBlocks(g.BlockBytes())) * g.BlockBytes() else 0)
  }

  lemma LiveBytes(g: Geometry)
    requires g.Ok()
    ensures g.BlockBytes() >= SECTOR_SIZE
    ensures 0 <= (1 + RootBlocks(g.BlockBytes())) * g.BlockBytes() < 0x1_0000_0000
  {
    Blocks(g);
    MulOrder(1 + RootBlocks(g.BlockBytes()), g.segmentSize - 1, g.BlockBytes());
    MulOrder(0, 1 + RootBlocks(g.BlockBytes()), g.BlockBytes());
  }

  ghost function FirstState(g: Geometry): LogState
    requires g.Ok()
  {
    LogState(FirstHeld(g), map[FirstImage(g).number := FirstImage(g)], FirstImage(g), [], FirstLive(g))
  }

  // ---- It satisfies the log's invariant --------------------------------------------------------

  lemma MiddleChunk(a: seq<byte>, b: seq<byte>, c: seq<byte>, n: nat, k: nat)
    requires |a| == n && (k + 1) * n <= |b|
    ensures (k + 2) * n <= |a + b + c|
    ensures Chunk(a + b + c, n, k + 1) == Chunk(b, n, k)
  {
    assert (k + 2) * n == (k + 1) * n + n && (k + 1) * n == k * n + n;
    SliceOfSlice(a + b + c, n, n + |b|, k * n, (k + 1) * n);
    assert (a + b + c)[n..n + |b|] == b;
  }

  lemma FirstChunk(a: seq<byte>, rest: seq<byte>, n: nat)
    requires |a| == n
    ensures Chunk(a + rest, n, 0) == a
  {
  }

  lemma ImageData(g: Geometry)
    requires g.Ok() && g.BlockBytes() >= SECTOR_SIZE
    ensures (g.segmentSize - 2 - RootBlocks(g.BlockBytes())) * g.BlockBytes() >= 0
    ensures FirstImage(g).data == TableBlock(g) + RootData(g) + Zeros((g.segmentSize - 2 - RootBlocks(g.BlockBytes())) * g.BlockBytes())
  {
    ImageSize(g);
  }

  lemma FirstBlock(g: Geometry, b: word)
    requires g.Ok() && g.BlockBytes() >= SECTOR_SIZE && 1 <= b <= 1 + RootBlocks(g.BlockBytes()) && b < g.segmentSize
    ensures BlockAt(g, FirstImage(g), b) == FirstSlot(g, b).data
  {
    hide Geometry.Ok, Geometry.BlockBytes, RootBlocks, TableBlock, RootData, FirstImage, Chunk;
    var n, bs := RootBlocks(g.BlockBytes()), g.BlockBytes();
    ImageData(g);
    var zeros := Zeros((g.segmentSize - 2 - n) * bs);
    hide Zeros;
    MulOrder(b, g.segmentSize - 1, bs);
    if b == 1 {
      assert TableBlock(g) + RootData(g) + zeros == TableBlock(g) + (RootData(g) + zeros);
      FirstChunk(TableBlock(g), RootData(g) + zeros, bs);
    } else {
      MulOrder(b - 1, n, bs);
      MiddleChunk(TableBlock(g), RootData(g), zeros, bs, b - 2);
    }
  }

  lemma FirstTags(g: Geometry, b: word)
    requires g.Ok() && g.BlockBytes() >= SECTOR_SIZE && 1 <= b <= 1 + RootBlocks(g.BlockBytes()) && b < g.segmentSize
    ensures FirstImage(g).inums[b] == FirstSlot(g, b).inum && FirstImage(g).fileBlocks[b] == FirstSlot(g, b).fileBlock
  {
    hide Geometry.Ok, Geometry.BlockBytes, RootBlocks, TableBlock, RootData, RootBlock, Zeros;
  }

  lemma FirstStored(g: Geometry, b: word)
    requires g.Ok() && g.BlockBytes() >= SECTOR_SIZE && 1 <= b <= 1 + RootBlocks(g.BlockBytes())
    ensures Stores(g, FirstImage(g), b, FirstSlot(g, b))
  {
    Blocks(g);
    ImageSize(g);
    hide Geometry.Ok, Geometry.BlockBytes, RootBlocks, FirstImage, FirstSlot, BlockAt;
    FirstBlock(g, b);
    FirstTags(g, b);
  }

  /** The image mklfs leaves satisfies the log's invariant: the base case of every run. */
  lemma FirstStateOk(g: Geometry)
    requires g.Ok()
    ensures LogInv(g, FirstState(g))
  {
    Blocks(g);
    ImageSize(g);
    var n := RootBlocks(g.BlockBytes());
    hide Geometry.Ok, Geometry.BlockBytes, Geometry.SegmentSectors, RootBlocks, Stores, StartSector, FirstSlot;
    var st := FirstState(g);
    forall a | a in st.held
      ensures a.seg == st.tail.number && 1 <= a.slot < g.segmentSize && Stores(g, st.tail, a.slot, st.held[a])
      ensures st.held[a].inum >= 0 && |st.held[a].data| == g.BlockBytes()
    {
      FirstStored(g, a.slot);
      FirstSlotSize(g, a.slot);
    }
    forall b: word | 1 <= b < g.segmentSize && st.tail.inums[b] != NO_INUM
      ensures Addr(st.tail.number, b) in st.held
    {
      assert b <= 1 + n;
      assert Addr(st.tail.number, b) in SlotsOf(g.FirstSegment(), 2 + n);
    }
    forall s: word | g.InLog(s) && s != st.tail.number
      ensures st.live[s] == g.BlockBytes() * |HeldIn(st.held, s)|
    {
      assert HeldIn(st.held, s) == {};
    }
    TailIs(g);
  }

  lemma FirstSlotSize(g: Geometry, b: nat)
    requires g.Ok() && g.BlockBytes() >= SECTOR_SIZE && 1 <= b <= 1 + RootBlocks(g.BlockBytes())
    ensures FirstSlot(g, b).inum >= 0 && |FirstSlot(g, b).data| == g.BlockBytes()
  {
  }

  lemma TailIs(g: Geometry)
    requires g.Ok()
    ensures TailShape(g, FirstImage(g)) && FirstImage(g).inums[g.segmentSize - 1] == NO_INUM
    ensures ImagesOk(g, FirstState(g).image) && g.InLog(FirstImage(g).number)
  {
    Blocks(g);
    hide Geometry.Ok, Geometry.BlockBytes, Geometry.SegmentSectors;
    GeometryFacts(g);
  }

  // ---- It holds a root directory and nothing else ----------------------------------------------

  lemma HeldAt(g: Geometry, b: word)
    requires g.Ok() && g.BlockBytes() >= SECTOR_SIZE && 1 <= b <= 1 + RootBlocks(g.BlockBytes())
    ensures g.FirstSegment() < UINT_MAX && b < UINT_MAX
    ensures var a := Addr(g.FirstSegment(), b); a in FirstHeld(g) && FirstHeld(g)[a] == FirstSlot(g, b)
  {
    Blocks(g);
    hide Geometry.Ok, Geometry.BlockBytes, RootBlocks, FirstSlot;
    assert Addr(g.FirstSegment(), b) in SlotsOf(g.FirstSegment(), 2 + RootBlocks(g.BlockBytes()));
  }

  /** The root's pointers and blocks. */
  lemma RootOwned(g: Geometry)
    requires g.Ok()
    ensures var bs, h, n := g.BlockBytes(), FirstHeld(g), RootINode(g);
            && bs >= SECTOR_SIZE && INodeOk(bs, h, ROOT_INUM, n)
            && (forall b: nat :: b < RootBlocks(bs) ==> Ptr(bs, h, n, b) != EMPTY && FileBlock(bs, h, n, b) == RootBlock(g, b))
  {
    Blocks(g);
    var bs, h, n := g.BlockBytes(), FirstHeld(g), RootINode(g);
    BlankIndirects(bs, h, n);
    hide Geometry.Ok, Geometry.BlockBytes, RootBlocks, RootBlock, TableBlock, FirstHeld, Indirects;
    forall b: nat
      ensures b < MaxBlocks(bs) ==> Points(bs, h, ROOT_INUM, b, Ptr(bs, h, n, b))
      ensures b < RootBlocks(bs) ==> Ptr(bs, h, n, b) != EMPTY && FileBlock(bs, h, n, b) == RootBlock(g, b)
    {
      if b < RootBlocks(bs) {
        HeldAt(g, 2 + b);
      }
    }
  }

  lemma ChunkByte(data: seq<byte>, n: nat, q: nat, k: nat)
    requires n > 0 && k < |data| == q * n
    ensures (StartBlock(n, k) + 1) * n <= |data| && Chunk(data, n, StartBlock(n, k))[Within(n, k)] == data[k]
  {
    hide Chunk, StartBlock, Within;
    BlockBelow(n, q, k);
    MulOrder(StartBlock(n, k) + 1, q, n);
    ChunkAt(data, n, StartBlock(n, k), Within(n, k));
    BlockAndRest(n, k);
  }

  lemma BlockAndRest(n: nat, k: nat)
    requires n > 0
    ensures StartBlock(n, k) * n + Within(n, k) == k
  {
  }

  lemma ChunkAt(data: seq<byte>, n: nat, i: nat, r: nat)
    requires (i + 1) * n <= |data| && r < n
    ensures i * n + r < |data| && Chunk(data, n, i)[r] == data[i * n + r]
  {
    OneMore(i, n);
  }

  lemma RootContents(g: Geometry)
    requires g.Ok()
    ensures g.BlockBytes() > 0 && Contents(g.BlockBytes(), FirstHeld(g), RootINode(g)) == EncodeDir(RootDir())
    ensures NoHoles(g.BlockBytes(), FirstHeld(g), RootINode(g))
  {
    Blocks(g);
    RootOwned(g);
    var bs, h, n := g.BlockBytes(), FirstHeld(g), RootINode(g);
    assert n.fileSize == ROOT_BYTES;
    hide Geometry.Ok, Geometry.BlockBytes, RootBlocks, RootINode, FirstHeld, FileBlock, Ptr, RootData, Chunk,
         EncodeDir, ByteAt, StartBlock, Within;
    forall k: nat | k < ROOT_BYTES
      ensures ByteAt(bs, h, n, k) == EncodeDir(RootDir())[k]
    {
      ChunkByte(RootData(g), bs, RootBlocks(bs), k);
      BlockBelow(bs, RootBlocks(bs), k);
      ByteIs(bs, h, n, k);
      assert RootData(g)[..ROOT_BYTES][k] == RootData(g)[k];
    }
    forall b: nat | b * bs < ROOT_BYTES
      ensures Ptr(bs, h, n, b) != EMPTY
    {
      BelowMax(bs, b, RootBlocks(bs), b * bs);
    }
  }

  lemma BlockBelow(bs: nat, m: nat, k: nat)
    requires bs > 0 && k < m * bs
    ensures StartBlock(bs, k) < m
  {
    QuotientBelow(bs, k);
    BelowMax(bs, StartBlock(bs, k), m, k);
  }

  /** The table file is one record long, and that record is the root's inode. */
  lemma TableContents(g: Geometry)
    requires g.Ok()
    ensures g.BlockBytes() > 0 && Contents(g.BlockBytes(), FirstHeld(g), TableINode(g)) == EncodeINode(RootINode(g))
    ensures IFileOk(g.BlockBytes(), FirstHeld(g), TableINode(g), 1)
  {
    Blocks(g);
    var bs, h, n := g.BlockBytes(), FirstHeld(g), TableINode(g);
    BlankIndirects(bs, h, n);
    HeldAt(g, 1);
    MulOrder(4, MaxBlocks(bs), bs);
    var block := TableBlock(g);
    assert block[..INODE_BYTES] == EncodeINode(RootINode(g));
    hide Geometry.Ok, Geometry.BlockBytes, RootINode, FirstHeld, TableBlock, EncodeINode, Indirects, MaxBlocks;
    assert FileBlock(bs, h, n, 0) == block;
    forall b: nat | b < MaxBlocks(bs)
      ensures Points(bs, h, IFILE_INUM, b, Ptr(bs, h, n, b))
    {
    }
    hide FileBlock, Ptr;
    forall k: nat | k < INODE_BYTES
      ensures ByteAt(bs, h, n, k) == EncodeINode(RootINode(g))[k]
    {
      ModUnique(k, bs, 0, k);
      assert block[..INODE_BYTES][k] == block[k];
    }
    forall b: nat | b * bs < INODE_BYTES
      ensures b == 0
    {
      if b >= 1 {
        MulOrder(1, b, bs);
      }
    }
  }

  /** The view of the root directory as formatted. */
  function RootView(): FileView {
    FileView(true, Directory, ROOT_NLINKS, EncodeDir(RootDir()))
  }

  lemma SingleRecord(bs: nat, h: Held, ifile: INode, root: INode)
    requires IFileOk(bs, h, ifile, 1) && Entry(bs, h, ifile, 1) == root && EntryOk(bs, h, 1, root)
    ensures TableOk(bs, h, ifile, 1) && Views(bs, h, ifile, 1) == [ViewOf(bs, h, root)]
  {
    hide Entry, IFileOk, EntryOk, ViewOf;
  }

  lemma RootShape(g: Geometry)
    requires g.Ok()
    ensures var n := RootINode(g); n.inUse && n.fileType == Directory && n.nlinks == ROOT_NLINKS
    ensures TableINode(g).fileSize == INODE_BYTES
  {
  }

  lemma FirstTableOk(g: Geometry)
    requires g.Ok()
    ensures TableOk(g.BlockBytes(), FirstHeld(g), TableINode(g), 1)
    ensures g.BlockBytes() > 0 && Views(g.BlockBytes(), FirstHeld(g), TableINode(g), 1) == [RootView()]
  {
    hide Geometry.Ok, Geometry.BlockBytes, FirstHeld, INodeOk, IFileOk, NoHoles, Contents, EncodeINode, DecodeINode,
         EncodeDir, RootINode, TableINode, TableOk;
    hide Views, RootDir, Ptr, FileBlock, RootBlock, RootBlocks;
    RootOwned(g);
    RootContents(g);
    TableContents(g);
    RootShape(g);
    var bs, h, n := g.BlockBytes(), FirstHeld(g), TableINode(g);
    FirstEntry(bs, h, n, RootINode(g));
    SingleRecord(bs, h, n, RootINode(g));
  }

  lemma FirstEntry(bs: nat, h: Held, n: INode, root: INode)
    requires bs > 0 && n.fileSize == INODE_BYTES && Contents(bs, h, n) == EncodeINode(root)
    ensures Entry(bs, h, n, 1) == root
  {
    hide EncodeINode, DecodeINode, Contents;
    INodeRoundTrip(root);
    assert EncodeINode(root)[0..INODE_BYTES] == EncodeINode(root);
  }

  /** One name: the table file's. */
  const FIRST_TREE: Tree := map[Key(ROOT_INUM, IFILE_NAME) := IFILE_INUM]

  lemma RootReads()
    ensures DirOk(ROOT_INUM, RootView().contents)
    ensures DirAt([RootView()], ROOT_INUM) == RootDir().entries
  {
    hide DecodeDir, EncodeDir, WholeDir, Find, Distinct;
    var d := RootDir();
    DirRoundTrip(d, []);
    assert EncodeDir(d) + [] == EncodeDir(d);
    RootLookups();
  }

  lemma FirstShown()
    ensures Shown([RootView()], FIRST_TREE)
  {
    var v := [RootView()];
    RootReads();
    RootLookups();
    NothingIn();
    hide DecodeDir, WholeDir, EncodeDir, Find, RootDir;
    forall j: word, n: seq<byte>
      ensures (if Key(j, n) in FIRST_TREE then Found(FIRST_TREE[Key(j, n)]) else Missing) == if IsDot(n) then Missing else Find(DirAt(v, j), n)
    {
      if j != ROOT_INUM {
        assert DirAt(v, j) == [];
      }
    }
  }

  lemma FirstFits(bs: nat)
    requires bs >= SECTOR_SIZE
    ensures AllFit(bs, [RootView()])
  {
    MulOrder(4, MaxBlocks(bs), bs);
    hide MaxBlocks, DirAt, RootView;
    forall j: word
      ensures DirFits(bs, |DirAt([RootView()], j)|)
    {
      FewEntries(j);
    }
  }

  lemma FirstCounts()
    ensures TargetsOk([RootView()], FIRST_TREE) && CountsOk([RootView()], FIRST_TREE)
  {
    hide EncodeDir, RootDir;
    assert LinksTo(FIRST_TREE, ROOT_INUM) == {};
  }

  /** The names of a fresh file system are in order. */
  lemma FirstNamesOk(bs: nat)
    requires bs >= SECTOR_SIZE
    ensures NamespaceOk([RootView()], FIRST_TREE) && AllFit(bs, [RootView()])
  {
    hide EncodeDir, RootDir, DirOk, Shown, TargetsOk, CountsOk, AllFit;
    RootReads();
    FirstShown();
    FirstCounts();
    FirstFits(bs);
  }

  lemma FewEntries(j: word)
    ensures |DirAt([RootView()], j)| <= 3
  {
  }

  lemma RootLookups()
    ensures Distinct(RootDir().entries)
    ensures forall n: seq<byte> ::
      Find(RootDir().entries, n) == if n == IFILE_NAME then Found(IFILE_INUM) else if IsDot(n) then Found(ROOT_INUM) else Missing
  {
    var es := RootDir().entries;
    forall n: seq<byte>
      ensures Find(es, n) == if n == IFILE_NAME then Found(IFILE_INUM) else if IsDot(n) then Found(ROOT_INUM) else Missing
    {
      PositionIs(es, n, if n == DOT then 0 else if n == DOTDOT then 1 else if n == IFILE_NAME then 2 else 3);
    }
  }

  // ---- Writing it ------------------------------------------------------------------------------

  ghost predicate FlashReady(g: Geometry, flash: Flash)
    reads flash, flash.Repr
  {
    g.Ok() && flash.Valid() && Sized(g, flash.Bytes())
  }

  /** m sectors from the k-th of segment s are FULL too. */
  ghost predicate FullPart(g: Geometry, full: seq<bool>, full': seq<bool>, s: nat, k: nat, m: nat) {
    && |full'| == |full|
    && forall j: nat :: FullAt(full', j) <==>
         FullAt(full, j) || s * g.SegmentSectors() + k <= j < s * g.SegmentSectors() + k + m
  }

  lemma PartStates(g: Geometry, full: seq<bool>, full': seq<bool>, s: nat, k: nat, m: nat)
    requires FullPart(g, full, full', s, k, m) && k + m <= g.SegmentSectors()
    ensures StatesOutside(g, full, full', s)
    ensures Clear(g, full, s, k) ==> Clear(g, full', s, k + m)
  {
    SectorsInSegment(g, s);
    hide Geometry.SegmentSectors, InSegment, FullAt;
    if Clear(g, full, s, k) {
      forall j | InSegment(g, s, j) && s * g.SegmentSectors() + (k + m) <= j
        ensures !FullAt(full', j)
      {
        InSegmentNat(g, s, j);
      }
    }
  }

  /** Flash_Write of part of a segment whose remaining sectors are EMPTY: it succeeds and touches no other segment. */
  method WritePart(g: Geometry, flash: Flash, s: nat, k: nat, m: nat, buffer: seq<byte>) returns (rc: nat)
    requires FlashReady(g, flash) && {flash, flash.data, flash.full, flash.wear} == flash.Repr
    requires s < g.flashSize && k + m <= g.SegmentSectors() && |buffer| == m * SECTOR_SIZE && Clear(g, flash.full[..], s, k)
    modifies flash, flash.data, flash.full
    ensures FlashReady(g, flash) && rc == 0
    ensures SameOutside(g, old(flash.Bytes()), flash.Bytes(), s) && (k + m) * SECTOR_SIZE <= g.SegmentBytes()
    ensures SegmentOn(g, flash.Bytes(), s) == Spliced(SegmentOn(g, old(flash.Bytes()), s), k * SECTOR_SIZE, buffer)
    ensures FullPart(g, old(flash.full[..]), flash.full[..], s, k, m)
    ensures StatesOutside(g, old(flash.full[..]), flash.full[..], s) && Clear(g, flash.full[..], s, k + m)
  {
    hide Geometry.Ok, Geometry.SegmentSectors, Geometry.SegmentBytes, Flash.Bytes, SegmentOn, SameOutside, Spliced,
         Clear, StatesOutside;
    PartWrite(g, flash.Bytes(), s, k, m, buffer);
    ghost var before := flash.full[..];
    ClearRange(g, before, s, k, m);
    rc := flash.Write(s * g.SegmentSectors() + k, m, buffer);
    PartStates(g, before, flash.full[..], s, k, m);
  }

  lemma ClearRange(g: Geometry, full: seq<bool>, s: nat, k: nat, m: nat)
    requires Clear(g, full, s, k) && k + m <= g.SegmentSectors()
    ensures forall j :: s * g.SegmentSectors() + k <= j < s * g.SegmentSectors() + k + m && 0 <= j < |full| ==> !full[j]
  {
    SectorsInSegment(g, s);
    hide Geometry.SegmentSectors, InSegment;
    assert forall j :: 0 <= j < |full| ==> FullAt(full, j) == full[j];
  }

  lemma SplicedOnto(z: nat, a: seq<byte>, n: nat, b: seq<byte>)
    requires |a| == n
    ensures Spliced(a + Zeros(|b| + z), n, b) == (a + b) + Zeros(z)
  {
  }

  /** The first segment's bytes, piece by piece. */
  lemma ImageBytes(g: Geometry)
    requires g.Ok()
    ensures var n, bs := RootBlocks(g.BlockBytes()), g.BlockBytes();
            && g.segmentSize - 2 - n >= 0 && (g.segmentSize - 2 - n) * bs >= 0
            && 4 * |SummaryWords(FirstImage(g))| <= bs
            && EncodeSegment(g, FirstImage(g)) ==
                 SummaryBlock(bs, FirstImage(g)) + TableBlock(g) + RootData(g) + Zeros((g.segmentSize - 2 - n) * bs)
  {
    Blocks(g);
    ImageSize(g);
    GeometryFacts(g);
    hide Geometry.Ok, Geometry.BlockBytes, RootBlocks, TableBlock, RootData, SummaryBlock, FirstImage;
    ImageData(g);
    var n, bs := RootBlocks(g.BlockBytes()), g.BlockBytes();
    var zeros := Zeros((g.segmentSize - 2 - n) * bs);
    hide Zeros;
    var summary := SummaryBlock(bs, FirstImage(g));
    Reassociated(summary, TableBlock(g), RootData(g), zeros);
  }

  lemma Reassociated(a: seq<byte>, b: seq<byte>, c: seq<byte>, d: seq<byte>)
    ensures a + (b + c + d) == a + b + c + d
  {
  }

  lemma FirstWordZero(n: nat)
    requires n >= 4
    ensures DecodeWords(Zeros(n))[0] == 0
  {
  }

  /** Zeros read back as no valid checkpoint. */
  lemma BlankInvalid(n: nat)
    requires n == SECTOR_SIZE
    ensures !DecodeCheckpoint(Zeros(n)).isValid
  {
    hide INodeWords, WordsINode, DecodeWords, Zeros, JoinWords;
    FirstWordZero(n);
  }

  lemma ZeroSector(n: nat, bytes: seq<byte>, k: nat)
    requires |bytes| == SECTOR_SIZE && k >= 1 && (k + 1) * SECTOR_SIZE <= n
    ensures SectorOf(Spliced(Zeros(n), 0, bytes), k) == Zeros(SECTOR_SIZE)
  {
    var region := Spliced(Zeros(n), 0, bytes);
    var sector := SectorOf(region, k);
    forall i | 0 <= i < |sector|
      ensures sector[i] == 0
    {
      assert sector[i] == region[k * SECTOR_SIZE + i];
    }
  }

  /** The region after its first checkpoint. */
  lemma FirstRing(n: nat, c: Checkpoint)
    requires c.isValid && c.time > 0 && n >= SECTOR_SIZE
    ensures RingOk(Spliced(Zeros(n), 0, EncodeCheckpoint(c)), 0, c)
  {
    hide EncodeCheckpoint, DecodeCheckpoint;
    var region := Spliced(Zeros(n), 0, EncodeCheckpoint(c));
    CheckpointRoundTrip(c);
    assert SectorOf(region, 0) == EncodeCheckpoint(c);
    BlankInvalid(SECTOR_SIZE);
    hide Zeros;
    forall k: nat | k != 0 && (k + 1) * SECTOR_SIZE <= |region|
      ensures SectorOf(region, k) == Zeros(SECTOR_SIZE)
    {
      ZeroSector(n, EncodeCheckpoint(c), k);
    }
  }

  /** The usage table is written as whole sectors; what follows was zero. */
  lemma FirstUsage(g: Geometry, live: seq<word>, m: nat)
    requires g.Ok() && |live| == g.flashSize && 16 * g.flashSize <= m * SECTOR_SIZE <= g.SegmentBytes()
    ensures Spliced(Zeros(g.SegmentBytes()), 0, EncodeWords(UsageWords(live)) + Zeros(m * SECTOR_SIZE - 16 * g.flashSize)) == UsageBytes(g, live)
  {
    hide EncodeWords, UsageWords, Geometry.SegmentBytes, Geometry.Ok;
  }

  lemma ZeroSegment(g: Geometry, d: seq<byte>, s: nat)
    requires g.Ok() && Sized(g, d) && s < g.flashSize && forall k :: 0 <= k < |d| ==> d[k] == 0
    ensures SegmentOn(g, d, s) == Zeros(g.SegmentBytes())
  {
    hide Geometry.Ok, Geometry.SegmentBytes;
    MulOrder(s + 1, g.flashSize, g.SegmentBytes());
    ZeroChunk(d, g.SegmentBytes(), s);
  }

  lemma ZeroChunk(d: seq<byte>, n: nat, i: nat)
    requires (i + 1) * n <= |d| && forall k :: 0 <= k < |d| ==> d[k] == 0
    ensures Chunk(d, n, i) == Zeros(n)
  {
  }

  /** The loops that fill the summary arrays. */
  method FillSummary(g: Geometry) returns (inums: seq<i32>, fileBlocks: seq<i32>)
    requires g.Ok()
    ensures inums == FirstImage(g).inums && fileBlocks == FirstImage(g).fileBlocks
  {
    Blocks(g);
    hide Geometry.Ok, Geometry.BlockBytes, RootBlocks, TableBlock, RootData;
    ImageSize(g);
    var tableBlocks, rootBlocks := 1, RootBlocks(g.BlockBytes());
    inums, fileBlocks := Column(g.segmentSize, NO_INUM), Column(g.segmentSize, NO_BLOCK);
    var b := 1;
    while b <= tableBlocks
      invariant 1 <= b <= tableBlocks + 1 && |inums| == |fileBlocks| == g.segmentSize
      invariant forall j :: 0 <= j < g.segmentSize ==> inums[j] == if j < b then FirstInum(rootBlocks, j) else NO_INUM
      invariant forall j :: 0 <= j < g.segmentSize ==> fileBlocks[j] == if j < b then FirstFileBlock(rootBlocks, j) else NO_BLOCK
    {
      inums, fileBlocks := inums[b := IFILE_INUM], fileBlocks[b := b - 1];
      b := b + 1;
    }
    while b <= tableBlocks + rootBlocks
      invariant tableBlocks < b <= tableBlocks + rootBlocks + 1 && |inums| == |fileBlocks| == g.segmentSize
      invariant forall j :: 0 <= j < g.segmentSize ==> inums[j] == if j < b then FirstInum(rootBlocks, j) else NO_INUM
      invariant forall j :: 0 <= j < g.segmentSize ==> fileBlocks[j] == if j < b then FirstFileBlock(rootBlocks, j) else NO_BLOCK
    {
      inums, fileBlocks := inums[b := ROOT_INUM], fileBlocks[b := b - tableBlocks - 1];
      b := b + 1;
    }
  }

  function FirstCheckpoint(g: Geometry, now: u64): Checkpoint
    requires g.Ok()
  {
    Blocks(g);
    Checkpoint(true, now, g.usageSegment, g.FirstSegment(), TableINode(g))
  }

  /** The log segments after the first. */
  ghost function LaterSegments(g: Geometry): set<word> {
    set s: word | g.InLog(s) && s != g.FirstSegment()
  }

  /** What initFlash leaves on a new flash: the first state, one checkpoint, every later segment EMPTY and no block worn. */
  ghost predicate Initialised(g: Geometry, flash: Flash, first: Checkpoint)
    reads flash, flash.Repr
  {
    && FlashReady(g, flash)
    && FlashHolds(g, flash.Bytes(), flash.full[..], 0, first, FirstState(g), RingBase(g), 0, LaterSegments(g))
    && forall b :: 0 <= b < flash.wear.Length ==> flash.wear[b] == 0
  }

  /** The summary block, the table's block and the root directory's blocks, each with a write of its own. */
  method WriteImage(g: Geometry, flash: Flash) returns (rc: nat)
    requires FlashReady(g, flash) && {flash, flash.data, flash.full, flash.wear} == flash.Repr
    requires Clear(g, flash.full[..], g.FirstSegment(), 0) && g.FirstSegment() < g.flashSize
    requires SegmentOn(g, flash.Bytes(), g.FirstSegment()) == Zeros(g.SegmentBytes())
    modifies flash, flash.data, flash.full
    ensures FlashReady(g, flash) && rc == 0 && SameOutside(g, old(flash.Bytes()), flash.Bytes(), g.FirstSegment())
    ensures SegmentOn(g, flash.Bytes(), g.FirstSegment()) == EncodeSegment(g, FirstImage(g))
    ensures StatesOutside(g, old(flash.full[..]), flash.full[..], g.FirstSegment())
  {
    hide Geometry.Ok, Geometry.SegmentSectors, Geometry.SegmentBytes, Flash.Bytes, Flash.Valid, Sized, SegmentOn,
         Clear, Zeros, EncodeSegment, Spliced;
    hide TableBlock, RootData, SummaryBlock, RootBlocks, SameOutside, FirstImage, StatesOutside, FullPart;
    Blocks(g);
    ImageBytes(g);
    PieceSectors(g);
    var f, bs, n := g.FirstSegment(), g.BlockBytes(), RootBlocks(g.BlockBytes());
    ghost var d0, f0, rest := flash.Bytes(), flash.full[..], (g.segmentSize - 2 - n) * bs;
    var inums, fileBlocks := FillSummary(g);
    var summary := SummaryBlock(bs, FirstImage(g).(inums := inums, fileBlocks := fileBlocks));
    rc := WritePart(g, flash, f, 0, g.blockSize, summary);
    ghost var d1, f1 := flash.Bytes(), flash.full[..];
    rc := WritePart(g, flash, f, g.blockSize, g.blockSize, TableBlock(g));
    ghost var d2, f2 := flash.Bytes(), flash.full[..];
    rc := WritePart(g, flash, f, 2 * g.blockSize, n * g.blockSize, RootData(g));
    ImagePieces(g, summary, rest);
    OutsideChain(g, d0, d1, d2, flash.Bytes(), f);
    StatesChain(g, f0, f1, f2, flash.full[..], f);
  }

  lemma PieceSectors(g: Geometry)
    requires g.Ok() && g.BlockBytes() >= SECTOR_SIZE
    ensures var n := RootBlocks(g.BlockBytes());
            && g.blockSize * SECTOR_SIZE == g.BlockBytes()
            && 2 * g.blockSize * SECTOR_SIZE == 2 * g.BlockBytes()
            && n * g.blockSize * SECTOR_SIZE == n * g.BlockBytes()
            && 2 * g.blockSize + n * g.blockSize <= g.SegmentSectors()
            && n * g.blockSize >= 0
  {
    var n := RootBlocks(g.BlockBytes());
    hide RootBlocks;
    MulOrder(2 + n, g.segmentSize, g.blockSize);
    MulOrder(0, n, g.blockSize);
    assert (2 + n) * g.blockSize == 2 * g.blockSize + n * g.blockSize;
  }

  lemma ImagePieces(g: Geometry, summary: seq<byte>, rest: nat)
    requires g.Ok() && g.BlockBytes() >= SECTOR_SIZE && |summary| == g.BlockBytes()
    requires rest == (g.segmentSize - 2 - RootBlocks(g.BlockBytes())) * g.BlockBytes()
    ensures g.SegmentBytes() == |summary| + |TableBlock(g)| + |RootData(g)| + rest
    ensures Spliced(Spliced(Spliced(Zeros(g.SegmentBytes()), 0, summary), g.BlockBytes(), TableBlock(g)), 2 * g.BlockBytes(), RootData(g))
              == summary + TableBlock(g) + RootData(g) + Zeros(rest)
  {
    GeometryFacts(g);
    ImageSize(g);
    var bs, a, b, c := g.BlockBytes(), summary, TableBlock(g), RootData(g);
    hide Geometry.Ok, Geometry.BlockBytes, Geometry.SegmentBytes, TableBlock, RootData, RootBlocks, Zeros, Spliced;
    SplicedOnto(|b| + |c| + rest, [], 0, a);
    assert [] + Zeros(|a| + (|b| + |c| + rest)) == Zeros(g.SegmentBytes()) && [] + a == a;
    SplicedOnto(|c| + rest, a, bs, b);
    SplicedOnto(rest, a + b, 2 * bs, c);
  }

  lemma OutsideChain(g: Geometry, d0: seq<byte>, d1: seq<byte>, d2: seq<byte>, d3: seq<byte>, s: nat)
    requires g.Ok() && Sized(g, d0) && Sized(g, d1) && Sized(g, d2) && Sized(g, d3)
    requires SameOutside(g, d0, d1, s) && SameOutside(g, d1, d2, s) && SameOutside(g, d2, d3, s)
    ensures SameOutside(g, d0, d3, s)
  {
  }

  lemma StatesChain(g: Geometry, f0: seq<bool>, f1: seq<bool>, f2: seq<bool>, f3: seq<bool>, s: nat)
    requires StatesOutside(g, f0, f1, s) && StatesOutside(g, f1, f2, s) && StatesOutside(g, f2, f3, s)
    ensures StatesOutside(g, f0, f3, s)
  {
    hide InSegment, FullAt;
  }

  /** A flash as its constructor makes it. */
  ghost predicate Blank(flash: Flash)
    reads flash.full, flash.data, flash.wear
  {
    && (forall b :: 0 <= b < flash.wear.Length ==> flash.wear[b] == 0)
    && (forall k :: 0 <= k < flash.full.Length ==> !flash.full[k])
    && (forall k :: 0 <= k < flash.data.Length ==> flash.data[k] == 0)
  }

  lemma BlankSegment(g: Geometry, flash: Flash, s: nat)
    requires FlashReady(g, flash) && Blank(flash) && s < g.flashSize
    ensures Clear(g, flash.full[..], s, 0) && SegmentOn(g, flash.Bytes(), s) == Zeros(g.SegmentBytes())
  {
    hide Geometry.Ok, Geometry.SegmentBytes, Geometry.SegmentSectors, Flash.Valid, Sized, SegmentOn;
    assert forall k :: 0 <= k < |flash.Bytes()| ==> flash.Bytes()[k] == 0;
    ZeroSegment(g, flash.Bytes(), s);
  }

  lemma UsageSectors(g: Geometry)
    requires g.Ok()
    ensures var m := UnitsOf(USAGE_ENTRY_BYTES * g.flashSize, SECTOR_SIZE);
            16 * g.flashSize <= m * SECTOR_SIZE <= g.SegmentBytes() && m <= g.SegmentSectors() && g.SegmentSectors() >= 1
  {
    PositiveSectors(g);
    UnitsFit(16 * g.flashSize, SECTOR_SIZE, UnitsOf(16 * g.flashSize, SECTOR_SIZE));
    UnitsFit(16 * g.flashSize, SECTOR_SIZE, g.SegmentSectors());
  }

  /**
   * initFlash on a blank flash: flash data, checkpoint, first log segment, usage table. `flashData` is the sector with the
   * geometry fields, whatever follows them.
   */
  method InitFlash(g: Geometry, flash: Flash, now: u64, flashData: seq<byte>) returns (rc: nat)
    requires FlashReady(g, flash) && {flash, flash.data, flash.full, flash.wear} == flash.Repr && Blank(flash)
    requires g.SegmentSectors() > 0 && g.usageSegment == UsageSegmentOf(g) && g.checkpointSegment == CheckpointSegmentOf(g)
    requires now > 0 && |flashData| == SECTOR_SIZE
    modifies flash, flash.data, flash.full
    ensures rc == 0 && Initialised(g, flash, FirstCheckpoint(g, now))
  {
    hide Geometry.Ok, Geometry.SegmentSectors, Geometry.SegmentBytes, Geometry.BlockBytes, Flash.Bytes, Flash.Valid,
         Sized, SegmentOn, Clear, Zeros;
    hide EncodeSegment, Spliced, SameOutside, FirstImage, RingOk, UsageBytes, UsageWords, EncodeWords,
         EncodeCheckpoint, FirstLive, UnitsOf, TableINode;
    hide StatesOutside, RingFilled, AllClear, LaterSegments, FullPart, LogInv, OnFlash, RecoveredTail, PointersSettled;
    GeometryFacts(g);
    UsageSectors(g);
    var u, c, f, first := g.usageSegment, g.checkpointSegment, g.FirstSegment(), FirstCheckpoint(g, now);
    BlankSegment(g, flash, 0);
    BlankSegment(g, flash, u);
    BlankSegment(g, flash, c);
    BlankSegment(g, flash, f);
    BlankLater(g, flash);
    ghost var d0, f0 := flash.Bytes(), flash.full[..];
    rc := WritePart(g, flash, 0, 0, 1, flashData);
    ghost var d1, f1 := flash.Bytes(), flash.full[..];
    UntouchedStates(g, f0, f1, 0);
    rc := WritePart(g, flash, c, 0, CHECKPOINT_SIZE_IN_SECTORS, EncodeCheckpoint(first));
    ghost var d2, f2 := flash.Bytes(), flash.full[..];
    UntouchedStates(g, f1, f2, c);
    FirstFilled(g, f1, f2);
    Untouched(g, d0, d1, 0);
    Untouched(g, d1, d2, c);
    rc := WriteImage(g, flash);
    ghost var d3, f3 := flash.Bytes(), flash.full[..];
    UntouchedStates(g, f2, f3, f);
    var m := UnitsOf(USAGE_ENTRY_BYTES * g.flashSize, SECTOR_SIZE);
    rc := WritePart(g, flash, u, 0, m, EncodeWords(UsageWords(FirstLive(g))) + Zeros(m * SECTOR_SIZE - 16 * g.flashSize));
    UntouchedStates(g, f3, flash.full[..], u);
    Untouched(g, d2, d3, f);
    Untouched(g, d3, flash.Bytes(), u);
    FirstRing(g.SegmentBytes(), first);
    FirstUsage(g, FirstLive(g), m);
    FirstOnFlash(g, flash.Bytes());
    FirstHolds(g, flash.Bytes(), flash.full[..], first);
  }

  lemma BlankLater(g: Geometry, flash: Flash)
    requires FlashReady(g, flash) && Blank(flash)
    ensures AllClear(g, flash.full[..], LaterSegments(g))
  {
    hide Geometry.Ok, InSegment;
  }

  /** Sector states that a write to segment s does not touch. */
  lemma UntouchedStates(g: Geometry, full: seq<bool>, full': seq<bool>, s: nat)
    requires g.Ok() && StatesOutside(g, full, full', s) && s <= g.FirstSegment()
    ensures g.usageSegment != s && Clear(g, full, g.usageSegment, 0) ==> Clear(g, full', g.usageSegment, 0)
    ensures g.checkpointSegment != s && Clear(g, full, g.checkpointSegment, 0) ==> Clear(g, full', g.checkpointSegment, 0)
    ensures g.FirstSegment() != s && Clear(g, full, g.FirstSegment(), 0) ==> Clear(g, full', g.FirstSegment(), 0)
    ensures AllClear(g, full, LaterSegments(g)) ==> AllClear(g, full', LaterSegments(g))
    ensures g.checkpointSegment != s && RingFilled(g, full, RingBase(g), 0) ==> RingFilled(g, full', RingBase(g), 0)
  {
    hide StatesOutside, Clear, RingFilled, RingBase, Geometry.Ok, AllClear;
    forall r: nat | r != s && Clear(g, full, r, 0)
      ensures Clear(g, full', r, 0)
    {
      ClearElsewhere(g, full, full', s, r, 0);
    }
    if AllClear(g, full, LaterSegments(g)) {
      AllClearOutside(g, full, full', s, LaterSegments(g));
      assert (LaterSegments(g) - set r | r in LaterSegments(g) && r == s) == LaterSegments(g);
    }
    if g.checkpointSegment != s && RingFilled(g, full, RingBase(g), 0) {
      RingFramed(g, full, full', s, RingBase(g), 0);
    }
  }

  /** The first checkpoint in a region of EMPTY sectors. */
  lemma FirstFilled(g: Geometry, full: seq<bool>, full': seq<bool>)
    requires Clear(g, full, g.checkpointSegment, 0) && FullPart(g, full, full', g.checkpointSegment, 0, 1) && g.SegmentSectors() >= 1
    ensures RingFilled(g, full', RingBase(g), 0)
  {
    hide Geometry.SegmentSectors, FullAt, InSegment;
    assert NthSector(g, RingBase(g), 0) == RingBase(g);
    forall k: nat | RingBase(g) <= k < RingBase(g) + g.SegmentSectors()
      ensures FullAt(full', k) <==> WrittenBy(g, RingBase(g), 0, k)
    {
      RingInSegment(g, k);
    }
  }

  lemma FirstHolds(g: Geometry, d: seq<byte>, full: seq<bool>, first: Checkpoint)
    requires g.Ok() && Sized(g, d) && g.usageSegment < g.flashSize && g.checkpointSegment < g.flashSize
    requires first == FirstCheckpoint(g, first.time) && RingOk(SegmentOn(g, d, g.checkpointSegment), 0, first)
    requires OnFlash(g, FirstState(g).image, d) && SegmentOn(g, d, g.usageSegment) == UsageBytes(g, FirstLive(g))
    requires RingFilled(g, full, RingBase(g), 0) && AllClear(g, full, LaterSegments(g)) && g.SegmentSectors() > 0
    ensures FlashHolds(g, d, full, 0, first, FirstState(g), RingBase(g), 0, LaterSegments(g))
  {
    hide Geometry.Ok, Geometry.SegmentBytes, Geometry.SegmentSectors, RingOk, SegmentOn, OnFlash, UsageBytes, RingFilled,
         AllClear, LaterSegments, LogInv, FirstImage, FirstLive, RecoveredTail, PointersSettled, TableINode, Sized, RingBase;
    FirstStateOk(g);
    FirstTail(g);
    assert NthSector(g, RingBase(g), 0) == RingBase(g);
  }

  lemma Untouched(g: Geometry, d: seq<byte>, d': seq<byte>, s: nat)
    requires g.Ok() && Sized(g, d) && Sized(g, d') && SameOutside(g, d, d', s)
    ensures 0 < g.usageSegment < g.checkpointSegment < g.FirstSegment() < g.flashSize
    ensures 0 != s ==> SegmentOn(g, d', 0) == SegmentOn(g, d, 0)
    ensures g.usageSegment != s ==> SegmentOn(g, d', g.usageSegment) == SegmentOn(g, d, g.usageSegment)
    ensures g.checkpointSegment != s ==> SegmentOn(g, d', g.checkpointSegment) == SegmentOn(g, d, g.checkpointSegment)
    ensures g.FirstSegment() != s ==> SegmentOn(g, d', g.FirstSegment()) == SegmentOn(g, d, g.FirstSegment())
  {
  }

  lemma FirstOnFlash(g: Geometry, d: seq<byte>)
    requires g.Ok() && Sized(g, d) && g.FirstSegment() < g.flashSize
    requires SegmentOn(g, d, g.FirstSegment()) == EncodeSegment(g, FirstImage(g))
    ensures OnFlash(g, FirstState(g).image, d)
  {
    hide Geometry.Ok, SegmentOn, EncodeSegment, FirstImage, Sized;
  }

  // ---- Bringing it up --------------------------------------------------------------------------

  lemma FirstTail(g: Geometry)
    requires g.Ok()
    ensures RecoveredTail(g, FirstImage(g), FirstLive(g)) == FirstImage(g)
    ensures PointersSettled(FirstState(g).image, TableINode(g), g.segmentSize, {})
  {
    TailIs(g);
    Blocks(g);
    ImageSize(g);
    hide Geometry.Ok, Geometry.BlockBytes, Geometry.SegmentSectors, RootBlocks, TableBlock, RootData, FirstLive;
    assert FirstImage(g).inums[1] == IFILE_INUM;
  }

  lemma FirstNumber(g: Geometry)
    requires g.Ok()
    ensures FirstImage(g).number == g.FirstSegment() < g.flashSize
    ensures g.FirstSegment() in FirstState(g).image && FirstState(g).image[g.FirstSegment()] == FirstImage(g) == FirstState(g).tail
  {
    Blocks(g);
    hide Geometry.Ok, Geometry.BlockBytes, Geometry.SegmentSectors;
    GeometryFacts(g);
  }

  /**
   * The log of a flash just formatted: it goes on with the first segment, which it can erase once, every later segment is
   * EMPTY, and no checkpoint has been written but mklfs's own.
   */
  ghost predicate JustMounted(log: Log)
    reads log, log.Repr, log.cache, log.flash, log.flash.Repr
  {
    && log.Valid() && log.State() == FirstState(log.g) && log.iFileINode == TableINode(log.g) && log.failures == 0
    && log.recoveredWithPartialSegment && (log.flash.wearLimit > 0 ==> log.Sealable())
    && log.unwritten == LaterSegments(log.g)
    && log.ringStart == log.checkpointSector == RingBase(log.g) && log.checkpoints == 0 && log.writesSinceLastCheckpoint == 0
  }

  lemma MountedRoom(log: Log)
    requires log.g.Ok() && JustMounted(log)
    ensures log.Stock().room >= log.g.segmentSize - 5
  {
    hide Log.Structure, Log.States, Log.Durable, LogInv, FirstHeld, TableINode, Log.Sealable, FirstLive;
    FirstRoom(log.g);
  }

  /** The table's block and at most three blocks of the root directory are taken. */
  lemma FirstRoom(g: Geometry)
    requires g.Ok()
    ensures FreeSlots(FirstImage(g)) >= g.segmentSize - 5
  {
    Blocks(g);
    var n, image := RootBlocks(g.BlockBytes()), FirstImage(g);
    hide Geometry.Ok, Geometry.BlockBytes, RootBlocks, TableBlock, RootData;
    NoneTakenFrom(image.inums, 2 + n, g.segmentSize);
  }

  lemma {:induction false} NoneTakenFrom(inums: seq<i32>, from: nat, n: nat)
    requires 1 <= from <= n <= |inums| && forall k :: from <= k < n ==> inums[k] == NO_INUM
    ensures Occupied(inums, n) <= from - 1
  {
    if n > from {
      NoneTakenFrom(inums, from, n - 1);
    }
  }

  lemma TablePointersHeld(g: Geometry, h: Held)
    requires g.Ok() && forall a :: a in FirstHeld(g) ==> a in h && h[a] == FirstHeld(g)[a]
    ensures PointersHeld(h, TableINode(g))
  {
    hide Geometry.Ok, Geometry.BlockBytes, FirstHeld, TableINode, INodeOk, NoHoles;
    FirstTableOk(g);
    KnownEntry(g.BlockBytes(), FirstHeld(g), TableINode(g), 1, IFILE_INUM);
    EntryZero(g.BlockBytes(), FirstHeld(g), TableINode(g));
    OwnsPointers(g.BlockBytes(), FirstHeld(g), IFILE_INUM, TableINode(g));
  }

  lemma MountedTail(log: Log)
    requires log.g.Ok() && JustMounted(log) && log.flash.wearLimit > 0
    ensures log.Valid() && log.g.InLog(log.tail.number) && log.Sealable() && log.Stock().room > 8 && log.failures == 0
    ensures log.held == FirstHeld(log.g) && log.iFileINode == TableINode(log.g) && log.g.BlockBytes() >= 0
  {
    hide Log.Structure, Log.States, Log.Durable, LogInv, FirstHeld, TableINode, Log.Sealable;
    FirstNumber(log.g);
    MountedRoom(log);
    GeometryFacts(log.g);
    hide FirstImage, FirstLive, Geometry.Ok;
  }

  method MountLog(g: Geometry, flash: Flash, cacheSize: nat, checkpointInterval: nat, ghost now: u64) returns (log: Log)
    requires g.Ok() && now > 0 && Initialised(g, flash, FirstCheckpoint(g, now))
    requires {flash, flash.data, flash.full, flash.wear} == flash.Repr && cacheSize >= 1
    ensures fresh(log.Repr - flash.Repr) && log.g == g && log.flash == flash && log.cache.size == cacheSize && JustMounted(log)
    ensures log.checkpointInterval == checkpointInterval
  {
    hide Geometry.Ok, Geometry.SegmentSectors, Geometry.SegmentBytes, Geometry.BlockBytes, Flash.Bytes, Flash.Valid,
         Sized, FlashHolds;
    hide FirstImage, FirstLive, FirstHeld, TableINode, Log.Valid, LaterSegments, RingBase, BlockIn, Log.CanErase;
    FirstTail(g);
    FirstNumber(g);
    log := new Log(g, flash, cacheSize, checkpointInterval);
    log.Init(0, FirstCheckpoint(g, now), FirstState(g), RingBase(g), 0, LaterSegments(g));
    log.CanEraseIs(g.FirstSegment());
  }

  /** A formatted flash comes up as a file system with an empty root directory and every invariant in place. */
  method Mount(g: Geometry, flash: Flash, cacheSize: nat, checkpointInterval: nat, ghost now: u64) returns (layer: DirectoryLayer)
    requires g.Ok() && now > 0 && Initialised(g, flash, FirstCheckpoint(g, now))
    requires {flash, flash.data, flash.full, flash.wear} == flash.Repr && cacheSize >= 1
    ensures layer.Valid() && layer.files.Files() == [RootView()] && layer.tree == FIRST_TREE
    ensures JustMounted(layer.files.log) && layer.files.log.g == g && layer.files.log.flash == flash
    ensures fresh(layer) && fresh(layer.files) && fresh(layer.files.log.Repr - flash.Repr)
  {
    hide Geometry.Ok, Geometry.BlockBytes, Initialised, FirstImage, FirstLive, FirstHeld, TableINode, Log.Valid,
         TableOk, NamespaceOk, AllFit, RootView;
    Blocks(g);
    RootShape(g);
    FirstTableOk(g);
    FirstNamesOk(g.BlockBytes());
    var log := MountLog(g, flash, cacheSize, checkpointInterval, now);
    var files := new FileLayer(log);
    layer := new DirectoryLayer(files, FIRST_TREE);
  }
}
