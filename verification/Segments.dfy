/** Flash geometry, in-memory segments and their on-flash encoding. */
module Segments {
  import opened Words
  import opened FlashLayer

  const NO_INUM: i32 := -1
  const SUMMARY_BLOCK: i32 := -2
  const INDIRECT_BLOCK: i32 := -1
  const NO_BLOCK: i32 := 0x7FFF_FFFF
  const FLASH_FULL: word := 0xFFFF_FFF7
  /** sizeof(SegmentSummary): three words, then padding and two host pointers that are not read back. */
  const SUMMARY_WORDS: nat := 8

  /** The FlashData fields; the usage table and the checkpoint ring each have a reserved segment. */
  datatype Geometry = Geometry(
    blockSize: nat,
    segmentSize: nat,
    flashSize: nat,
    usageSegment: nat,
    checkpointSegment: nat)
  {
    function BlockBytes(): nat { blockSize * SECTOR_SIZE }
    function SegmentSectors(): nat { segmentSize * blockSize }
    function SegmentBytes(): nat { SegmentSectors() * SECTOR_SIZE }
    function FirstSegment(): nat { checkpointSegment + 1 }
    predicate InLog(s: int) { FirstSegment() <= s < flashSize }

    /** What mklfs sets up, the summary fitting in block 0 and all offsets in 32 bits. */
    predicate Ok() {
      && blockSize >= 1
      && segmentSize >= SECTORS_PER_BLOCK && segmentSize % SECTORS_PER_BLOCK == 0
      && 4 * SUMMARY_WORDS + 8 * segmentSize <= BlockBytes()
      && 1 <= usageSegment < checkpointSegment < flashSize - 1
      && 2 * checkpointSegment < flashSize
      && 16 * flashSize <= SegmentBytes()
      && flashSize * SegmentBytes() < 0x1_0000_0000 - 0x1000
    }
  }

  lemma GeometryFacts(g: Geometry)
    requires g.Ok()
    ensures g.SegmentBytes() == g.segmentSize * g.BlockBytes()
    ensures g.BlockBytes() >= SECTOR_SIZE && g.BlockBytes() % 8 == 0 && g.BlockBytes() < 0x8000_0000
    ensures g.SegmentBytes() == g.BlockBytes() + (g.segmentSize - 1) * g.BlockBytes()
    ensures 4 * SUMMARY_WORDS + 8 * g.segmentSize <= g.BlockBytes()
    ensures g.segmentSize >= SECTORS_PER_BLOCK && g.SegmentBytes() == g.SegmentSectors() * SECTOR_SIZE
    ensures 1 <= g.usageSegment < g.checkpointSegment < g.flashSize - 1 && 2 * g.checkpointSegment < g.flashSize
    ensures 16 * g.flashSize <= g.SegmentBytes()
    ensures g.flashSize < FLASH_FULL && g.segmentSize < UINT_MAX
    ensures g.SegmentBytes() < 0x1_0000_0000 - 0x1000 && (g.segmentSize - 1) * g.BlockBytes() < 0x1_0000_0000
  {
    var bb := g.BlockBytes();
    assert bb == g.blockSize * 512;
    assert g.SegmentBytes() == g.segmentSize * g.blockSize * 512 == g.segmentSize * (g.blockSize * 512);
    assert g.segmentSize * bb == bb + (g.segmentSize - 1) * bb;
    assert bb % 8 == 0 by { assert bb == 8 * (g.blockSize * 64); }
    MulGrows(g.segmentSize, bb);
    MulOrder(SECTORS_PER_BLOCK, g.segmentSize, bb);
    MulGrows(g.flashSize, g.SegmentBytes());
    MulGrows(g.SegmentBytes(), g.flashSize);
    assert g.flashSize * g.SegmentBytes() == g.SegmentBytes() * g.flashSize;
  }

  lemma MulGrows(a: nat, b: nat)
    requires b >= 1
    ensures a * b >= a
  {
  }

  lemma MulOrder(i: int, j: int, n: nat)
    requires i <= j
    ensures i * n <= j * n
  {
  }

  /** InMemorySegment without the trailing block of `data` that nothing reads: block b sits at (b - 1) * BlockBytes. */
  datatype Segment = Segment(
    number: word,
    startSector: word,
    numberOfBlocks: word,
    inums: seq<i32>,
    fileBlocks: seq<i32>,
    data: seq<byte>)

  ghost predicate WellFormed(g: Geometry, s: Segment)
    requires g.Ok()
  {
    && s.numberOfBlocks == g.segmentSize
    && |s.inums| == g.segmentSize
    && |s.fileBlocks| == g.segmentSize
    && |s.data| == (g.segmentSize - 1) * g.BlockBytes()
    && s.inums[0] == SUMMARY_BLOCK
  }

  function Zeros(n: nat): (z: seq<byte>)
    ensures |z| == n
  {
    seq(n, _ => 0)
  }

  /** A summary column with entry 0 reserved. */
  function Column(n: nat, x: i32): (c: seq<i32>)
    ensures |c| == n
    ensures forall b :: 0 <= b < n ==> c[b] == if b == 0 then SUMMARY_BLOCK else x
  {
    seq(n, b => if b == 0 then SUMMARY_BLOCK else x)
  }

  function StartSector(g: Geometry, number: word): word {
    Wrap(number * g.SegmentSectors())
  }

  /** SegmentFactory::Build. */
  function Build(g: Geometry, number: word): (s: Segment)
    requires g.Ok()
    ensures WellFormed(g, s) && s.number == number
    ensures forall b :: 1 <= b < g.segmentSize ==> s.inums[b] == NO_INUM && s.fileBlocks[b] == NO_BLOCK
  {
    GeometryFacts(g);
    hide Geometry.Ok, Geometry.SegmentBytes, Geometry.SegmentSectors, Geometry.BlockBytes;
    Segment(number, StartSector(g, number), g.segmentSize, Column(g.segmentSize, NO_INUM), Column(g.segmentSize, NO_BLOCK),
            Zeros((g.segmentSize - 1) * g.BlockBytes()))
  }

  // ---- Fixed-size slices -------------------------------------------------------------------

  /** The i-th chunk of n bytes. */
  function Chunk(data: seq<byte>, n: nat, i: nat): (c: seq<byte>)
    requires (i + 1) * n <= |data|
    ensures |c| == n
  {
    assert (i + 1) * n == i * n + n;
    data[i * n..(i + 1) * n]
  }

  function PutChunk(data: seq<byte>, n: nat, i: nat, c: seq<byte>): (d: seq<byte>)
    requires (i + 1) * n <= |data| && |c| == n
    ensures |d| == |data|
    ensures Chunk(d, n, i) == c
  {
    assert (i + 1) * n == i * n + n;
    var d := data[..i * n] + c + data[(i + 1) * n..];
    assert d[i * n..(i + 1) * n] == c;
    d
  }

  lemma OutsideKept(data: seq<byte>, at: nat, c: seq<byte>, lo: nat, hi: nat)
    requires at + |c| <= |data| && lo <= hi <= |data| && (hi <= at || at + |c| <= lo)
    ensures (data[..at] + c + data[at + |c|..])[lo..hi] == data[lo..hi]
  {
  }

  lemma PutChunkOthers(data: seq<byte>, n: nat, i: nat, c: seq<byte>, j: nat)
    requires (i + 1) * n <= |data| && |c| == n && (j + 1) * n <= |data| && i != j
    ensures Chunk(PutChunk(data, n, i, c), n, j) == Chunk(data, n, j)
  {
    assert (i + 1) * n == i * n + n && (j + 1) * n == j * n + n;
    if j < i {
      MulOrder(j + 1, i, n);
    } else {
      MulOrder(i + 1, j, n);
    }
    OutsideKept(data, i * n, c, j * n, (j + 1) * n);
  }

  // ---- On-flash encoding -------------------------------------------------------------------

  function UnsignedAll(xs: seq<i32>): (ws: seq<word>)
    ensures |ws| == |xs|
  {
    seq(|xs|, i requires 0 <= i < |xs| => Unsigned(xs[i]))
  }

  function SignedAll(ws: seq<word>): (xs: seq<i32>)
    ensures |xs| == |ws|
  {
    seq(|ws|, i requires 0 <= i < |ws| => Signed(ws[i]))
  }

  lemma SignedUnsigned(xs: seq<i32>)
    ensures SignedAll(UnsignedAll(xs)) == xs
  {
  }

  function SummaryWords(s: Segment): (ws: seq<word>)
    ensures |ws| == SUMMARY_WORDS + |s.inums| + |s.fileBlocks|
  {
    [s.number, s.startSector, s.numberOfBlocks, 0, 0, 0, 0, 0] + UnsignedAll(s.inums) + UnsignedAll(s.fileBlocks)
  }

  /** Block 0 as writeSegment fills it: the struct, the two columns, zeros. */
  function SummaryBlock(blockBytes: nat, s: Segment): (bytes: seq<byte>)
    requires 4 * |SummaryWords(s)| <= blockBytes
    ensures |bytes| == blockBytes
  {
    EncodeWords(SummaryWords(s)) + Zeros(blockBytes - 4 * |SummaryWords(s)|)
  }

  /** The buffer writeSegment hands to the flash: the summary block, then the data blocks. */
  function EncodeSegment(g: Geometry, s: Segment): (bytes: seq<byte>)
    requires g.Ok() && WellFormed(g, s)
    ensures |bytes| == g.SegmentBytes()
  {
    GeometryFacts(g);
    SummaryBlock(g.BlockBytes(), s) + s.data
  }

  /** readSegment on the words of block 0: the arrays it fills hold n entries. */
  function DecodeSummary(ws: seq<word>, n: nat, data: seq<byte>): (s: Segment)
    requires |ws| >= SUMMARY_WORDS + 2 * n
    ensures |s.inums| == n && |s.fileBlocks| == n && s.data == data
  {
    var k := if ws[2] <= n then ws[2] else n;
    Segment(ws[0], ws[1], ws[2],
            SignedAll(ws[SUMMARY_WORDS..SUMMARY_WORDS + k]) + Column(n, NO_INUM)[k..],
            SignedAll(ws[SUMMARY_WORDS + k..SUMMARY_WORDS + 2 * k]) + Column(n, NO_BLOCK)[k..],
            data)
  }

  lemma SegmentSplit(g: Geometry)
    requires g.Ok()
    ensures g.BlockBytes() <= g.SegmentBytes() && g.SegmentBytes() - g.BlockBytes() == (g.segmentSize - 1) * g.BlockBytes()
    ensures g.BlockBytes() / 4 >= SUMMARY_WORDS + 2 * g.segmentSize
  {
    hide Geometry.Ok, Geometry.SegmentBytes, Geometry.SegmentSectors, Geometry.BlockBytes;
    GeometryFacts(g);
    MulOrder(0, g.segmentSize - 1, g.BlockBytes());
  }

  /** What readSegment rebuilds from a segment's bytes. */
  function DecodeSegment(g: Geometry, bytes: seq<byte>): (s: Segment)
    requires g.Ok() && |bytes| == g.SegmentBytes()
    ensures |s.inums| == g.segmentSize && |s.fileBlocks| == g.segmentSize
    ensures |s.data| == (g.segmentSize - 1) * g.BlockBytes()
  {
    SegmentSplit(g);
    DecodeSummary(DecodeWords(bytes[..g.BlockBytes()]), g.segmentSize, bytes[g.BlockBytes()..])
  }

  lemma SummaryRoundTrip(s: Segment, n: nat, ds: seq<word>)
    requires s.numberOfBlocks == n == |s.inums| == |s.fileBlocks|
    requires |ds| >= SUMMARY_WORDS + 2 * n && ds[..SUMMARY_WORDS + 2 * n] == SummaryWords(s)
    ensures DecodeSummary(ds, n, s.data) == s
  {
    var ws := SummaryWords(s);
    assert forall i :: 0 <= i < SUMMARY_WORDS + 2 * n ==> ds[i] == ws[i];
    assert ds[SUMMARY_WORDS..SUMMARY_WORDS + n] == UnsignedAll(s.inums);
    assert ds[SUMMARY_WORDS + n..SUMMARY_WORDS + 2 * n] == UnsignedAll(s.fileBlocks);
    SignedUnsigned(s.inums);
    SignedUnsigned(s.fileBlocks);
  }

  /** Writing a segment and reading it back restores every field and every data block. */
  lemma SegmentRoundTrip(g: Geometry, s: Segment)
    requires g.Ok() && WellFormed(g, s)
    ensures DecodeSegment(g, EncodeSegment(g, s)) == s
  {
    hide Geometry.Ok, Geometry.SegmentBytes, Geometry.SegmentSectors, Geometry.BlockBytes;
    hide EncodeWords, DecodeWords, SummaryWords, DecodeSummary;
    GeometryFacts(g);
    var ws := SummaryWords(s);
    var bb := g.BlockBytes();
    var bytes := EncodeSegment(g, s);
    assert bytes[..bb] == SummaryBlock(bb, s);
    assert bytes[bb..] == s.data;
    DecodeEncode(ws, Zeros(bb - 4 * |ws|));
    SummaryRoundTrip(s, g.segmentSize, DecodeWords(bytes[..bb]));
  }

  lemma ChunkAfterHead(head: seq<byte>, data: seq<byte>, n: nat, b: nat)
    requires |head| == n && b >= 1 && b * n <= |data|
    ensures (b + 1) * n == n + b * n && b * n == n + (b - 1) * n
    ensures Chunk(head + data, n, b) == Chunk(data, n, b - 1)
  {
    assert (b + 1) * n == n + b * n && b * n == n + (b - 1) * n;
    var all := head + data;
    assert all[n..] == data;
    assert all[b * n..(b + 1) * n] == all[n..][(b - 1) * n..b * n];
  }

  /** On flash, block b of a segment starts b blocks in; in memory its bytes start b - 1 blocks in. */
  lemma BlockPlacement(g: Geometry, s: Segment, b: nat)
    requires g.Ok() && WellFormed(g, s) && 1 <= b < g.segmentSize
    ensures b * g.BlockBytes() <= |s.data| && (b + 1) * g.BlockBytes() <= g.SegmentBytes()
    ensures Chunk(EncodeSegment(g, s), g.BlockBytes(), b) == Chunk(s.data, g.BlockBytes(), b - 1)
  {
    GeometryFacts(g);
    MulOrder(b, g.segmentSize - 1, g.BlockBytes());
    ChunkAfterHead(SummaryBlock(g.BlockBytes(), s), s.data, g.BlockBytes(), b);
  }
}
