/** Checkpoint records and the circular region they are written to. */
module Checkpoints {
  import opened Words
  import opened FlashLayer
  import opened Segments
  import opened INodes
  import opened Layout

  type u64 = x: int | 0 <= x < 0x1_0000_0000_0000_0000

  datatype Checkpoint = Checkpoint(
    isValid: bool,
    time: u64,
    usageSegment: word,
    lastSegmentWritten: word,
    iFileINode: INode)

  const BLANK: Checkpoint := Checkpoint(false, 0, 0, 0, INode(false, 0, File, 0, 0, NoBlocks(), EMPTY))
  const CHECKPOINT_WORDS: nat := 21

  function JoinWords(lo: word, hi: word): u64 {
    var x: int := lo;
    x + 0x1_0000_0000 * hi
  }

  function CheckpointWords(c: Checkpoint): (ws: seq<word>)
    ensures |ws| == CHECKPOINT_WORDS
  {
    [if c.isValid then 1 else 0, 0, c.time % 0x1_0000_0000, c.time / 0x1_0000_0000,
     c.usageSegment, c.lastSegmentWritten] + INodeWords(c.iFileINode)
  }

  /** A checkpoint fills one sector. */
  function EncodeCheckpoint(c: Checkpoint): (bytes: seq<byte>)
    ensures |bytes| == SECTOR_SIZE
  {
    EncodeWords(CheckpointWords(c)) + Zeros(SECTOR_SIZE - 4 * CHECKPOINT_WORDS)
  }

  function DecodeCheckpoint(bytes: seq<byte>): Checkpoint
    requires |bytes| == SECTOR_SIZE
  {
    var ws := DecodeWords(bytes);
    Checkpoint(ws[0] != 0, JoinWords(ws[2], ws[3]), ws[4], ws[5], WordsINode(ws[6..CHECKPOINT_WORDS]))
  }

  lemma CheckpointRoundTrip(c: Checkpoint)
    ensures DecodeCheckpoint(EncodeCheckpoint(c)) == c
  {
    hide EncodeWords, DecodeWords, INodeWords, WordsINode;
    var ws := CheckpointWords(c);
    DecodeEncode(ws, Zeros(SECTOR_SIZE - 4 * CHECKPOINT_WORDS));
    var ds := DecodeWords(EncodeCheckpoint(c));
    assert forall i :: 0 <= i < CHECKPOINT_WORDS ==> ds[i] == ds[..CHECKPOINT_WORDS][i] == ws[i];
    assert ds[6..CHECKPOINT_WORDS] == INodeWords(c.iFileINode);
    INodeWordsRoundTrip(c.iFileINode);
  }

  function SectorOf(region: seq<byte>, k: nat): (bytes: seq<byte>)
    requires (k + 1) * SECTOR_SIZE <= |region|
    ensures |bytes| == SECTOR_SIZE
  {
    region[k * SECTOR_SIZE..(k + 1) * SECTOR_SIZE]
  }

  /** Sector `at` of the region holds `last`, and every other valid checkpoint there is older. */
  ghost predicate RingOk(region: seq<byte>, at: nat, last: Checkpoint) {
    && (at + 1) * SECTOR_SIZE <= |region|
    && last.isValid && last.time > 0
    && DecodeCheckpoint(SectorOf(region, at)) == last
    && forall k: nat :: k != at && (k + 1) * SECTOR_SIZE <= |region| ==>
         var c := DecodeCheckpoint(SectorOf(region, k));
         c.isValid ==> c.time < last.time
  }

  lemma RingNewest(region: seq<byte>, at: nat, last: Checkpoint)
    requires RingOk(region, at, last)
    ensures last.isValid && last.time > 0 && (at + 1) * SECTOR_SIZE <= |region|
  {
  }

  lemma RingEntry(region: seq<byte>, at: nat, last: Checkpoint, k: nat)
    requires RingOk(region, at, last) && (k + 1) * SECTOR_SIZE <= |region|
    ensures var c := DecodeCheckpoint(SectorOf(region, k));
            if k == at then c == last else c.isValid ==> c.time < last.time
  {
  }

  /** A later checkpoint written to any sector of the region becomes its latest. */
  lemma RingAdvance(region: seq<byte>, at: nat, last: Checkpoint, k: nat, c: Checkpoint)
    requires RingOk(region, at, last) && (k + 1) * SECTOR_SIZE <= |region|
    requires c.isValid && c.time > last.time
    ensures RingOk(Spliced(region, k * SECTOR_SIZE, EncodeCheckpoint(c)), k, c)
  {
    hide EncodeCheckpoint, DecodeCheckpoint;
    var region' := Spliced(region, k * SECTOR_SIZE, EncodeCheckpoint(c));
    CheckpointRoundTrip(c);
    assert SectorOf(region', k) == EncodeCheckpoint(c);
    forall j: nat | j != k && (j + 1) * SECTOR_SIZE <= |region'|
      ensures SectorOf(region', j) == SectorOf(region, j)
    {
      SplicedElsewhere(region, k * SECTOR_SIZE, EncodeCheckpoint(c), j * SECTOR_SIZE, (j + 1) * SECTOR_SIZE);
    }
  }

  // ---- Where the next checkpoint goes ----------------------------------------------------------

  function RingBase(g: Geometry): nat {
    g.checkpointSegment * g.SegmentSectors()
  }

  /** CheckpointNow's sector arithmetic, on absolute sector numbers. */
  function NextSector(g: Geometry, sector: nat): nat
    requires g.SegmentSectors() > 0
  {
    (sector + 1) % g.SegmentSectors() + RingBase(g)
  }

  function NthSector(g: Geometry, sector: nat, n: nat): nat
    requires g.SegmentSectors() > 0
  {
    if n == 0 then sector else NextSector(g, NthSector(g, sector, n - 1))
  }

  lemma NthNext(g: Geometry, sector: nat, n: nat)
    requires g.SegmentSectors() > 0
    ensures NthSector(g, sector, n + 1) == NextSector(g, NthSector(g, sector, n))
  {
  }

  lemma ModShift(m: nat, n: nat, x: nat)
    requires n > 0
    ensures (m * n + x) % n == x % n
    decreases m
  {
    if m > 0 {
      ModShift(m - 1, n, x);
      assert m * n + x == n + ((m - 1) * n + x);
      ModStep((m - 1) * n + x, n);
    } else {
      assert m * n == 0;
    }
  }

  lemma ModStep(x: nat, n: nat)
    requires n > 0
    ensures (x + n) % n == x % n
  {
    var q, r := x / n, x % n;
    assert x == q * n + r;
    assert x + n == (q + 1) * n + r by { assert (q + 1) * n == q * n + n; }
    ModUnique(x + n, n, q + 1, r);
  }

  lemma ModUnique(x: nat, n: nat, q: nat, r: nat)
    requires n > 0 && r < n && x == q * n + r
    ensures x % n == r && x / n == q
  {
    var q', r' := x / n, x % n;
    assert x == q' * n + r';
    assert (q' + 1) * n == q' * n + n && (q + 1) * n == q * n + n;
    if q' < q {
      MulOrder(q' + 1, q, n);
    } else if q < q' {
      MulOrder(q + 1, q', n);
    }
  }

  lemma NextInRing(g: Geometry, i: nat)
    requires g.SegmentSectors() > 0
    ensures NextSector(g, RingBase(g) + i) == RingBase(g) + (i + 1) % g.SegmentSectors()
  {
    ModShift(g.checkpointSegment, g.SegmentSectors(), i + 1);
  }

  function RingSector(g: Geometry, i: nat): nat
    requires g.SegmentSectors() > 0
  {
    RingBase(g) + i % g.SegmentSectors()
  }

  lemma NextAt(g: Geometry, i: nat)
    requires g.SegmentSectors() > 0
    ensures NextSector(g, RingSector(g, i)) == RingSector(g, i + 1)
  {
    hide Geometry.SegmentSectors, NextSector, RingBase;
    NextInRing(g, i % g.SegmentSectors());
    NextMod(i, g.SegmentSectors());
  }

  lemma {:induction false} NthAt(g: Geometry, i: nat, n: nat)
    requires g.SegmentSectors() > 0
    ensures NthSector(g, RingSector(g, i), n) == RingSector(g, i + n)
  {
    hide RingSector, NextSector, Geometry.SegmentSectors;
    if n > 0 {
      NthAt(g, i, n - 1);
      NextAt(g, i + (n - 1));
    }
  }

  lemma NthInRing(g: Geometry, i: nat, n: nat)
    requires g.SegmentSectors() > 0 && i < g.SegmentSectors()
    ensures NthSector(g, RingBase(g) + i, n) == RingBase(g) + (i + n) % g.SegmentSectors()
  {
    hide Geometry.SegmentSectors, NthSector, RingBase;
    SmallMod(i, g.SegmentSectors());
    NthAt(g, i, n);
  }

  lemma NextMod(x: nat, n: nat)
    requires n > 0
    ensures (x % n + 1) % n == (x + 1) % n
  {
    var q, r := x / n, x % n;
    assert x + 1 == q * n + (r + 1);
    ModShift(q, n, r + 1);
  }

  lemma SmallMod(x: nat, n: nat)
    requires x < n
    ensures x % n == x
  {
    ModUnique(x, n, 0, x);
  }

  /** One lap: the next SegmentSectors() checkpoints use every sector of the region, each exactly once. */
  lemma RingLap(g: Geometry, start: nat, sector: nat)
    requires RingBase(g) <= start < RingBase(g) + g.SegmentSectors()
    requires RingBase(g) <= sector < RingBase(g) + g.SegmentSectors()
    ensures exists n: nat :: n < g.SegmentSectors() && NthSector(g, start, n) == sector
    ensures forall n: nat, m: nat :: n < m < g.SegmentSectors() ==> NthSector(g, start, n) != NthSector(g, start, m)
    ensures forall n: nat :: RingBase(g) <= NthSector(g, start, n) < RingBase(g) + g.SegmentSectors()
  {
    var l := g.SegmentSectors();
    var i, j := start - RingBase(g), sector - RingBase(g);
    var n := if j >= i then j - i else j + l - i;
    NthInRing(g, i, n);
    ModUnique(i + n, l, if j >= i then 0 else 1, j);
    assert NthSector(g, start, n) == sector;
    forall n: nat
      ensures NthSector(g, start, n) == RingBase(g) + (i + n) % l
    {
      NthInRing(g, i, n);
    }
    forall n: nat, m: nat | n < m < l
      ensures NthSector(g, start, n) != NthSector(g, start, m)
    {
      DistinctMod(i + n, i + m, l);
    }
  }

  /** Counting from any sector of the ring, the next checkpoint goes to a sector used before exactly from the SegmentSectors()-th on. */
  lemma CheckpointsUntilWrap(g: Geometry, start: nat, n: nat)
    requires RingBase(g) <= start < RingBase(g) + g.SegmentSectors()
    ensures (exists j: nat :: j <= n && NthSector(g, start, j) == NthSector(g, start, n + 1)) <==> n + 1 >= g.SegmentSectors()
  {
    var l := g.SegmentSectors();
    var i := start - RingBase(g);
    NthInRing(g, i, n + 1);
    if n + 1 >= l {
      NthInRing(g, i, n + 1 - l);
      ModStep(i + n + 1 - l, l);
      assert NthSector(g, start, n + 1 - l) == NthSector(g, start, n + 1);
    } else {
      forall j: nat | j <= n
        ensures NthSector(g, start, j) != NthSector(g, start, n + 1)
      {
        NthInRing(g, i, j);
        DistinctMod(i + j, i + n + 1, l);
      }
    }
  }

  lemma DistinctMod(x: nat, y: nat, n: nat)
    requires x < y < x + n
    ensures x % n != y % n
  {
    if x % n == y % n {
      var q, p, r := x / n, y / n, x % n;
      assert x == q * n + r && y == p * n + r;
      assert y - x == (p - q) * n;
      if p > q {
        MulOrder(1, p - q, n);
      } else {
        MulOrder(p - q, 0, n);
      }
    }
  }

  // ---- Which sectors of the ring are used ------------------------------------------------------

  /** Sector k was written by one of `calls` checkpoints after the one at `start`, or is `start`. */
  ghost predicate WrittenBy(g: Geometry, start: nat, calls: nat, k: nat) {
    g.SegmentSectors() > 0 && exists j: nat :: j <= calls && NthSector(g, start, j) == k
  }

  /** A sector of the ring is FULL exactly if one of the checkpoints so far was written there. */
  ghost predicate RingFilled(g: Geometry, full: seq<bool>, start: nat, calls: nat) {
    && RingBase(g) <= start < RingBase(g) + g.SegmentSectors()
    && forall k: nat :: RingBase(g) <= k < RingBase(g) + g.SegmentSectors() ==> (FullAt(full, k) <==> WrittenBy(g, start, calls, k))
  }

  lemma RingInSegment(g: Geometry, k: int)
    ensures InSegment(g, g.checkpointSegment, k) <==> RingBase(g) <= k < RingBase(g) + g.SegmentSectors()
  {
    SectorsInSegment(g, g.checkpointSegment);
  }

  /** Whatever happens outside the region leaves the ring as it is. */
  lemma RingFramed(g: Geometry, full: seq<bool>, full': seq<bool>, s: nat, start: nat, calls: nat)
    requires RingFilled(g, full, start, calls) && StatesOutside(g, full, full', s) && s != g.checkpointSegment
    ensures RingFilled(g, full', start, calls)
  {
    hide WrittenBy, InSegment, RingBase, Geometry.SegmentSectors;
    forall k: nat | RingBase(g) <= k < RingBase(g) + g.SegmentSectors()
      ensures FullAt(full', k) == FullAt(full, k)
    {
      RingInSegment(g, k);
      if InSegment(g, s, k) {
        SegmentsApart(g, s, g.checkpointSegment, k);
      }
    }
  }

  /** One more checkpoint: its sector is FULL now, if it was not already. */
  lemma RingWritten(g: Geometry, full: seq<bool>, full': seq<bool>, start: nat, calls: nat)
    requires RingFilled(g, full, start, calls)
    requires forall k: nat :: RingBase(g) <= k < RingBase(g) + g.SegmentSectors() ==>
               FullAt(full', k) == (FullAt(full, k) || k == NthSector(g, start, calls + 1))
    ensures RingFilled(g, full', start, calls + 1)
  {
    hide RingBase, Geometry.SegmentSectors, NextSector, NthSector;
    forall k: nat
      ensures WrittenBy(g, start, calls + 1, k) <==> WrittenBy(g, start, calls, k) || (g.SegmentSectors() > 0 && k == NthSector(g, start, calls + 1))
    {
      if j: nat :| g.SegmentSectors() > 0 && j <= calls + 1 && NthSector(g, start, j) == k {
        assert j == calls + 1 || j <= calls;
      }
    }
    hide WrittenBy;
  }

  /** No erase reaches the ring, so the next checkpoint finds an EMPTY sector exactly until the ring is full. */
  lemma RingLasts(g: Geometry, full: seq<bool>, start: nat, calls: nat)
    requires RingFilled(g, full, start, calls)
    ensures g.SegmentSectors() > 0
    ensures !FullAt(full, NthSector(g, start, calls + 1)) <==> calls + 1 < g.SegmentSectors()
  {
    RingLap(g, start, start);
    CheckpointsUntilWrap(g, start, calls);
    hide NthSector, NextSector;
    var k := NthSector(g, start, calls + 1);
    assert FullAt(full, k) <==> WrittenBy(g, start, calls, k);
  }

  // ---- The erase before reuse ------------------------------------------------------------------

  /** The erase block CheckpointNow asks for when the sector starts one. */
  function ErasedBlock(g: Geometry, sector: nat): nat {
    g.checkpointSegment * EraseBlocksPerSegment(g) + BlockOf(sector)
  }

  /** The block asked for is the sector's own block exactly when the region starts at erase block 0. */
  lemma ErasesOwnBlock(g: Geometry, sector: nat)
    requires g.Ok()
    ensures ErasedBlock(g, sector) == BlockOf(sector) <==> g.checkpointSegment == 0
    ensures ErasedBlock(g, sector) != BlockOf(sector)
  {
    EraseBlocksExact(g);
    MulGrows(g.checkpointSegment, EraseBlocksPerSegment(g));
  }

  /** So the erase lands in segment 2 * checkpointSegment, never in the region it should make room in. */
  lemma ErasedBlockElsewhere(g: Geometry, i: nat)
    requires g.Ok() && i < g.SegmentSectors()
    ensures var b := ErasedBlock(g, RingBase(g) + i);
            2 * g.checkpointSegment * EraseBlocksPerSegment(g) <= b < (2 * g.checkpointSegment + 1) * EraseBlocksPerSegment(g)
    ensures (2 * g.checkpointSegment + 1) * EraseBlocksPerSegment(g) <= g.flashSize * EraseBlocksPerSegment(g)
  {
    hide Geometry.Ok, Geometry.SegmentSectors;
    EraseBlocksExact(g);
    var e, c := EraseBlocksPerSegment(g), g.checkpointSegment;
    var k := i / SECTORS_PER_BLOCK;
    assert c * g.SegmentSectors() == c * e * SECTORS_PER_BLOCK by { assert c * (e * SECTORS_PER_BLOCK) == c * e * SECTORS_PER_BLOCK; }
    assert (RingBase(g) + i) / SECTORS_PER_BLOCK == c * e + k;
    assert k < e;
    assert 2 * c * e == c * e + c * e && (2 * c + 1) * e == c * e + c * e + e;
    TwiceFits(g);
    MulOrder(2 * c + 1, g.flashSize, e);
  }

  lemma TwiceFits(g: Geometry)
    requires g.Ok()
    ensures 2 * g.checkpointSegment + 1 <= g.flashSize
  {
  }
}
