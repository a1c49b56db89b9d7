/** Which bytes of the flash a write touches: the flash seen as one chunk per segment. */
module Layout {
  import opened Words
  import opened FlashLayer
  import opened Segments

  /** The bytes of segment s on a flash holding d. */
  ghost function SegmentOn(g: Geometry, d: seq<byte>, s: nat): (bytes: seq<byte>)
    requires g.Ok() && s < g.flashSize && Sized(g, d)
    ensures |bytes| == g.SegmentBytes()
  {
    MulOrder(s + 1, g.flashSize, g.SegmentBytes());
    Chunk(d, g.SegmentBytes(), s)
  }

  ghost predicate Sized(g: Geometry, d: seq<byte>) {
    g.flashSize * g.SegmentBytes() <= |d|
  }

  /** Only segment s may differ. */
  ghost predicate SameOutside(g: Geometry, d: seq<byte>, d': seq<byte>, s: nat)
    requires g.Ok() && Sized(g, d) && Sized(g, d')
  {
    forall r :: 0 <= r < g.flashSize && r != s ==> SegmentOn(g, d', r) == SegmentOn(g, d, r)
  }

  /** Each written segment's bytes are the encoding of its image. */
  ghost predicate OnFlash(g: Geometry, image: map<word, Segment>, d: seq<byte>)
    requires g.Ok() && Sized(g, d)
  {
    forall s :: s in image ==> s < g.flashSize && WellFormed(g, image[s]) && SegmentOn(g, d, s) == EncodeSegment(g, image[s])
  }

  lemma SplicedElsewhere(d: seq<byte>, at: nat, buffer: seq<byte>, lo: nat, hi: nat)
    requires at + |buffer| <= |d| && lo <= hi <= |d|
    requires hi <= at || at + |buffer| <= lo
    ensures Spliced(d, at, buffer)[lo..hi] == d[lo..hi]
  {
  }

  lemma SplicedInside(d: seq<byte>, at: nat, buffer: seq<byte>, lo: nat, hi: nat)
    requires lo <= at && at + |buffer| <= hi <= |d|
    ensures Spliced(d, at, buffer)[lo..hi] == Spliced(d[lo..hi], at - lo, buffer)
  {
  }

  /** A write that stays inside segment s. */
  lemma WriteInside(g: Geometry, d: seq<byte>, at: nat, buffer: seq<byte>, s: nat)
    requires g.Ok() && Sized(g, d) && s < g.flashSize
    requires s * g.SegmentBytes() <= at && at + |buffer| <= (s + 1) * g.SegmentBytes()
    ensures at + |buffer| <= |d|
    ensures SameOutside(g, d, Spliced(d, at, buffer), s)
  {
    hide Geometry.Ok, Geometry.SegmentBytes, Spliced;
    var n := g.SegmentBytes();
    MulOrder(s + 1, g.flashSize, n);
    forall r | 0 <= r < g.flashSize && r != s
      ensures SegmentOn(g, Spliced(d, at, buffer), r) == SegmentOn(g, d, r)
    {
      MulOrder(r + 1, g.flashSize, n);
      assert (r + 1) * n == r * n + n;
      if r < s {
        MulOrder(r + 1, s, n);
      } else {
        MulOrder(s + 1, r, n);
      }
      SplicedElsewhere(d, at, buffer, r * n, (r + 1) * n);
    }
  }

  /** A write of exactly segment s. */
  lemma WriteWhole(g: Geometry, d: seq<byte>, buffer: seq<byte>, s: nat)
    requires g.Ok() && Sized(g, d) && s < g.flashSize && |buffer| == g.SegmentBytes()
    ensures s * g.SegmentBytes() + |buffer| <= |d|
    ensures SameOutside(g, d, Spliced(d, s * g.SegmentBytes(), buffer), s)
    ensures SegmentOn(g, Spliced(d, s * g.SegmentBytes(), buffer), s) == buffer
  {
    hide Geometry.Ok, Geometry.SegmentBytes;
    var n := g.SegmentBytes();
    MulOrder(s + 1, g.flashSize, n);
    assert (s + 1) * n == s * n + n;
    WriteInside(g, d, s * n, buffer, s);
  }

  lemma OnFlashFrame(g: Geometry, image: map<word, Segment>, d: seq<byte>, d': seq<byte>, s: nat)
    requires g.Ok() && Sized(g, d) && Sized(g, d') && OnFlash(g, image, d)
    requires SameOutside(g, d, d', s) && s !in image.Keys
    ensures OnFlash(g, image, d')
  {
  }

  lemma OnFlashSealed(g: Geometry, image: map<word, Segment>, d: seq<byte>, d': seq<byte>, s: word, tail: Segment)
    requires g.Ok() && Sized(g, d) && Sized(g, d') && OnFlash(g, image, d)
    requires s < g.flashSize && WellFormed(g, tail)
    requires SameOutside(g, d, d', s) && SegmentOn(g, d', s) == EncodeSegment(g, tail)
    ensures OnFlash(g, image[s := tail], d')
  {
  }

  /** Sector and byte offsets of a segment agree, and a whole segment of erase blocks fits. */
  lemma SegmentOffsets(g: Geometry, s: nat)
    requires g.Ok() && s < g.flashSize
    ensures s * g.SegmentSectors() * SECTOR_SIZE == s * g.SegmentBytes()
    ensures (s * g.SegmentSectors() + g.SegmentSectors()) * SECTOR_SIZE == (s + 1) * g.SegmentBytes()
    ensures (s + 1) * g.SegmentBytes() <= g.flashSize * g.SegmentBytes()
    ensures s * g.SegmentSectors() < 0x1_0000_0000
  {
    var n := g.SegmentSectors();
    hide Geometry.SegmentSectors;
    MulOrder(s + 1, g.flashSize, g.SegmentBytes());
    assert s * n * SECTOR_SIZE == s * (n * SECTOR_SIZE);
    assert (s + 1) * (n * SECTOR_SIZE) == s * (n * SECTOR_SIZE) + n * SECTOR_SIZE;
  }

  /** The sectors a whole-segment read asks for are the segment's bytes. */
  lemma SegmentSlice(g: Geometry, d: seq<byte>, s: nat)
    requires g.Ok() && Sized(g, d) && s < g.flashSize
    ensures (s * g.SegmentSectors() + g.SegmentSectors()) * SECTOR_SIZE <= |d|
    ensures d[s * g.SegmentSectors() * SECTOR_SIZE..(s * g.SegmentSectors() + g.SegmentSectors()) * SECTOR_SIZE]
              == SegmentOn(g, d, s)
  {
    SegmentOffsets(g, s);
  }

  /** segmentSize being a multiple of 16 makes a segment a whole number of erase blocks. */
  function EraseBlocksPerSegment(g: Geometry): nat {
    g.SegmentSectors() / SECTORS_PER_BLOCK
  }

  lemma EraseBlocksExact(g: Geometry)
    requires g.Ok()
    ensures EraseBlocksPerSegment(g) * SECTORS_PER_BLOCK == g.SegmentSectors()
    ensures EraseBlocksPerSegment(g) >= 1
  {
    Sixteens(g.segmentSize, g.blockSize);
  }

  lemma Sixteens(a: nat, b: nat)
    requires a >= 16 && a % 16 == 0 && b >= 1
    ensures (a * b) / 16 * 16 == a * b && (a * b) / 16 >= 1
  {
    var k := a / 16;
    SixteenTimes(k, b);
    MulGrows(k, b);
  }

  lemma SixteenTimes(k: nat, b: nat)
    ensures 16 * k * b == 16 * (k * b) && (16 * k * b) / 16 == k * b
  {
  }

  // ---- Sector states by segment ----------------------------------------------------------------

  /** Sector k lies in segment s. */
  predicate InSegment(g: Geometry, s: nat, k: int) {
    s * g.SegmentSectors() <= k < (s + 1) * g.SegmentSectors()
  }

  lemma SectorsInSegment(g: Geometry, s: nat)
    ensures forall k :: InSegment(g, s, k) <==> s * g.SegmentSectors() <= k < s * g.SegmentSectors() + g.SegmentSectors()
  {
  }

  lemma SegmentsApart(g: Geometry, s: nat, r: nat, j: nat)
    requires InSegment(g, s, j) && InSegment(g, r, j)
    ensures s == r
  {
    hide Geometry.SegmentSectors;
    if s < r {
      MulOrder(s + 1, r, g.SegmentSectors());
    } else if r < s {
      MulOrder(r + 1, s, g.SegmentSectors());
    }
  }

  predicate FullAt(full: seq<bool>, k: int) {
    0 <= k < |full| && full[k]
  }

  /** Sectors of segment s from its k-th on are EMPTY. */
  ghost predicate Clear(g: Geometry, full: seq<bool>, s: nat, k: nat) {
    forall j :: InSegment(g, s, j) && s * g.SegmentSectors() + k <= j ==> !FullAt(full, j)
  }

  /** Only the states of segment s's sectors may differ. */
  ghost predicate StatesOutside(g: Geometry, full: seq<bool>, full': seq<bool>, s: nat) {
    |full'| == |full| && forall j: nat :: !InSegment(g, s, j) ==> FullAt(full', j) == FullAt(full, j)
  }

  lemma ClearElsewhere(g: Geometry, full: seq<bool>, full': seq<bool>, s: nat, r: nat, k: nat)
    requires StatesOutside(g, full, full', s) && r != s && Clear(g, full, r, k)
    ensures Clear(g, full', r, k)
  {
    hide InSegment;
    forall j | InSegment(g, r, j) && r * g.SegmentSectors() + k <= j
      ensures !FullAt(full', j)
    {
      if j >= 0 && InSegment(g, s, j) {
        SegmentsApart(g, s, r, j);
      }
    }
  }

  lemma SizedAt(g: Geometry, d: seq<byte>)
    ensures Sized(g, d) <==> g.flashSize * g.SegmentBytes() <= |d|
  {
  }

  /** A write of m sectors at the k-th sector of segment s. */
  lemma PartWrite(g: Geometry, d: seq<byte>, s: nat, k: nat, m: nat, buffer: seq<byte>)
    requires g.Ok() && Sized(g, d) && s < g.flashSize && k + m <= g.SegmentSectors() && |buffer| == m * SECTOR_SIZE
    ensures (s * g.SegmentSectors() + k + m) * SECTOR_SIZE <= |d| && (k + m) * SECTOR_SIZE <= g.SegmentBytes()
    ensures var d' := Spliced(d, (s * g.SegmentSectors() + k) * SECTOR_SIZE, buffer);
            && SameOutside(g, d, d', s)
            && SegmentOn(g, d', s) == Spliced(SegmentOn(g, d, s), k * SECTOR_SIZE, buffer)
  {
    hide Geometry.Ok, Geometry.SegmentSectors, Geometry.SegmentBytes, Spliced, SameOutside, Sized;
    GeometryFacts(g);
    SegmentOffsets(g, s);
    SizedAt(g, d);
    var n := g.SegmentBytes();
    assert (s + 1) * n == s * n + n;
    SplicedInside(d, (s * g.SegmentSectors() + k) * SECTOR_SIZE, buffer, s * n, (s + 1) * n);
    WriteInside(g, d, (s * g.SegmentSectors() + k) * SECTOR_SIZE, buffer, s);
  }
}
