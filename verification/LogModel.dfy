/** The log's invariant over plain values, and what each step of the log does to it. */
module LogModel {
  import opened Words
  import opened Segments
  import opened INodes
  import opened SegmentCaches

  /** What a client stores in a slot: block b of a file, or a file's table of indirect addresses. */
  datatype Role = Data(b: nat) | Indirect

  /** A written and not yet freed block, with the tag its segment summary carries. */
  datatype Slot = Slot(inum: i32, fileBlock: i32, role: Role, data: seq<byte>)

  type Held = map<Addr, Slot>

  datatype LogState = LogState(
    held: Held,
    image: map<word, Segment>,
    tail: Segment,
    cache: seq<Segment>,
    live: seq<word>)

  ghost predicate HeldOk(g: Geometry, held: Held)
    requires g.Ok()
  {
    forall a :: a in held ==>
      && g.InLog(a.seg) && 1 <= a.slot < g.segmentSize
      && held[a].inum >= 0 && |held[a].data| == g.BlockBytes()
  }

  /** Slot b of a segment holds this block under this tag. */
  ghost predicate Stores(g: Geometry, s: Segment, b: word, slot: Slot)
    requires g.Ok()
  {
    && WellFormed(g, s) && 1 <= b < g.segmentSize
    && s.inums[b] == slot.inum && s.fileBlocks[b] == slot.fileBlock
    && BlockAt(g, s, b) == slot.data
  }

  /** Block b of an in-memory segment: Log_Read's memcpy from (b - 1) * BlockBytes. */
  function BlockAt(g: Geometry, s: Segment, b: nat): (block: seq<byte>)
    requires g.Ok() && 1 <= b < g.segmentSize && |s.data| == (g.segmentSize - 1) * g.BlockBytes()
    ensures |block| == g.BlockBytes()
  {
    MulOrder(b, g.segmentSize - 1, g.BlockBytes());
    Chunk(s.data, g.BlockBytes(), b - 1)
  }

  ghost predicate HeldStored(g: Geometry, st: LogState)
    requires g.Ok()
  {
    forall a :: a in st.held ==>
      if a.seg == st.tail.number then Stores(g, st.tail, a.slot, st.held[a])
      else a.seg in st.image && Stores(g, st.image[a.seg], a.slot, st.held[a])
  }

  ghost predicate TailHeld(g: Geometry, st: LogState)
    requires g.Ok() && WellFormed(g, st.tail)
  {
    forall b: word :: 1 <= b < g.segmentSize && st.tail.inums[b] != NO_INUM ==> Addr(st.tail.number, b) in st.held
  }

  ghost predicate ImagesOk(g: Geometry, image: map<word, Segment>)
    requires g.Ok()
  {
    forall s :: s in image ==> g.InLog(s) && WellFormed(g, image[s]) && image[s].number == s
  }

  ghost predicate CacheOk(image: map<word, Segment>, cache: seq<Segment>) {
    forall c :: c in cache ==> c.number in image && c == image[c.number]
  }

  ghost function HeldIn(held: Held, s: word): set<Addr> {
    set a | a in held && a.seg == s
  }

  lemma NoneHeldIn(h: Held, s: word)
    requires HeldIn(h, s) == {}
    ensures forall a :: a in h ==> a.seg != s
  {
    assert forall a :: a in h && a.seg == s ==> a in HeldIn(h, s);
  }

  /** No held block outside tail t is in tail t'. */
  ghost predicate OffTailKept(held: Held, t: word, t': word) {
    forall a :: a in held && a.seg != t ==> a.seg != t'
  }

  lemma EmptyOffTail(held: Held, t: word, t': word)
    requires HeldIn(held, t') == {}
    ensures OffTailKept(held, t, t')
  {
    NoneHeldIn(held, t');
  }

  ghost predicate LiveOk(g: Geometry, st: LogState)
    requires g.Ok()
  {
    && |st.live| == g.flashSize
    && forall s: word :: g.InLog(s) && s != st.tail.number ==> st.live[s] == g.BlockBytes() * |HeldIn(st.held, s)|
  }

  ghost predicate TailShape(g: Geometry, tail: Segment)
    requires g.Ok()
  {
    && WellFormed(g, tail)
    && (tail.number == FLASH_FULL || g.InLog(tail.number))
    && tail.startSector == StartSector(g, tail.number)
  }

  /** Every held block is in the tail or in a written segment, and the usage table counts exactly the held blocks. */
  ghost predicate Consistent(g: Geometry, st: LogState)
    requires g.Ok()
  {
    && TailShape(g, st.tail)
    && HeldOk(g, st.held)
    && HeldStored(g, st)
    && TailHeld(g, st)
    && ImagesOk(g, st.image)
    && CacheOk(st.image, st.cache)
    && LiveOk(g, st)
  }

  /** Consistent, with room for one more block in the tail. */
  ghost predicate LogInv(g: Geometry, st: LogState)
    requires g.Ok()
  {
    Consistent(g, st) && st.tail.inums[g.segmentSize - 1] == NO_INUM
  }

  // ---- Placing a block in the tail --------------------------------------------------------

  function Placed(g: Geometry, tail: Segment, b: word, inum: i32, fileBlock: i32, block: seq<byte>): (t: Segment)
    requires g.Ok() && 1 <= b < g.segmentSize == |tail.inums| == |tail.fileBlocks|
    requires |tail.data| == (g.segmentSize - 1) * g.BlockBytes() && |block| == g.BlockBytes()
    ensures |t.data| == |tail.data|
  {
    MulOrder(b, g.segmentSize - 1, g.BlockBytes());
    tail.(inums := tail.inums[b := inum],
          fileBlocks := tail.fileBlocks[b := fileBlock],
          data := PutChunk(tail.data, g.BlockBytes(), b - 1, block))
  }

  lemma PlacedStores(g: Geometry, tail: Segment, b: word, slot: Slot, c: word, other: Slot)
    requires g.Ok() && WellFormed(g, tail) && 1 <= b < g.segmentSize && |slot.data| == g.BlockBytes()
    ensures Stores(g, Placed(g, tail, b, slot.inum, slot.fileBlock, slot.data), b, slot)
    ensures b != c && Stores(g, tail, c, other) ==>
              Stores(g, Placed(g, tail, b, slot.inum, slot.fileBlock, slot.data), c, other)
  {
    hide Geometry.Ok, Geometry.BlockBytes;
    GeometryFacts(g);
    MulOrder(b, g.segmentSize - 1, g.BlockBytes());
    if b != c && 1 <= c < g.segmentSize {
      MulOrder(c, g.segmentSize - 1, g.BlockBytes());
      PutChunkOthers(tail.data, g.BlockBytes(), b - 1, slot.data, c - 1);
    }
  }

  lemma HeldInOther(held: Held, a: Addr, slot: Slot, s: word)
    requires a.seg != s
    ensures HeldIn(held[a := slot], s) == HeldIn(held, s) == HeldIn(held - {a}, s)
  {
  }

  /** Writing into a free tail slot keeps every other held block where it was. */
  lemma PlaceKeeps(g: Geometry, st: LogState, b: word, slot: Slot)
    requires g.Ok() && Consistent(g, st)
    requires g.InLog(st.tail.number) && 1 <= b < g.segmentSize && st.tail.inums[b] == NO_INUM
    requires slot.inum >= 0 && |slot.data| == g.BlockBytes()
    ensures Addr(st.tail.number, b) !in st.held
    ensures Consistent(g, st.(held := st.held[Addr(st.tail.number, b) := slot],
                              tail := Placed(g, st.tail, b, slot.inum, slot.fileBlock, slot.data)))
  {
    hide Geometry.Ok, Geometry.BlockBytes, Stores, Chunk, PutChunk;
    GeometryFacts(g);
    var a := Addr(st.tail.number, b);
    if a in st.held {
      assert Stores(g, st.tail, b, st.held[a]);
      StoresTag(g, st.tail, b, st.held[a]);
    }
    var st' := st.(held := st.held[a := slot], tail := Placed(g, st.tail, b, slot.inum, slot.fileBlock, slot.data));
    forall c | c in st'.held
      ensures if c.seg == st'.tail.number then Stores(g, st'.tail, c.slot, st'.held[c])
              else c.seg in st'.image && Stores(g, st'.image[c.seg], c.slot, st'.held[c])
    {
      PlacedStores(g, st.tail, b, slot, c.slot, st'.held[c]);
    }
    forall s: word | g.InLog(s) && s != st'.tail.number
      ensures st'.live[s] == g.BlockBytes() * |HeldIn(st'.held, s)|
    {
      HeldInOther(st.held, a, slot, s);
    }
  }

  lemma StoresTag(g: Geometry, s: Segment, b: word, slot: Slot)
    requires g.Ok() && Stores(g, s, b, slot)
    ensures WellFormed(g, s) && 1 <= b < g.segmentSize && s.inums[b] == slot.inum && s.fileBlocks[b] == slot.fileBlock
    ensures BlockAt(g, s, b) == slot.data
  {
  }

  // ---- Freeing a block --------------------------------------------------------------------

  function Cleared(tail: Segment, b: word): Segment
    requires b < |tail.inums| && b < |tail.fileBlocks|
  {
    tail.(inums := tail.inums[b := NO_INUM], fileBlocks := tail.fileBlocks[b := NO_BLOCK])
  }

  /** Log_Free on the tail summary: a slot of another segment leaves it alone. */
  function TailAfterFree(tail: Segment, a: Addr): Segment
    requires a.seg == tail.number ==> a.slot < |tail.inums| && a.slot < |tail.fileBlocks|
  {
    if a.seg == tail.number then Cleared(tail, a.slot) else tail
  }

  lemma HeldInMinus(held: Held, a: Addr)
    requires a in held
    ensures |HeldIn(held - {a}, a.seg)| == |HeldIn(held, a.seg)| - 1
  {
    assert HeldIn(held, a.seg) == HeldIn(held - {a}, a.seg) + {a};
  }

  /** The subtraction in Log_Free cannot wrap on a written segment. */
  lemma LiveCoversHeld(g: Geometry, st: LogState, a: Addr)
    requires g.Ok() && Consistent(g, st) && a in st.held && a.seg != st.tail.number
    ensures st.live[a.seg] >= g.BlockBytes()
    ensures st.live[a.seg] - g.BlockBytes() == g.BlockBytes() * |HeldIn(st.held - {a}, a.seg)|
  {
    hide Geometry.Ok, Geometry.BlockBytes, Stores;
    hide HeldStored, HeldOk, TailHeld, ImagesOk, CacheOk, TailShape;
    assert g.InLog(a.seg) by { AddrInLog(g, st.held, a); }
    HeldInMinus(st.held, a);
    OneBlockLess(g.BlockBytes(), |HeldIn(st.held, a.seg)|);
  }

  lemma AddrInLog(g: Geometry, held: Held, a: Addr)
    requires g.Ok() && HeldOk(g, held) && a in held
    ensures g.InLog(a.seg)
  {
  }

  lemma OneBlockLess(b: nat, n: nat)
    requires n >= 1
    ensures b * n - b == b * (n - 1) && b * n >= b
  {
    MulOrder(1, n, b);
  }

  function AfterFree(g: Geometry, st: LogState, a: Addr): LogState
    requires a.seg == st.tail.number ==> a.slot < |st.tail.inums| && a.slot < |st.tail.fileBlocks|
    requires a in st.held && a.seg < |st.live|
  {
    LogState(st.held - {a}, st.image, TailAfterFree(st.tail, a), st.cache,
             st.live[a.seg := Wrap(st.live[a.seg] - g.BlockBytes())])
  }

  lemma FreeLive(g: Geometry, st: LogState, a: Addr)
    requires g.Ok() && Consistent(g, st) && a in st.held
    ensures a.seg < |st.live|
    ensures a.seg == st.tail.number ==> a.slot < |st.tail.inums| && a.slot < |st.tail.fileBlocks|
    ensures LiveOk(g, AfterFree(g, st, a))
  {
    hide Geometry.BlockBytes, Stores;
    var st' := AfterFree(g, st, a);
    forall s: word | g.InLog(s) && s != st'.tail.number
      ensures st'.live[s] == g.BlockBytes() * |HeldIn(st'.held, s)|
    {
      if s == a.seg {
        LiveCoversHeld(g, st, a);
      } else {
        HeldInOther(st.held, a, st.held[a], s);
      }
    }
  }

  lemma FreeStored(g: Geometry, st: LogState, a: Addr)
    requires g.Ok() && Consistent(g, st) && a in st.held
    requires a.seg < |st.live| && (a.seg == st.tail.number ==> a.slot < |st.tail.inums| && a.slot < |st.tail.fileBlocks|)
    ensures HeldStored(g, AfterFree(g, st, a))
  {
    hide Geometry.Ok, Geometry.BlockBytes, Stores, LiveOk, TailHeld, ImagesOk, CacheOk;
    GeometryFacts(g);
    var st' := AfterFree(g, st, a);
    forall c | c in st'.held
      ensures if c.seg == st'.tail.number then Stores(g, st'.tail, c.slot, st'.held[c])
              else c.seg in st'.image && Stores(g, st'.image[c.seg], c.slot, st'.held[c])
    {
      if c.seg == st.tail.number {
        assert Stores(g, st.tail, c.slot, st.held[c]);
        ClearedStores(g, st.tail, a, c.slot, st.held[c]);
      }
    }
  }

  lemma FreeKeeps(g: Geometry, st: LogState, a: Addr)
    requires g.Ok() && Consistent(g, st) && a in st.held
    ensures a.seg < |st.live|
    ensures a.seg == st.tail.number ==> a.slot < |st.tail.inums| && a.slot < |st.tail.fileBlocks|
    ensures Consistent(g, AfterFree(g, st, a))
  {
    FreeLive(g, st, a);
    FreeStored(g, st, a);
    hide Geometry.Ok, Geometry.BlockBytes, HeldStored, LiveOk;
    GeometryFacts(g);
  }

  lemma ClearedStores(g: Geometry, tail: Segment, a: Addr, c: word, slot: Slot)
    requires g.Ok() && WellFormed(g, tail) && Stores(g, tail, c, slot)
    requires a.seg == tail.number ==> 1 <= a.slot < g.segmentSize && c != a.slot
    ensures Stores(g, TailAfterFree(tail, a), c, slot)
  {
  }

  // ---- Room in the tail ------------------------------------------------------------------------

  /** Occupied slots below n; slot 0 is the summary block. */
  function Occupied(inums: seq<i32>, n: nat): (k: nat)
    requires n <= |inums|
    ensures n >= 1 ==> k <= n - 1
  {
    if n <= 1 then 0 else Occupied(inums, n - 1) + if inums[n - 1] == NO_INUM then 0 else 1
  }

  lemma {:induction false} OccupiedSame(a: seq<i32>, b: seq<i32>, n: nat)
    requires n <= |a| && n <= |b| && forall k :: 1 <= k < n ==> (a[k] == NO_INUM <==> b[k] == NO_INUM)
    ensures Occupied(a, n) == Occupied(b, n)
  {
    if n > 1 {
      OccupiedSame(a, b, n - 1);
    }
  }

  /** Filling or clearing one slot moves the count by one. */
  lemma {:induction false} OccupiedChange(inums: seq<i32>, b: nat, x: i32, n: nat)
    requires 1 <= b < n <= |inums|
    requires (inums[b] == NO_INUM) != (x == NO_INUM)
    ensures Occupied(inums[b := x], n) == Occupied(inums, n) + if x == NO_INUM then -1 else 1
  {
    if b == n - 1 {
      OccupiedSame(inums[b := x], inums, n - 1);
    } else {
      OccupiedChange(inums, b, x, n - 1);
    }
  }

  lemma {:induction false} OccupiedFull(inums: seq<i32>, n: nat)
    requires 1 <= n <= |inums|
    ensures Occupied(inums, n) == n - 1 <==> forall b :: 1 <= b < n ==> inums[b] != NO_INUM
  {
    if n > 1 {
      OccupiedFull(inums, n - 1);
    }
  }

  /** Slots of the tail a block can still go to; a full flash has none. */
  function FreeSlots(tail: Segment): (n: nat) {
    if tail.number == FLASH_FULL || tail.inums == [] then 0 else |tail.inums| - 1 - Occupied(tail.inums, |tail.inums|)
  }

  /** A tail with two free slots takes a block without being sealed; with one left it is sealed. */
  lemma PlacedRoom(g: Geometry, tail: Segment, b: word, inum: i32, fileBlock: i32, block: seq<byte>)
    requires g.Ok() && WellFormed(g, tail) && tail.number != FLASH_FULL && 1 <= b < g.segmentSize && tail.inums[b] == NO_INUM
    requires inum >= 0 && |block| == g.BlockBytes() && |tail.data| == (g.segmentSize - 1) * g.BlockBytes()
    ensures var t := Placed(g, tail, b, inum, fileBlock, block);
            WellFormed(g, t) && FreeSlots(t) == FreeSlots(tail) - 1 && (Full(g, t) <==> FreeSlots(tail) == 1)
  {
    hide Geometry.Ok, Geometry.BlockBytes, PutChunk;
    OccupiedChange(tail.inums, b, inum, g.segmentSize);
    OccupiedFull(tail.inums[b := inum], g.segmentSize);
  }

  /** Freeing an occupied slot makes room for a block, and freeing never takes room away. */
  lemma ClearedRoom(tail: Segment, b: word)
    requires 1 <= b < |tail.inums| && b < |tail.fileBlocks|
    ensures FreeSlots(Cleared(tail, b)) >= FreeSlots(tail)
    ensures tail.number != FLASH_FULL && tail.inums[b] != NO_INUM ==> FreeSlots(Cleared(tail, b)) == FreeSlots(tail) + 1
  {
    if tail.inums[b] != NO_INUM {
      OccupiedChange(tail.inums, b, NO_INUM, |tail.inums|);
    } else {
      assert tail.inums[b := NO_INUM] == tail.inums;
    }
  }

  lemma BuiltRoom(g: Geometry, s: word)
    requires g.Ok() && s != FLASH_FULL
    ensures FreeSlots(Build(g, s)) == g.segmentSize - 1
  {
    GeometryFacts(g);
    NoneTaken(Build(g, s).inums, g.segmentSize);
  }

  lemma {:induction false} NoneTaken(inums: seq<i32>, n: nat)
    requires n <= |inums| && forall k :: 1 <= k < n ==> inums[k] == NO_INUM
    ensures Occupied(inums, n) == 0
  {
    if n > 1 {
      NoneTaken(inums, n - 1);
    }
  }

  /** Log segments behind the tail that nothing live is in. */
  ghost function CleanBehind(g: Geometry, live: seq<word>, tail: word): set<word> {
    set s: word | g.FirstSegment() <= s < |live| && s != tail && live[s] == 0
  }

  function SlotsIn(g: Geometry, n: nat): int {
    (g.segmentSize - 1) * n
  }

  /** Slots that can be written, frees apart, before the flash is full. */
  ghost function Capacity(g: Geometry, tail: Segment, live: seq<word>): int {
    if tail.number == FLASH_FULL then 0 else FreeSlots(tail) + SlotsIn(g, |CleanBehind(g, live, tail.number)|)
  }

  lemma TailCapacity(g: Geometry, tail: Segment, tail': Segment, live: seq<word>)
    requires tail'.number == tail.number
    ensures Capacity(g, tail', live) - Capacity(g, tail, live) == FreeSlots(tail') - FreeSlots(tail)
    ensures tail.number == FLASH_FULL ==> Capacity(g, tail, live) == FreeSlots(tail) == 0
  {
  }

  lemma SubsetSize<T>(s: set<T>, t: set<T>)
    requires s <= t
    ensures |s| <= |t|
  {
    assert t == s + (t - s);
  }

  /** Only a live segment is counted anew: no clean one is lost. */
  lemma CleanStays(g: Geometry, live: seq<word>, s: nat, n: word, tail: word)
    requires s < |live| && (s == tail || live[s] != 0) && g.segmentSize >= 1
    ensures SlotsIn(g, |CleanBehind(g, live, tail)|) <= SlotsIn(g, |CleanBehind(g, live[s := n], tail)|)
  {
    SubsetSize(CleanBehind(g, live, tail), CleanBehind(g, live[s := n], tail));
    MulOrder(|CleanBehind(g, live, tail)|, |CleanBehind(g, live[s := n], tail)|, g.segmentSize - 1);
  }

  /** The tail gets live and a clean segment becomes the tail: one clean segment less. */
  lemma CleanTaken(g: Geometry, live: seq<word>, t: word, n: word, next: word)
    requires t < |live| && n != 0 && next in CleanBehind(g, live, t)
    ensures SlotsIn(g, |CleanBehind(g, live[t := n], next)|) + g.segmentSize - 1 == SlotsIn(g, |CleanBehind(g, live, t)|)
  {
    assert CleanBehind(g, live, t) == CleanBehind(g, live[t := n], next) + {next};
  }

  lemma NoneClean(g: Geometry, live: seq<word>, t: word)
    requires forall s :: g.FirstSegment() <= s < |live| && s != t ==> live[s] != 0
    ensures SlotsIn(g, |CleanBehind(g, live, t)|) == 0
  {
    assert CleanBehind(g, live, t) == {};
  }

  /** A freed block takes nothing from the capacity. */
  lemma FreedCapacity(g: Geometry, st: LogState, a: Addr)
    requires g.Ok() && Consistent(g, st) && a in st.held && a.seg < |st.live|
    requires a.seg == st.tail.number ==> a.slot < |st.tail.inums| && a.slot < |st.tail.fileBlocks|
    requires FreeSlots(AfterFree(g, st, a).tail) >= FreeSlots(st.tail)
    ensures Capacity(g, AfterFree(g, st, a).tail, AfterFree(g, st, a).live) >= Capacity(g, st.tail, st.live)
  {
    hide Geometry.BlockBytes, Geometry.Ok, Consistent, FreeSlots, CleanBehind, SlotsIn, Wrap;
    GeometryFacts(g);
    if a.seg != st.tail.number {
      LiveCoversHeld(g, st, a);
    }
    CleanStays(g, st.live, a.seg, Wrap(st.live[a.seg] - g.BlockBytes()), st.tail.number);
  }

  // ---- Going on across seals -------------------------------------------------------------------

  /** Segment s holds a block that is not among those going. */
  ghost predicate Anchored(held: Held, s: word, going: set<Addr>) {
    exists a :: a in held && a.seg == s && a !in going
  }

  ghost predicate Vacant(held: Held, s: word) {
    forall a :: a in held ==> a.seg != s
  }

  /** Every log segment but the tail either holds a block that stays, or is EMPTY, not cached and holds none. */
  ghost predicate Open(g: Geometry, held: Held, cache: seq<Segment>, unwritten: set<word>, tail: word, going: set<Addr>) {
    forall s: word :: g.InLog(s) && s != tail ==> (s in unwritten && Vacant(held, s) && !Cached(cache, s)) || Anchored(held, s, going)
  }

  lemma OpenFewer(g: Geometry, held: Held, cache: seq<Segment>, unwritten: set<word>, tail: word, going: set<Addr>, fewer: set<Addr>)
    requires Open(g, held, cache, unwritten, tail, going) && fewer <= going
    ensures Open(g, held, cache, unwritten, tail, fewer)
  {
    hide Vacant, Cached;
  }

  lemma OpenFreed(g: Geometry, held: Held, cache: seq<Segment>, unwritten: set<word>, tail: word, going: set<Addr>, a: Addr)
    requires Open(g, held, cache, unwritten, tail, going) && a in going
    ensures Open(g, held - {a}, cache, unwritten, tail, going - {a})
  {
    hide Cached;
  }

  lemma OpenPlaced(g: Geometry, held: Held, cache: seq<Segment>, unwritten: set<word>, tail: word, going: set<Addr>, a: Addr, slot: Slot)
    requires Open(g, held, cache, unwritten, tail, going) && a.seg == tail
    ensures Open(g, held[a := slot], cache, unwritten, tail, going)
  {
    hide Cached;
    assert forall s: word :: s != tail && Vacant(held, s) ==> Vacant(held[a := slot], s);
  }

  ghost predicate Covers(going: set<Addr>, gone: set<Addr>) {
    gone <= going
  }

  lemma CoversSecond(going: set<Addr>, first: set<Addr>, second: set<Addr>, all: set<Addr>)
    requires Covers(going, all) && first + second == all
    ensures second <= going
  {
  }

  /** From queue q to q' the cache has taken in no segment without a held block. */
  ghost predicate CachesHeld(held: Held, q: seq<Segment>, q': seq<Segment>) {
    forall s :: Cached(q', s) ==> Cached(q, s) || !Vacant(held, s)
  }

  lemma OpenCached(g: Geometry, held: Held, q: seq<Segment>, q': seq<Segment>, unwritten: set<word>, tail: word, going: set<Addr>)
    requires Open(g, held, q, unwritten, tail, going) && CachesHeld(held, q, q')
    ensures Open(g, held, q', unwritten, tail, going)
  {
    hide Cached;
  }

  // ---- Sealing a full tail -----------------------------------------------------------------

  ghost predicate Full(g: Geometry, tail: Segment)
    requires g.Ok() && WellFormed(g, tail)
  {
    forall b :: 1 <= b < g.segmentSize ==> tail.inums[b] != NO_INUM
  }

  ghost function SlotsOf(s: word, n: word): set<Addr> {
    set b: word | 1 <= b < n :: Addr(s, b)
  }

  lemma {:induction false} SlotsCount(s: word, n: word)
    requires n >= 1
    ensures |SlotsOf(s, n)| == n - 1
  {
    if n == 1 {
      assert SlotsOf(s, n) == {};
    } else {
      SlotsCount(s, n - 1);
      assert SlotsOf(s, n) == SlotsOf(s, n - 1) + {Addr(s, n - 1)};
    }
  }

  /** A full tail holds one live block per data slot. */
  lemma FullTailHeld(g: Geometry, st: LogState)
    requires g.Ok() && Consistent(g, st) && Full(g, st.tail) && g.InLog(st.tail.number)
    ensures |HeldIn(st.held, st.tail.number)| == g.segmentSize - 1
  {
    hide Geometry.Ok, Geometry.BlockBytes, Stores;
    GeometryFacts(g);
    SlotsCount(st.tail.number, g.segmentSize);
    assert HeldIn(st.held, st.tail.number) == SlotsOf(st.tail.number, g.segmentSize);
  }

  /** GetCleanSegment's choice: the first log segment whose live count is zero. */
  function FirstClean(g: Geometry, live: seq<word>, from: nat): (n: word)
    requires g.Ok() && |live| == g.flashSize
    ensures n == FLASH_FULL || (from <= n < g.flashSize && live[n] == 0)
    ensures n == FLASH_FULL ==> forall s :: from <= s < g.flashSize ==> live[s] != 0
    ensures forall s :: from <= s < n && s < g.flashSize ==> live[s] != 0
    decreases g.flashSize - from
  {
    GeometryFacts(g);
    if from >= g.flashSize then FLASH_FULL
    else if live[from] == 0 then from
    else FirstClean(g, live, from + 1)
  }

  ghost predicate SealedCache(before: seq<Segment>, tail: Segment, after: seq<Segment>) {
    forall c :: c in after ==> c in before || c == tail
  }

  /** Sealing: the full tail becomes an image, its live count is recomputed, a zero-live segment becomes the tail. */
  lemma SealKeeps(g: Geometry, st: LogState, cache: seq<Segment>, live: seq<word>, next: word)
    requires g.Ok() && Consistent(g, st) && Full(g, st.tail) && g.InLog(st.tail.number)
    requires !Cached(st.cache, st.tail.number) && SealedCache(st.cache, st.tail, cache)
    requires (g.segmentSize - 1) * g.BlockBytes() < 0x1_0000_0000
    requires live == st.live[st.tail.number := (g.segmentSize - 1) * g.BlockBytes()]
    requires next == FLASH_FULL || (g.InLog(next) && live[next] == 0)
    ensures next != st.tail.number && HeldIn(st.held, next) == {}
    ensures LogInv(g, LogState(st.held, st.image[st.tail.number := st.tail], Build(g, next), cache, live))
  {
    hide Geometry.Ok, Geometry.BlockBytes, Stores;
    GeometryFacts(g);
    FullTailHeld(g, st);
    assert live[st.tail.number] != 0 by {
      MulGrows(g.segmentSize - 1, g.BlockBytes());
    }
    var t := st.tail.number;
    var st' := LogState(st.held, st.image[t := st.tail], Build(g, next), cache, live);
    if next != FLASH_FULL {
      assert live[next] == g.BlockBytes() * |HeldIn(st.held, next)|;
      NoneHeld(g, |HeldIn(st.held, next)|);
    }
    assert HeldIn(st.held, next) == {};
    forall a | a in st'.held
      ensures a.seg != next && a.seg in st'.image && Stores(g, st'.image[a.seg], a.slot, st'.held[a])
    {
      assert a.seg == next ==> a in HeldIn(st.held, next);
    }
    forall s: word | g.InLog(s) && s != next
      ensures st'.live[s] == g.BlockBytes() * |HeldIn(st'.held, s)|
    {
      assert g.BlockBytes() * (g.segmentSize - 1) == (g.segmentSize - 1) * g.BlockBytes();
    }
    assert CacheOk(st'.image, cache);
  }

  lemma NoneHeld(g: Geometry, n: nat)
    requires g.Ok() && g.BlockBytes() * n == 0
    ensures n == 0
  {
    if n > 0 {
      MulGrows(g.BlockBytes(), n);
    }
  }

  // ---- Erasing a segment and filling the cache ---------------------------------------------

  ghost function DroppedSegment(held: Held, s: word): Held {
    map a | a in held && a.seg != s :: held[a]
  }

  lemma EraseKeeps(g: Geometry, st: LogState, s: word)
    requires g.Ok() && Consistent(g, st) && g.InLog(s) && s != st.tail.number
    ensures Consistent(g, st.(held := DroppedSegment(st.held, s), live := st.live[s := 0]))
  {
    hide Geometry.Ok, Geometry.BlockBytes, Stores;
    GeometryFacts(g);
    var held := DroppedSegment(st.held, s);
    forall r: word | g.InLog(r) && r != st.tail.number
      ensures st.live[s := 0][r] == g.BlockBytes() * |HeldIn(held, r)|
    {
      if r == s {
        assert HeldIn(held, r) == {};
      } else {
        assert HeldIn(held, r) == HeldIn(st.held, r);
      }
    }
  }

  lemma CacheKeeps(g: Geometry, st: LogState, cache: seq<Segment>)
    requires g.Ok() && Consistent(g, st) && CacheOk(st.image, cache)
    ensures Consistent(g, st.(cache := cache))
  {
  }

  // ---- What the checkpoint's inode points to -------------------------------------------------

  /** Slot a of a written segment, and not one its summary calls free. */
  predicate Settled(image: map<word, Segment>, a: Addr) {
    a.seg in image && a.slot < |image[a.seg].inums| && image[a.seg].inums[a.slot] != NO_INUM
  }

  /** Every pointer of n is empty or names an occupied slot of a written segment, or (`t` given) a slot of tail t. */
  ghost predicate PointersSettled(image: map<word, Segment>, n: INode, segmentSize: nat, t: set<word>) {
    forall a :: a in n.direct + [n.indirect] ==> a == EMPTY || (a.slot < segmentSize && (Settled(image, a) || a.seg in t))
  }

  /** Every pointer of n is empty or names a held block. */
  ghost predicate PointersHeld(held: Held, n: INode) {
    forall a :: a in n.direct + [n.indirect] ==> a == EMPTY || a in held
  }

  lemma HeldSettled(g: Geometry, st: LogState, n: INode)
    requires g.Ok() && LogInv(g, st) && PointersHeld(st.held, n)
    ensures PointersSettled(st.image, n, g.segmentSize, {st.tail.number})
  {
    hide Geometry.Ok, Geometry.BlockBytes, BlockAt;
  }

  /** Once a full tail is written, what pointed into it points to flash. */
  lemma SealSettles(g: Geometry, image: map<word, Segment>, tail: Segment, n: INode, t: set<word>)
    requires g.Ok() && WellFormed(g, tail) && Full(g, tail) && PointersSettled(image, n, g.segmentSize, t) && t <= {tail.number}
    ensures PointersSettled(image[tail.number := tail], n, g.segmentSize, {})
  {
  }

  lemma SettledOn(image: map<word, Segment>, n: INode, segmentSize: nat, t: set<word>)
    requires PointersSettled(image, n, segmentSize, {})
    ensures PointersSettled(image, n, segmentSize, t)
  {
  }
}
