/** What the tags in the segment summaries buy: no slot has two owners, and a segment without live bytes has none. */
module Ownership {
  import opened Words
  import opened Segments
  import opened INodes
  import opened LogModel
  import opened FileModel
  import opened InodeTable
  import opened FileViews
  import opened Cleaning

  /** Inode i, the table's own included, points to slot a. */
  ghost predicate Names(bs: nat, h: Held, ifile: INode, i: word, a: Addr)
    requires bs > 0
  {
    a != EMPTY && (Entry(bs, h, ifile, i).indirect == a || exists b: nat :: PtrOf(bs, h, ifile, i, b) == a)
  }

  /** Some inode of the table, or the table's own, points to slot a. */
  ghost predicate Reachable(bs: nat, h: Held, ifile: INode, count: nat, a: Addr)
    requires bs > 0
  {
    exists i: word :: i <= count && Names(bs, h, ifile, i, a)
  }

  lemma PointerTag(bs: nat, h: Held, ifile: INode, count: nat, i: word, b: nat)
    requires TableOk(bs, h, ifile, count) && i <= count && PtrOf(bs, h, ifile, i, b) != EMPTY
    ensures bs > 0
    ensures var a := PtrOf(bs, h, ifile, i, b); b < MaxBlocks(bs) && a in h && h[a].inum == i && h[a].role == Data(b)
  {
    hide Entry, NoHoles, Indirects;
    KnownEntry(bs, h, ifile, count, i);
    if b < MaxBlocks(bs) {
      assert Points(bs, h, i, b, PtrOf(bs, h, ifile, i, b));
    }
  }

  lemma IndirectTag(bs: nat, h: Held, ifile: INode, count: nat, i: word)
    requires TableOk(bs, h, ifile, count) && i <= count && bs > 0
    ensures var a := Entry(bs, h, ifile, i).indirect; a != EMPTY ==> a in h && h[a].inum == i && h[a].role == Indirect
  {
    hide Entry, NoHoles, Indirects;
    KnownEntry(bs, h, ifile, count, i);
    IndirectPart(bs, h, Entry(bs, h, ifile, i));
  }

  /** No two pointers of the whole file system name the same slot: direct, through an indirect block, or to one. */
  lemma NoAliasing(bs: nat, h: Held, ifile: INode, count: nat, i: word, b: nat, j: word, c: nat)
    requires TableOk(bs, h, ifile, count) && bs > 0 && i <= count && j <= count
    ensures PtrOf(bs, h, ifile, i, b) == PtrOf(bs, h, ifile, j, c) != EMPTY ==> i == j && b == c
    ensures PtrOf(bs, h, ifile, i, b) == Entry(bs, h, ifile, j).indirect ==> PtrOf(bs, h, ifile, i, b) == EMPTY
    ensures Entry(bs, h, ifile, i).indirect == Entry(bs, h, ifile, j).indirect != EMPTY ==> i == j
  {
    hide PtrOf, Entry, TableOk;
    IndirectTag(bs, h, ifile, count, i);
    IndirectTag(bs, h, ifile, count, j);
    if PtrOf(bs, h, ifile, i, b) != EMPTY {
      PointerTag(bs, h, ifile, count, i, b);
    }
    if PtrOf(bs, h, ifile, j, c) != EMPTY {
      PointerTag(bs, h, ifile, count, j, c);
    }
  }

  lemma ReachableHeld(bs: nat, h: Held, ifile: INode, count: nat, a: Addr)
    requires TableOk(bs, h, ifile, count) && bs > 0 && Reachable(bs, h, ifile, count, a)
    ensures a in h
  {
    hide PtrOf, Entry, TableOk;
    var i: word :| i <= count && Names(bs, h, ifile, i, a);
    IndirectTag(bs, h, ifile, count, i);
    if Entry(bs, h, ifile, i).indirect != a {
      var b: nat :| PtrOf(bs, h, ifile, i, b) == a;
      PointerTag(bs, h, ifile, count, i, b);
    }
  }

  ghost function ReachableIn(bs: nat, h: Held, ifile: INode, count: nat, s: word): set<Addr>
    requires bs > 0
  {
    set a | a in h && a.seg == s && Reachable(bs, h, ifile, count, a)
  }

  /**
   * The usage table never understates a written segment, and a segment it calls empty (the only kind a seal may pick as
   * its next tail) is named by no pointer at all.
   */
  lemma LiveSafety(g: Geometry, st: LogState, ifile: INode, count: nat, s: word)
    requires g.Ok() && LogInv(g, st) && TableOk(g.BlockBytes(), st.held, ifile, count)
    requires g.InLog(s) && s != st.tail.number
    ensures g.BlockBytes() > 0 && s < |st.live|
    ensures st.live[s] >= g.BlockBytes() * |ReachableIn(g.BlockBytes(), st.held, ifile, count, s)|
    ensures st.live[s] == 0 ==> forall a :: Reachable(g.BlockBytes(), st.held, ifile, count, a) ==> a.seg != s
  {
    hide Geometry.Ok, Geometry.BlockBytes, TableOk, Reachable, HeldStored, HeldOk, TailHeld, ImagesOk, CacheOk,
         TailShape;
    GeometryFacts(g);
    var bs, h := g.BlockBytes(), st.held;
    var reach := ReachableIn(bs, h, ifile, count, s);
    SubsetSize(reach, HeldIn(h, s));
    MulOrder(|reach|, |HeldIn(h, s)|, bs);
    assert bs * |reach| == |reach| * bs && bs * |HeldIn(h, s)| == |HeldIn(h, s)| * bs;
    if st.live[s] == 0 {
      NoneHeld(g, |HeldIn(h, s)|);
      forall a | Reachable(bs, h, ifile, count, a)
        ensures a.seg != s
      {
        ReachableHeld(bs, h, ifile, count, a);
        assert a.seg == s ==> a in HeldIn(h, s);
      }
    }
  }

  lemma SubsetSize<T>(a: set<T>, b: set<T>)
    requires a <= b
    ensures |a| <= |b|
  {
    assert b == a + (b - a);
  }

  /**
   * Only the first writing of an indirect block is tagged INDIRECT_BLOCK; a rewritten one is tagged with the slot of its
   * predecessor, as if it were that block of the file. The cleaner, which compares that block's pointer, then passes it
   * over, however live it is.
   */
  lemma IndirectPassedOver(bs: nat, h: Held, ifile: INode, count: nat, i: word)
    requires TableOk(bs, h, ifile, count) && bs > 0 && i <= count
    ensures var a := Entry(bs, h, ifile, i).indirect;
            a != EMPTY && h[a].fileBlock >= 0 ==> PtrOf(bs, h, ifile, i, h[a].fileBlock) != a
  {
    hide PtrOf, Entry, TableOk;
    IndirectTag(bs, h, ifile, count, i);
    var a := Entry(bs, h, ifile, i).indirect;
    if a != EMPTY && h[a].fileBlock >= 0 {
      NoAliasing(bs, h, ifile, count, i, h[a].fileBlock, i, 0);
    }
  }
}
