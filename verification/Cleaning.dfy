/** Copying the live blocks out of a segment: which pointers still lie in it, and that nobody's bytes change. */
module Cleaning {
  import opened Words
  import opened Segments
  import opened INodes
  import opened LogModel
  import opened FileModel
  import opened InodeTable
  import opened FileViews

  /** A data pointer of inode i (the table file included). */
  ghost function PtrOf(bs: nat, h: Held, ifile: INode, i: word, b: nat): Addr
    requires bs > 0
  {
    Ptr(bs, h, Entry(bs, h, ifile, i), b)
  }

  /** The summary of segment s tells the owner of each of its held blocks, and its data is theirs. */
  ghost predicate Describes(g: Geometry, s: Segment, h: Held)
    requires g.Ok()
  {
    forall a :: a in h && a.seg == s.number ==> Stores(g, s, a.slot, h[a])
  }

  /** Every pointer that lies in segment v lay there before, at the same block, under the same inode. */
  ghost predicate Carried(bs: nat, h: Held, ifile: INode, h': Held, ifile': INode, count: nat, v: word)
    requires bs > 0
  {
    && (forall i: word, b: nat :: i <= count && PtrOf(bs, h', ifile', i, b).seg == v ==>
          var p := PtrOf(bs, h', ifile', i, b);
          p == PtrOf(bs, h, ifile, i, b) && (p in h ==> p in h' && h'[p] == h[p]))
    && (forall i: word :: i <= count && Entry(bs, h', ifile', i).indirect.seg == v ==>
          Entry(bs, h', ifile', i).indirect == Entry(bs, h, ifile, i).indirect)
  }

  /** So a pointer that lies in v names a block that was held before. */
  lemma CarriedHeld(bs: nat, h0: Held, if0: INode, h: Held, ifile: INode, count: nat, i: word, b: nat, v: word)
    requires TableOk(bs, h0, if0, count) && Carried(bs, h0, if0, h, ifile, count, v) && i <= count && b < MaxBlocks(bs)
    requires PtrOf(bs, h, ifile, i, b).seg == v != UINT_MAX
    ensures PtrOf(bs, h, ifile, i, b) in h0
  {
    hide Entry, Ptr, IFileOk, NoHoles;
    KnownEntry(bs, h0, if0, count, i);
    assert Points(bs, h0, i, b, PtrOf(bs, h0, if0, i, b));
  }

  /** What is held in the slots of segment v below k. */
  ghost function LiveBelow(h: Held, v: word, k: nat): set<Addr> {
    set a | a in h && a.seg == v && 1 <= a.slot < k
  }

  lemma NoneBelowOne(h: Held, v: word)
    ensures |LiveBelow(h, v, 1)| == 0
  {
    assert LiveBelow(h, v, 1) == {};
  }

  lemma LiveBelowNext(h: Held, v: word, k: word)
    requires k >= 1
    ensures |LiveBelow(h, v, k + 1)| == |LiveBelow(h, v, k)| + if Addr(v, k) in h then 1 else 0
  {
    if Addr(v, k) in h {
      assert LiveBelow(h, v, k + 1) == LiveBelow(h, v, k) + {Addr(v, k)};
    } else {
      assert LiveBelow(h, v, k + 1) == LiveBelow(h, v, k);
    }
  }

  lemma LiveBelowAll(h: Held, v: word, k: nat)
    ensures |LiveBelow(h, v, k)| <= |HeldIn(h, v)|
  {
    SubsetSize(LiveBelow(h, v, k), HeldIn(h, v));
  }

  /** No pointer lies in the first k slots of segment v any more. */
  ghost predicate SlotsCleared(bs: nat, h: Held, ifile: INode, count: nat, v: word, k: nat)
    requires bs > 0
  {
    forall i: word, b: nat :: i <= count && PtrOf(bs, h, ifile, i, b).seg == v ==> PtrOf(bs, h, ifile, i, b).slot >= k
  }

  lemma CarriedItself(bs: nat, h: Held, ifile: INode, count: nat, v: word)
    requires bs > 0
    ensures Carried(bs, h, ifile, h, ifile, count, v)
  {
  }

  lemma CarriedOn(bs: nat, h0: Held, if0: INode, h: Held, ifile: INode, h': Held, ifile': INode, count: nat, v: word)
    requires bs > 0 && TableOk(bs, h0, if0, count)
    requires Carried(bs, h0, if0, h, ifile, count, v) && Carried(bs, h, ifile, h', ifile', count, v)
    ensures Carried(bs, h0, if0, h', ifile', count, v)
  {
    hide PtrOf, Entry, TableOk;
  }

  /** A live pointer's tag: whoever points to slot a of v is named by v's summary. */
  lemma TagNames(bs: nat, g: Geometry, s: Segment, h0: Held, if0: INode, count: nat, h: Held, ifile: INode, i: word, b: nat)
    requires g.Ok() && TableOk(bs, h0, if0, count) && Describes(g, s, h0) && i <= count && s.number != UINT_MAX
    requires Carried(bs, h0, if0, h, ifile, count, s.number)
    requires PtrOf(bs, h, ifile, i, b).seg == s.number
    ensures var a := PtrOf(bs, h, ifile, i, b);
            && b < MaxBlocks(bs) && a in h0 && a in h && h[a] == h0[a] && 1 <= a.slot < g.segmentSize == |s.inums| == |s.fileBlocks|
            && s.inums[a.slot] == i && s.fileBlocks[a.slot] == b
            && |s.data| == (g.segmentSize - 1) * g.BlockBytes()
            && BlockAt(g, s, a.slot) == FileBlock(bs, h, Entry(bs, h, ifile, i), b)
  {
    hide Entry, BlockAt, Geometry.Ok, Geometry.BlockBytes, Indirects;
    var a := PtrOf(bs, h, ifile, i, b);
    KnownEntry(bs, h0, if0, count, i);
    assert Points(bs, h0, i, b, PtrOf(bs, h0, if0, i, b));
  }

  /** Once the pointer the summary names has left slot k, none is left there. */
  lemma SlotCleared(bs: nat, g: Geometry, s: Segment, h0: Held, if0: INode, count: nat, h: Held, ifile: INode, k: nat)
    requires bs > 0 && g.Ok() && TableOk(bs, h0, if0, count) && Describes(g, s, h0) && s.number != UINT_MAX
    requires Carried(bs, h0, if0, h, ifile, count, s.number) && SlotsCleared(bs, h, ifile, count, s.number, k)
    requires forall i: word, b: nat :: i <= count && k < |s.inums| && k < |s.fileBlocks| && s.inums[k] == i && s.fileBlocks[k] == b
               ==> !(PtrOf(bs, h, ifile, i, b).seg == s.number && PtrOf(bs, h, ifile, i, b).slot == k)
    ensures SlotsCleared(bs, h, ifile, count, s.number, k + 1)
  {
    hide PtrOf, TableOk, Geometry.Ok, Geometry.BlockBytes;
    forall i: word, b: nat | i <= count && PtrOf(bs, h, ifile, i, b).seg == s.number
      ensures PtrOf(bs, h, ifile, i, b).slot >= k + 1
    {
      TagNames(bs, g, s, h0, if0, count, h, ifile, i, b);
    }
  }

  // ---- Moving one block ------------------------------------------------------------------------

  /** A relinked block with the same bytes leaves the file's bytes and holes as they were. */
  lemma MovedFile(bs: nat, h: Held, n: INode, h1: Held, n1: INode, b: nat, block: seq<byte>)
    requires bs > 0 && INodeOk(bs, h, n.inum, n) && b < MaxBlocks(bs) && Ptr(bs, h, n, b) != EMPTY
    requires Relinked(bs, h, n, h1, n1, b, block) && block == FileBlock(bs, h, n, b)
    ensures INodeOk(bs, h1, n.inum, n1) && n1.inUse == n.inUse && n1.fileType == n.fileType && n1.fileSize == n.fileSize
    ensures Contents(bs, h1, n1) == Contents(bs, h, n)
    ensures NoHoles(bs, h, n) ==> NoHoles(bs, h1, n1)
    ensures forall j: word :: KeepsOwned(h, h1, j)
  {
    hide Indirects, MaxBlocks;
    RelinkedBlocks(bs, h, n, h1, n1, b, block);
    assert forall j: nat :: FileBlock(bs, h1, n1, j) == FileBlock(bs, h, n, j);
    forall k: nat | k < n.fileSize
      ensures ByteAt(bs, h1, n1, k) == ByteAt(bs, h, n, k)
    {
      ByteIs(bs, h, n, k);
      ByteIs(bs, h1, n1, k);
    }
  }

  /** One pointer of inode i after a move and the table update that records it. */
  lemma MovedPtr(bs: nat, h: Held, n: INode, t: word, h1: Held, n1: INode, t1: word, h2: Held, i: word, a: Addr, j: nat)
    requires INodeOk(bs, h, i, n) && INodeOk(bs, h1, i, n1) && KeepsOwned(h1, h2, i) && EMPTY !in h
    requires Steered(bs, h, n, t, h1, n1, t1) && a in h && a.seg != t
    requires forall x :: x in h ==> x in h1 && h1[x] == h[x]
    ensures Ptr(bs, h2, n1, j) == Ptr(bs, h1, n1, j)
    ensures Ptr(bs, h2, n1, j).seg == a.seg ==>
              var p := Ptr(bs, h2, n1, j); p == Ptr(bs, h, n, j) && (p in h ==> p in h2 && h2[p] == h[p])
    ensures n1.indirect.seg == a.seg ==> n1.indirect == n.indirect
  {
    hide Indirects;
    PtrsKept(bs, h1, h2, i, n1);
    if j < MaxBlocks(bs) {
      assert Points(bs, h1, i, j, Ptr(bs, h1, n1, j));
    }
  }

  lemma OtherPtr(bs: nat, h: Held, h2: Held, n: INode, i: word, j: nat)
    requires INodeOk(bs, h, i, n) && KeepsOwned(h, h2, i) && EMPTY !in h
    ensures var p := Ptr(bs, h2, n, j); p == Ptr(bs, h, n, j) && (p in h ==> p in h2 && h2[p] == h[p])
  {
  }

  /** The table file after the update that records a move: what it still has in the segment, it had there before. */
  lemma TablePtr(bs: nat, h: Held, ifile: INode, h1: Held, t1: word, h2: Held, ifile2: INode, t2: word, a: Addr, j: nat)
    requires INodeOk(bs, h, IFILE_INUM, ifile) && KeepsOwned(h, h1, IFILE_INUM) && EMPTY !in h
    requires forall x :: x in h ==> x in h1 && h1[x] == h[x]
    requires SparedKept(bs, h1, IFILE_INUM, ifile, t1, h2, ifile2, t2)
    requires a in h1 && h1[a].inum != IFILE_INUM && a.seg != t1
    ensures a.seg != t2
    ensures Ptr(bs, h2, ifile2, j).seg == a.seg ==>
              var p := Ptr(bs, h2, ifile2, j); p == Ptr(bs, h, ifile, j) && (p in h ==> p in h2 && h2[p] == h[p])
    ensures ifile2.indirect.seg == a.seg ==> ifile2.indirect == ifile.indirect
  {
    hide Indirects, Ptr;
    assert Spared(bs, h1, IFILE_INUM, ifile, a);
    OtherPtr(bs, h, h1, ifile, IFILE_INUM, j);
  }

  /** Moving block b of an ordinary file out of segment v. */
  lemma MovedCarries(bs: nat, h: Held, ifile: INode, count: nat, i: word, b: nat, t: word,
                     h1: Held, n1: INode, t1: word, h2: Held, ifile2: INode, t2: word, block: seq<byte>, v: word)
    requires TableOk(bs, h, ifile, count) && 1 <= i <= count && b < MaxBlocks(bs) && EMPTY !in h && v != t && v != UINT_MAX
    requires PtrOf(bs, h, ifile, i, b).seg == v
    requires Relinked(bs, h, Entry(bs, h, ifile, i), h1, n1, b, block) && Steered(bs, h, Entry(bs, h, ifile, i), t, h1, n1, t1)
    requires EntryUpdated(bs, h1, ifile, h2, ifile2, count, i, n1)
    requires SparedKept(bs, h1, IFILE_INUM, ifile, t1, h2, ifile2, t2)
    ensures v != t2 && Carried(bs, h, ifile, h2, ifile2, count, v)
    ensures PtrOf(bs, h2, ifile2, i, b) != PtrOf(bs, h, ifile, i, b)
  {
    hide Entry, IFileOk, NoHoles, Ptr, Indirects, Steered, SparedKept, INodeOkBut, MaxBlocks;
    var n, a := Entry(bs, h, ifile, i), PtrOf(bs, h, ifile, i, b);
    KnownEntry(bs, h, ifile, count, i);
    KnownEntry(bs, h, ifile, count, IFILE_INUM);
    PointerAt(bs, h, n, b);
    assert a != EMPTY && a in h && h[a].inum == i by { OwnedPtr(bs, h, n, b); }
    SteeredAt(bs, h, n, t, h1, n1, t1, a);
    EntryZero(bs, h, ifile);
    EntryZero(bs, h2, ifile2);
    OtherThanTable(bs, h1, ifile, t1, h2, ifile2, t2);
    KeepAll(h, h1);
    TableKeptFor(bs, h, h1, ifile, count);
    forall k: word, j: nat | k <= count
      ensures PtrOf(bs, h2, ifile2, k, j).seg == v ==>
                var p := PtrOf(bs, h2, ifile2, k, j); p == PtrOf(bs, h, ifile, k, j) && (p in h ==> p in h2 && h2[p] == h[p])
      ensures Entry(bs, h2, ifile2, k).indirect.seg == v ==> Entry(bs, h2, ifile2, k).indirect == Entry(bs, h, ifile, k).indirect
      ensures k == i && j == b ==> PtrOf(bs, h2, ifile2, k, j) != a
    {
      if k == i {
        MovedPtr(bs, h, n, t, h1, n1, t1, h2, i, a, j);
      } else if k == IFILE_INUM {
        TablePtr(bs, h, ifile, h1, t1, h2, ifile2, t2, a, j);
      } else {
        KnownEntry(bs, h, ifile, count, k);
        KeepsChain(h, h1, h2, k);
        OtherPtr(bs, h, h2, Entry(bs, h, ifile, k), k, j);
      }
    }
    TablePtr(bs, h, ifile, h1, t1, h2, ifile2, t2, a, 0);
  }

  lemma OwnedPtr(bs: nat, h: Held, n: INode, b: nat)
    requires INodeOk(bs, h, n.inum, n) && b < MaxBlocks(bs) && Ptr(bs, h, n, b) != EMPTY
    ensures Ptr(bs, h, n, b) in h && h[Ptr(bs, h, n, b)].inum == n.inum
  {
  }

  lemma SteeredAt(bs: nat, h: Held, n: INode, t: word, h1: Held, n1: INode, t1: word, a: Addr)
    requires Steered(bs, h, n, t, h1, n1, t1) && a in h && a.seg != t
    ensures a.seg != t1
  {
  }

  lemma KeepAll(h: Held, h1: Held)
    requires forall x :: x in h ==> x in h1 && h1[x] == h[x]
    ensures forall j: word :: KeepsOwned(h, h1, j)
  {
  }

  /** Whatever else comes to be held, the table and every file are as they were. */
  lemma TableGrown(bs: nat, h0: Held, h: Held, ifile: INode, count: nat)
    requires TableOk(bs, h0, ifile, count) && forall a :: a in h0 ==> a in h && h[a] == h0[a]
    ensures TableOk(bs, h, ifile, count) && bs > 0 && Views(bs, h, ifile, count) == Views(bs, h0, ifile, count)
  {
    hide INodeOk, NoHoles, Entry, EntryOk, ViewOf, MaxBlocks;
    KeepAll(h0, h);
    TableFileKept(bs, h0, h, ifile, count);
    WordIndex(bs, h0, ifile, count);
    forall i: word | 1 <= i <= count
      ensures EntryOk(bs, h, i, Entry(bs, h, ifile, i))
      ensures ViewOf(bs, h, Entry(bs, h, ifile, i)) == ViewOf(bs, h0, Entry(bs, h0, ifile, i))
    {
      ViewKept(bs, h0, h, i, Entry(bs, h0, ifile, i));
    }
    forall k | 0 <= k < count
      ensures Views(bs, h, ifile, count)[k] == Views(bs, h0, ifile, count)[k]
    {
      var i: word := k + 1;
      ViewAt(bs, h0, ifile, count, i);
      ViewAt(bs, h, ifile, count, i);
    }
  }

  lemma TableKeptFor(bs: nat, h: Held, h1: Held, ifile: INode, count: nat)
    requires IFileOk(bs, h, ifile, count) && KeepsOwned(h, h1, IFILE_INUM)
    ensures forall i: nat :: Entry(bs, h1, ifile, i) == Entry(bs, h, ifile, i)
  {
    TableFileKept(bs, h, h1, ifile, count);
  }

  /** Moving block b of the table file itself: its inode is in memory, so no record has to be written. */
  lemma MovedTable(bs: nat, h: Held, ifile: INode, count: nat, b: nat, t: word, h1: Held, n1: INode, t1: word, block: seq<byte>, v: word)
    requires TableOk(bs, h, ifile, count) && b < MaxBlocks(bs) && EMPTY !in h && v != t && v != UINT_MAX
    requires Ptr(bs, h, ifile, b).seg == v && block == FileBlock(bs, h, ifile, b)
    requires Relinked(bs, h, ifile, h1, n1, b, block) && Steered(bs, h, ifile, t, h1, n1, t1)
    ensures TableOk(bs, h1, n1, count) && Views(bs, h1, n1, count) == Views(bs, h, ifile, count)
    ensures v != t1 && Carried(bs, h, ifile, h1, n1, count, v)
    ensures PtrOf(bs, h1, n1, IFILE_INUM, b) != Ptr(bs, h, ifile, b)
  {
    hide NoHoles, Ptr, Indirects, Steered, INodeOkBut, MaxBlocks, ViewOf, Record;
    var a := Ptr(bs, h, ifile, b);
    KnownEntry(bs, h, ifile, count, IFILE_INUM);
    EntryZero(bs, h, ifile);
    EntryZero(bs, h1, n1);
    OwnedPtr(bs, h, ifile, b);
    MovedFile(bs, h, ifile, h1, n1, b, block);
    SteeredAt(bs, h, ifile, t, h1, n1, t1, a);
    SameRecords(bs, h, ifile, h1, n1);
    hide Entry, KeepsOwned;
    forall k: word, j: nat | k <= count
      ensures PtrOf(bs, h1, n1, k, j).seg == v ==>
                var p := PtrOf(bs, h1, n1, k, j); p == PtrOf(bs, h, ifile, k, j) && (p in h ==> p in h1 && h1[p] == h[p])
      ensures Entry(bs, h1, n1, k).indirect.seg == v ==> Entry(bs, h1, n1, k).indirect == Entry(bs, h, ifile, k).indirect
    {
      if k == IFILE_INUM {
        KeepsItself(h1);
        MovedPtr(bs, h, ifile, t, h1, n1, t1, h1, IFILE_INUM, a, j);
      } else {
        KnownEntry(bs, h, ifile, count, k);
        OtherPtr(bs, h, h1, Entry(bs, h, ifile, k), k, j);
      }
    }
    MovedPtr(bs, h, ifile, t, h1, n1, t1, h1, IFILE_INUM, a, b) by { KeepsItself(h1); }
    SameTable(bs, h, ifile, h1, n1, count);
  }

  lemma SameRecords(bs: nat, h: Held, ifile: INode, h1: Held, n1: INode)
    requires bs > 0 && n1.fileSize == ifile.fileSize && Contents(bs, h1, n1) == Contents(bs, h, ifile)
    ensures forall i: nat :: 1 <= i && i * INODE_BYTES <= ifile.fileSize ==> Entry(bs, h1, n1, i) == Entry(bs, h, ifile, i)
  {
  }

  lemma SameTable(bs: nat, h: Held, ifile: INode, h1: Held, n1: INode, count: nat)
    requires TableOk(bs, h, ifile, count) && INodeOk(bs, h1, IFILE_INUM, n1) && n1.inUse && n1.fileType == File && n1.fileSize == ifile.fileSize
    requires NoHoles(bs, h, ifile) ==> NoHoles(bs, h1, n1)
    requires forall i: nat :: 1 <= i && i * INODE_BYTES <= ifile.fileSize ==> Entry(bs, h1, n1, i) == Entry(bs, h, ifile, i)
    requires forall j: word :: KeepsOwned(h, h1, j)
    ensures TableOk(bs, h1, n1, count) && Views(bs, h1, n1, count) == Views(bs, h, ifile, count)
  {
    hide NoHoles, INodeOk, Entry, KeepsOwned, ViewOf, EntryOk, MaxBlocks;
    WordIndex(bs, h, ifile, count);
    forall i: word | 1 <= i <= count
      ensures Entry(bs, h1, n1, i) == Entry(bs, h, ifile, i) && EntryOk(bs, h1, i, Entry(bs, h1, n1, i))
      ensures ViewOf(bs, h1, Entry(bs, h1, n1, i)) == ViewOf(bs, h, Entry(bs, h, ifile, i))
    {
      ViewKept(bs, h, h1, i, Entry(bs, h, ifile, i));
    }
    forall k | 0 <= k < count
      ensures Views(bs, h1, n1, count)[k] == Views(bs, h, ifile, count)[k]
    {
      var i: word := k + 1;
      ViewAt(bs, h, ifile, count, i);
      ViewAt(bs, h1, n1, count, i);
    }
  }

  /** The link count of the table's own inode is nobody's business. */
  lemma TableRelabelled(bs: nat, h: Held, ifile: INode, n: INode, count: nat)
    requires TableOk(bs, h, ifile, count) && n == ifile.(nlinks := n.nlinks)
    ensures INodeOk(bs, h, IFILE_INUM, n) && n.inum == IFILE_INUM
    ensures TableOk(bs, h, n, count) && Views(bs, h, n, count) == Views(bs, h, ifile, count)
  {
    hide NoHoles, INodeOk, KeepsOwned, ViewOf, Contents, Record;
    Relabelled(bs, h, IFILE_INUM, ifile, n);
    KnownInum(bs, h, IFILE_INUM, n);
    KeepsItself(h);
    SameRecords(bs, h, ifile, h, n);
    SameTable(bs, h, ifile, h, n, count);
  }

  lemma IndirectPart(bs: nat, h: Held, n: INode)
    requires INodeOk(bs, h, n.inum, n)
    ensures IndirectOk(bs, h, n.inum, n)
  {
  }

  lemma AnyBut(bs: nat, h: Held, n: INode, b: nat)
    requires INodeOk(bs, h, n.inum, n)
    ensures INodeOkBut(bs, h, n.inum, n, b)
  {
  }

  lemma LinkedInum(bs: nat, h: Held, n: INode, h1: Held, n1: INode, b: nat, block: seq<byte>)
    requires Relinked(bs, h, n, h1, n1, b, block)
    ensures n1.inum == n.inum && SameButPointers(n, n1)
  {
  }

  lemma StillCleared(bs: nat, h: Held, ifile: INode, h': Held, ifile': INode, count: nat, v: word, k: nat)
    requires bs > 0 && Carried(bs, h, ifile, h', ifile', count, v) && SlotsCleared(bs, h, ifile, count, v, k)
    ensures SlotsCleared(bs, h', ifile', count, v, k)
  {
  }

  /** No data pointer of any inode lies in segment v. */
  ghost predicate Evacuated(bs: nat, h: Held, ifile: INode, count: nat, v: word)
    requires bs > 0
  {
    forall i: word, b: nat :: i <= count ==> PtrOf(bs, h, ifile, i, b).seg != v
  }

  lemma ShapeOf(g: Geometry, s: Segment)
    requires g.Ok() && WellFormed(g, s)
    ensures s.numberOfBlocks == g.segmentSize == |s.inums| && g.segmentSize >= 2
  {
  }

  lemma NothingBelowOne(bs: nat, g: Geometry, s: Segment, h: Held, ifile: INode, count: nat)
    requires bs > 0 && g.Ok() && TableOk(bs, h, ifile, count) && Describes(g, s, h) && s.number != UINT_MAX
    ensures SlotsCleared(bs, h, ifile, count, s.number, 1)
  {
    hide PtrOf, TableOk, Geometry.Ok, Geometry.BlockBytes, Describes;
    CarriedItself(bs, h, ifile, count, s.number);
    forall i: word, b: nat | i <= count && PtrOf(bs, h, ifile, i, b).seg == s.number
      ensures PtrOf(bs, h, ifile, i, b).slot >= 1
    {
      TagNames(bs, g, s, h, ifile, count, h, ifile, i, b);
    }
  }

  lemma AllCleared(bs: nat, g: Geometry, s: Segment, h0: Held, if0: INode, count: nat, h: Held, ifile: INode)
    requires bs > 0 && g.Ok() && TableOk(bs, h0, if0, count) && Describes(g, s, h0) && s.number != UINT_MAX
    requires Carried(bs, h0, if0, h, ifile, count, s.number) && SlotsCleared(bs, h, ifile, count, s.number, g.segmentSize)
    ensures Evacuated(bs, h, ifile, count, s.number)
  {
    hide PtrOf, TableOk, Geometry.Ok, Geometry.BlockBytes, Describes;
    forall i: word, b: nat | i <= count
      ensures PtrOf(bs, h, ifile, i, b).seg != s.number
    {
      if PtrOf(bs, h, ifile, i, b).seg == s.number {
        TagNames(bs, g, s, h0, if0, count, h, ifile, i, b);
      }
    }
  }

  // ---- Erasing an evacuated segment -------------------------------------------------------------

  /** No inode's indirect block lies in segment v. */
  ghost predicate IndirectsElsewhere(bs: nat, h: Held, ifile: INode, count: nat, v: word)
    requires bs > 0
  {
    forall i: word :: i <= count ==> Entry(bs, h, ifile, i).indirect.seg != v
  }

  lemma DroppedPtrs(bs: nat, h: Held, n: INode, v: word)
    requires n.indirect.seg != v
    ensures forall b: nat :: Ptr(bs, DroppedSegment(h, v), n, b) == Ptr(bs, h, n, b)
    ensures IndirectOk(bs, h, n.inum, n) ==> IndirectOk(bs, DroppedSegment(h, v), n.inum, n)
  {
  }

  /** A file with no block in v does not notice v being emptied. */
  lemma DroppedFile(bs: nat, h: Held, i: word, n: INode, v: word)
    requires bs > 0 && INodeOk(bs, h, i, n) && n.indirect.seg != v
    requires forall b: nat :: Ptr(bs, h, n, b).seg != v
    ensures INodeOk(bs, DroppedSegment(h, v), i, n)
    ensures Contents(bs, DroppedSegment(h, v), n) == Contents(bs, h, n)
    ensures forall b: nat :: Ptr(bs, DroppedSegment(h, v), n, b) == Ptr(bs, h, n, b)
    ensures NoHoles(bs, h, n) ==> NoHoles(bs, DroppedSegment(h, v), n)
  {
    var h' := DroppedSegment(h, v);
    DroppedPtrs(bs, h, n, v);
    hide Ptr, MaxBlocks, Contents;
    forall b: nat
      ensures FileBlock(bs, h', n, b) == FileBlock(bs, h, n, b)
      ensures b < MaxBlocks(bs) ==> Points(bs, h', i, b, Ptr(bs, h', n, b))
    {
      assert Ptr(bs, h, n, b).seg != v && Ptr(bs, h', n, b) == Ptr(bs, h, n, b);
    }
    SameBytes(bs, h, h', n);
  }

  lemma NoPtrIn(bs: nat, h: Held, ifile: INode, count: nat, v: word, i: word)
    requires bs > 0 && Evacuated(bs, h, ifile, count, v) && i <= count
    ensures forall b: nat :: Ptr(bs, h, Entry(bs, h, ifile, i), b).seg != v
  {
    hide Entry, Ptr;
    forall b: nat
      ensures Ptr(bs, h, Entry(bs, h, ifile, i), b).seg != v
    {
      assert PtrOf(bs, h, ifile, i, b).seg != v;
    }
  }

  /** Emptying an evacuated segment keeps every file and every byte exactly if no inode's indirect block lay there. */
  lemma DroppedTable(bs: nat, h: Held, ifile: INode, count: nat, v: word)
    requires TableOk(bs, h, ifile, count) && Evacuated(bs, h, ifile, count, v) && v != UINT_MAX
    ensures TableOk(bs, DroppedSegment(h, v), ifile, count) <==> IndirectsElsewhere(bs, h, ifile, count, v)
    ensures IndirectsElsewhere(bs, h, ifile, count, v) ==> Views(bs, DroppedSegment(h, v), ifile, count) == Views(bs, h, ifile, count)
  {
    var h' := DroppedSegment(h, v);
    if IndirectsElsewhere(bs, h, ifile, count, v) {
      DroppedKeeps(bs, h, ifile, count, v);
    }
    if TableOk(bs, h', ifile, count) {
      DroppedNeeds(bs, h, ifile, count, v);
    }
  }

  /** The table file itself first: then its records read the same, and each names its indirect block. */
  lemma DroppedNeeds(bs: nat, h: Held, ifile: INode, count: nat, v: word)
    requires bs > 0 && TableOk(bs, h, ifile, count) && Evacuated(bs, h, ifile, count, v) && v != UINT_MAX
    requires TableOk(bs, DroppedSegment(h, v), ifile, count)
    ensures IndirectsElsewhere(bs, h, ifile, count, v)
  {
    hide Ptr, NoHoles, Contents, INodeOkBut, IFileOk, MaxBlocks, DroppedSegment, Record;
    var h' := DroppedSegment(h, v);
    EntryZero(bs, h, ifile);
    EntryZero(bs, h', ifile);
    KnownEntry(bs, h, ifile, count, IFILE_INUM);
    KnownEntry(bs, h', ifile, count, IFILE_INUM);
    NotDropped(bs, h, ifile.inum, ifile, v);
    NoPtrIn(bs, h, ifile, count, v, IFILE_INUM);
    DroppedFile(bs, h, IFILE_INUM, ifile, v);
    assert forall i: nat :: Entry(bs, h', ifile, i) == Entry(bs, h, ifile, i);
    hide Entry;
    forall i: word | i <= count
      ensures Entry(bs, h, ifile, i).indirect.seg != v
    {
      KnownEntry(bs, h', ifile, count, i);
      NotDropped(bs, h, i, Entry(bs, h, ifile, i), v);
    }
  }

  /** Whether an indirect block was lost shows in the table as it reads after the erase. */
  lemma DroppedShows(bs: nat, h: Held, ifile: INode, count: nat, v: word)
    requires bs > 0 && TableOk(bs, h, ifile, count) && Evacuated(bs, h, ifile, count, v)
    ensures IndirectsElsewhere(bs, DroppedSegment(h, v), ifile, count, v) <==> IndirectsElsewhere(bs, h, ifile, count, v)
    ensures HeldIn(DroppedSegment(h, v), v) == {}
  {
    hide Ptr, NoHoles, Contents, INodeOk, IFileOk, MaxBlocks, Record;
    var h' := DroppedSegment(h, v);
    EntryZero(bs, h, ifile);
    EntryZero(bs, h', ifile);
    KnownEntry(bs, h, ifile, count, IFILE_INUM);
    hide DroppedSegment;
    if ifile.indirect.seg != v {
      NoPtrIn(bs, h, ifile, count, v, IFILE_INUM);
      DroppedFile(bs, h, IFILE_INUM, ifile, v);
      assert forall i: nat :: Entry(bs, h', ifile, i) == Entry(bs, h, ifile, i);
    }
  }

  lemma NotDropped(bs: nat, h: Held, i: word, n: INode, v: word)
    requires INodeOk(bs, DroppedSegment(h, v), i, n) && v != UINT_MAX
    ensures n.indirect.seg != v
  {
  }

  lemma DroppedKeeps(bs: nat, h: Held, ifile: INode, count: nat, v: word)
    requires TableOk(bs, h, ifile, count) && Evacuated(bs, h, ifile, count, v) && IndirectsElsewhere(bs, h, ifile, count, v)
    ensures TableOk(bs, DroppedSegment(h, v), ifile, count)
    ensures Views(bs, DroppedSegment(h, v), ifile, count) == Views(bs, h, ifile, count)
  {
    hide INodeOk, NoHoles, Contents, Record, Ptr, MaxBlocks, DroppedSegment;
    var h' := DroppedSegment(h, v);
    EntryZero(bs, h, ifile);
    KnownEntry(bs, h, ifile, count, IFILE_INUM);
    NoPtrIn(bs, h, ifile, count, v, IFILE_INUM);
    DroppedFile(bs, h, IFILE_INUM, ifile, v);
    assert forall i: nat :: Entry(bs, h', ifile, i) == Entry(bs, h, ifile, i);
    hide Entry;
    WordIndex(bs, h, ifile, count);
    forall i: word | 1 <= i <= count
      ensures EntryOk(bs, h', i, Entry(bs, h', ifile, i))
      ensures ViewOf(bs, h', Entry(bs, h', ifile, i)) == ViewOf(bs, h, Entry(bs, h, ifile, i))
    {
      NoPtrIn(bs, h, ifile, count, v, i);
      DroppedFile(bs, h, i, Entry(bs, h, ifile, i), v);
    }
    forall k | 0 <= k < count
      ensures Views(bs, h', ifile, count)[k] == Views(bs, h, ifile, count)[k]
    {
      var i: word := k + 1;
      ViewAt(bs, h, ifile, count, i);
      ViewAt(bs, h', ifile, count, i);
    }
  }
}
