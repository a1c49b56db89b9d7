/** Which indirect blocks a cleaned segment takes with it, and at which slot a cleaning stops: decided before it starts. */
module Victims {
  import opened Words
  import opened Segments
  import opened INodes
  import opened LogModel
  import opened FileModel
  import opened InodeTable
  import opened FileViews
  import opened Accounts
  import opened Cleaning
  import opened Ownership

  /** Moving block b of inode i rewrites the indirect block of inode k: its own, or the table's for the record. */
  predicate Touch(bs: nat, k: word, i: word, b: nat) {
    if k == i then b >= DIRECT_BLOCKS else k == IFILE_INUM && i * INODE_BYTES > DIRECT_BLOCKS * bs
  }

  /** Some block below slot s of segment v has to be moved, and its move rewrites inode k's indirect block. */
  ghost predicate TouchedBefore(bs: nat, h: Held, ifile: INode, count: nat, v: word, k: word, s: nat)
    requires bs > 0
  {
    exists i: word, b: nat :: i <= count && PtrOf(bs, h, ifile, i, b).seg == v && PtrOf(bs, h, ifile, i, b).slot < s && Touch(bs, k, i, b)
  }

  /** An indirect block that was rewritten lies elsewhere, any other is where it was. */
  predicate Followed(a: Addr, a': Addr, touched: bool, v: word) {
    if touched then a' != EMPTY && a'.seg != v else a' == a
  }

  /** What moving block b of inode i does to indirect blocks and to pointers that are still to be moved. */
  ghost predicate Moved(bs: nat, h: Held, ifile: INode, h': Held, ifile': INode, count: nat, i: word, b: nat, v: word)
    requires bs > 0
  {
    && (forall k: word :: k <= count ==>
          Followed(Entry(bs, h, ifile, k).indirect, Entry(bs, h', ifile', k).indirect, Touch(bs, k, i, b), v))
    && (forall k: word, j: nat ::
          (k <= count && (k != i || j != b) && (k == IFILE_INUM ==> j >= DIRECT_BLOCKS && !Touch(bs, IFILE_INUM, i, b))) ==>
          PtrOf(bs, h', ifile', k, j) == PtrOf(bs, h, ifile, k, j))
  }

  lemma SameIndirects(bs: nat, h: Held, h': Held, n: INode, n': INode)
    requires IndirectOk(bs, h, n.inum, n) && TablesKept(h, h', n.inum) && n'.indirect == n.indirect
    ensures forall j: nat :: j >= DIRECT_BLOCKS ==> Ptr(bs, h', n', j) == Ptr(bs, h, n, j)
  {
    assert Indirects(bs, h', n') == Indirects(bs, h, n);
  }

  lemma FreshTable(bs: nat, h: Held, ifile: INode, count: nat, i: word, h1: Held, n1: INode, b: nat, block: seq<byte>)
    requires TableOk(bs, h, ifile, count) && i <= count && bs > 0 && Relinked(bs, h, Entry(bs, h, ifile, i), h1, n1, b, block)
    ensures var a := Entry(bs, h, ifile, i).indirect;
            if b < DIRECT_BLOCKS then n1.indirect == a else n1.indirect != a && n1.indirect != EMPTY
  {
    hide Entry, Ptr, NoHoles, IFileOk;
    IndirectTag(bs, h, ifile, count, i);
  }

  /** The move of an ordinary file's block, and the update of its record. */
  lemma MovedBlock(bs: nat, h: Held, ifile: INode, count: nat, i: word, b: nat, h1: Held, n1: INode, h2: Held, ifile2: INode,
                   block: seq<byte>, v: word)
    requires TableOk(bs, h, ifile, count) && 1 <= i <= count && Carried(bs, h, ifile, h2, ifile2, count, v)
    requires Relinked(bs, h, Entry(bs, h, ifile, i), h1, n1, b, block) && EntryUpdated(bs, h1, ifile, h2, ifile2, count, i, n1)
    requires Account(bs, h1, ifile, h2, ifile2, RecordTables(bs, i)) && OthersSame(h1, h2, {IFILE_INUM})
    ensures Moved(bs, h, ifile, h2, ifile2, count, i, b, v)
  {
    hide Entry, IFileOk, NoHoles, Ptr, INodeOkBut, MaxBlocks, LostData, Tables, RecordTables, OthersSame, Carried;
    var n := Entry(bs, h, ifile, i);
    KnownEntry(bs, h, ifile, count, i);
    KnownEntry(bs, h, ifile, count, IFILE_INUM);
    EntryZero(bs, h, ifile);
    EntryZero(bs, h2, ifile2);
    KeepAll(h, h1);
    TableKeptFor(bs, h, h1, ifile, count);
    FreshTable(bs, h, ifile, count, i, h1, n1, b, block);
    FitsBelow(bs, h, ifile, count, i);
    RecordTablesAre(bs, i);
    PtrsKept(bs, h, h1, IFILE_INUM, ifile);
    FileKept(bs, h, h1, IFILE_INUM, ifile);
    IndirectPart(bs, h1, ifile);
    if ifile2.indirect == ifile.indirect {
      SameIndirects(bs, h1, h2, ifile, ifile2);
    }
    OwnersSame(h1, h2, i, {IFILE_INUM});
    PtrsKept(bs, h1, h2, i, n1);
    forall k: word | k <= count
      ensures Followed(Entry(bs, h, ifile, k).indirect, Entry(bs, h2, ifile2, k).indirect, Touch(bs, k, i, b), v)
    {
      CarriedIndirect(bs, h, ifile, h2, ifile2, count, v, k);
    }
    forall k: word, j: nat | k <= count && (k != i || j != b)
             && (k == IFILE_INUM ==> j >= DIRECT_BLOCKS && !Touch(bs, IFILE_INUM, i, b))
      ensures PtrOf(bs, h2, ifile2, k, j) == PtrOf(bs, h, ifile, k, j)
    {
      if k != i && k != IFILE_INUM {
        KnownEntry(bs, h, ifile, count, k);
        OwnersSame(h1, h2, k, {IFILE_INUM});
        KeepsChain(h, h1, h2, k);
        PtrsKept(bs, h, h2, k, Entry(bs, h, ifile, k));
      }
    }
  }

  lemma CarriedIndirect(bs: nat, h: Held, ifile: INode, h': Held, ifile': INode, count: nat, v: word, k: word)
    requires bs > 0 && Carried(bs, h, ifile, h', ifile', count, v) && k <= count
    ensures Entry(bs, h', ifile', k).indirect.seg == v ==> Entry(bs, h', ifile', k).indirect == Entry(bs, h, ifile, k).indirect
  {
  }

  /** The move of a block of the table file itself. */
  lemma MovedOwnBlock(bs: nat, h: Held, ifile: INode, count: nat, b: nat, h1: Held, n1: INode, block: seq<byte>, v: word)
    requires TableOk(bs, h, ifile, count) && b < MaxBlocks(bs) && Ptr(bs, h, ifile, b) != EMPTY && block == FileBlock(bs, h, ifile, b)
    requires Relinked(bs, h, ifile, h1, n1, b, block) && Carried(bs, h, ifile, h1, n1, count, v)
    ensures Moved(bs, h, ifile, h1, n1, count, IFILE_INUM, b, v)
  {
    hide NoHoles, Ptr, Indirects, INodeOkBut, MaxBlocks, Record, Carried;
    KnownEntry(bs, h, ifile, count, IFILE_INUM);
    EntryZero(bs, h, ifile);
    EntryZero(bs, h1, n1);
    FreshTable(bs, h, ifile, count, IFILE_INUM, h1, n1, b, block);
    MovedFile(bs, h, ifile, h1, n1, b, block);
    SameRecords(bs, h, ifile, h1, n1);
    hide Entry, KeepsOwned, Contents;
    forall k: word | k <= count
      ensures Followed(Entry(bs, h, ifile, k).indirect, Entry(bs, h1, n1, k).indirect, Touch(bs, k, IFILE_INUM, b), v)
    {
      CarriedIndirect(bs, h, ifile, h1, n1, count, v, k);
    }
    forall k: word, j: nat | k <= count && (k != IFILE_INUM || j != b)
      ensures PtrOf(bs, h1, n1, k, j) == PtrOf(bs, h, ifile, k, j)
    {
      if k != IFILE_INUM {
        KnownEntry(bs, h, ifile, count, k);
        PtrsKept(bs, h, h1, k, Entry(bs, h, ifile, k));
      }
    }
  }

  // ---- Slot by slot ----------------------------------------------------------------------------

  /** With the slots below s cleaned: rewritten indirect blocks have left, and what is still to be moved is still there. */
  ghost predicate Tracked(bs: nat, h0: Held, if0: INode, h: Held, ifile: INode, count: nat, v: word, s: nat)
    requires bs > 0
  {
    && (forall k: word :: k <= count ==>
          Followed(Entry(bs, h0, if0, k).indirect, Entry(bs, h, ifile, k).indirect, TouchedBefore(bs, h0, if0, count, v, k, s), v))
    && (forall k: word, j: nat ::
          (k <= count && PtrOf(bs, h0, if0, k, j).seg == v && PtrOf(bs, h0, if0, k, j).slot >= s
           && (k == IFILE_INUM ==> j >= DIRECT_BLOCKS && !TouchedBefore(bs, h0, if0, count, v, IFILE_INUM, s))) ==>
          PtrOf(bs, h, ifile, k, j) == PtrOf(bs, h0, if0, k, j))
  }

  lemma TrackedStarts(bs: nat, h0: Held, if0: INode, count: nat, v: word)
    requires bs > 0 && SlotsCleared(bs, h0, if0, count, v, 1)
    ensures Tracked(bs, h0, if0, h0, if0, count, v, 1)
  {
    hide PtrOf, Entry;
  }

  lemma TouchedNext(bs: nat, h0: Held, if0: INode, count: nat, v: word, s: word, i: word, b: nat, k: word)
    requires TableOk(bs, h0, if0, count) && bs > 0 && i <= count && v != UINT_MAX && PtrOf(bs, h0, if0, i, b) == Addr(v, s)
    ensures TouchedBefore(bs, h0, if0, count, v, k, s + 1) <==> TouchedBefore(bs, h0, if0, count, v, k, s) || Touch(bs, k, i, b)
  {
    hide PtrOf, TableOk;
    if j: word, c: nat :| j <= count && PtrOf(bs, h0, if0, j, c).seg == v && PtrOf(bs, h0, if0, j, c).slot < s + 1 && Touch(bs, k, j, c) {
      NoAliasing(bs, h0, if0, count, i, b, j, c);
    }
  }

  lemma TrackedMove(bs: nat, h0: Held, if0: INode, h: Held, ifile: INode, h': Held, ifile': INode, count: nat, v: word, s: word,
                    i: word, b: nat)
    requires TableOk(bs, h0, if0, count) && bs > 0 && i <= count && v != UINT_MAX && Carried(bs, h0, if0, h, ifile, count, v)
    requires PtrOf(bs, h, ifile, i, b) == Addr(v, s) && Moved(bs, h, ifile, h', ifile', count, i, b, v)
    requires Tracked(bs, h0, if0, h, ifile, count, v, s)
    ensures Tracked(bs, h0, if0, h', ifile', count, v, s + 1)
  {
    hide PtrOf, TableOk, Entry, TouchedBefore, Touch;
    assert PtrOf(bs, h0, if0, i, b) == Addr(v, s);
    forall k: word
      ensures TouchedBefore(bs, h0, if0, count, v, k, s + 1) <==> TouchedBefore(bs, h0, if0, count, v, k, s) || Touch(bs, k, i, b)
    {
      TouchedNext(bs, h0, if0, count, v, s, i, b, k);
    }
  }

  lemma TrackedPass(bs: nat, h0: Held, if0: INode, h: Held, ifile: INode, count: nat, v: word, s: word)
    requires bs > 0 && Tracked(bs, h0, if0, h, ifile, count, v, s) && SlotsCleared(bs, h, ifile, count, v, s + 1)
    ensures Tracked(bs, h0, if0, h, ifile, count, v, s + 1)
  {
    hide PtrOf, Entry;
    forall k: word | k <= count
      ensures TouchedBefore(bs, h0, if0, count, v, k, s + 1) <==> TouchedBefore(bs, h0, if0, count, v, k, s)
    {
    }
  }

  // ---- What is lost ----------------------------------------------------------------------------

  /** Cleaning segment v rewrites inode k's indirect block. */
  ghost predicate Rewritten(bs: nat, h: Held, ifile: INode, count: nat, v: word, k: word)
    requires bs > 0
  {
    exists i: word, b: nat :: i <= count && PtrOf(bs, h, ifile, i, b).seg == v && Touch(bs, k, i, b)
  }

  /** An indirect block lies in segment v and nothing that is moved out of v takes it along. */
  ghost predicate LosesIndirect(bs: nat, h: Held, ifile: INode, count: nat, v: word)
    requires bs > 0
  {
    exists k: word :: k <= count && Entry(bs, h, ifile, k).indirect.seg == v && !Rewritten(bs, h, ifile, count, v, k)
  }

  lemma TrackedEnds(bs: nat, g: Geometry, segment: Segment, h0: Held, if0: INode, h: Held, ifile: INode, count: nat)
    requires bs > 0 && g.Ok() && TableOk(bs, h0, if0, count) && Describes(g, segment, h0) && segment.number != UINT_MAX
    requires Tracked(bs, h0, if0, h, ifile, count, segment.number, g.segmentSize)
    ensures IndirectsElsewhere(bs, h, ifile, count, segment.number) <==> !LosesIndirect(bs, h0, if0, count, segment.number)
  {
    hide PtrOf, Entry, TableOk, Geometry.Ok, Geometry.BlockBytes, Describes;
    var v := segment.number;
    CarriedItself(bs, h0, if0, count, v);
    forall i: word, b: nat | i <= count && PtrOf(bs, h0, if0, i, b).seg == v
      ensures PtrOf(bs, h0, if0, i, b).slot < g.segmentSize
    {
      TagNames(bs, g, segment, h0, if0, count, h0, if0, i, b);
    }
    forall k: word | k <= count
      ensures Rewritten(bs, h0, if0, count, v, k) <==> TouchedBefore(bs, h0, if0, count, v, k, g.segmentSize)
    {
    }
    hide Rewritten, TouchedBefore;
    forall k: word | k <= count
      ensures Entry(bs, h, ifile, k).indirect.seg == v <==> Entry(bs, h0, if0, k).indirect.seg == v && !Rewritten(bs, h0, if0, count, v, k)
    {
      assert Followed(Entry(bs, h0, if0, k).indirect, Entry(bs, h, ifile, k).indirect, Rewritten(bs, h0, if0, count, v, k), v);
    }
  }

  // ---- Where a cleaning stops ------------------------------------------------------------------

  /**
   * The tag (inum, fileBlock) of a slot ends the cleaning: it names no inode, no block of a file, the block past the largest
   * file of an inode with an indirect block, or, as INDIRECT_BLOCK, the indirect block its owner has now.
   */
  predicate StopTag(bs: nat, count: nat, inum: i32, fileBlock: i32, indirect: Addr, here: Addr) {
    inum != NO_INUM &&
      (!(0 <= inum <= count) || fileBlock < INDIRECT_BLOCK || fileBlock > MaxBlocks(bs)
       || (fileBlock == MaxBlocks(bs) && indirect != EMPTY) || (fileBlock == INDIRECT_BLOCK && indirect == here))
  }

  function IndirectOf(bs: nat, h: Held, ifile: INode, inum: i32): Addr
    requires bs > 0
  {
    if inum >= 0 then Entry(bs, h, ifile, inum).indirect else EMPTY
  }

  ghost predicate StopsNow(bs: nat, segment: Segment, h: Held, ifile: INode, count: nat, s: word)
    requires bs > 0
  {
    && s < |segment.inums| && s < |segment.fileBlocks|
    && StopTag(bs, count, segment.inums[s], segment.fileBlocks[s], IndirectOf(bs, h, ifile, segment.inums[s]), Addr(segment.number, s))
  }

  /** Before the cleaning starts: slot s will end it, an indirect block not if a block below it takes it along. */
  ghost predicate StopsAt(bs: nat, segment: Segment, h: Held, ifile: INode, count: nat, s: word)
    requires bs > 0
  {
    && StopsNow(bs, segment, h, ifile, count, s)
    && (segment.fileBlocks[s] == INDIRECT_BLOCK && 0 <= segment.inums[s] <= count ==>
          !TouchedBefore(bs, h, ifile, count, segment.number, segment.inums[s], s))
  }

  ghost predicate StopsSomewhere(bs: nat, segment: Segment, h: Held, ifile: INode, count: nat)
    requires bs > 0
  {
    exists s: word :: s >= 1 && StopsAt(bs, segment, h, ifile, count, s)
  }

  lemma StopsInside(bs: nat, segment: Segment, h: Held, ifile: INode, count: nat)
    requires bs > 0
    ensures forall s: word :: StopsAt(bs, segment, h, ifile, count, s) ==> s < |segment.inums|
  {
  }

  lemma TouchedHas(bs: nat, h: Held, ifile: INode, count: nat, v: word, k: word, s: nat)
    requires TableOk(bs, h, ifile, count) && bs > 0 && k <= count && v != UINT_MAX && TouchedBefore(bs, h, ifile, count, v, k, s)
    ensures Entry(bs, h, ifile, k).indirect != EMPTY
  {
    hide Entry, Ptr, INodeOk, MaxBlocks;
    var i: word, b: nat :| i <= count && PtrOf(bs, h, ifile, i, b).seg == v && PtrOf(bs, h, ifile, i, b).slot < s && Touch(bs, k, i, b);
    EntryZero(bs, h, ifile);
    if k == i {
      NoTableNoPointer(bs, h, Entry(bs, h, ifile, k), b);
    } else {
      TimesOrder(DIRECT_BLOCKS, DIRECT_BLOCKS, bs);
      BelowMax(bs, DIRECT_BLOCKS, MaxBlocks(bs), DIRECT_BLOCKS * bs);
      assert Ptr(bs, h, ifile, DIRECT_BLOCKS) != EMPTY;
      NoTableNoPointer(bs, h, ifile, DIRECT_BLOCKS);
    }
  }

  lemma NoTableNoPointer(bs: nat, h: Held, n: INode, b: nat)
    ensures b >= DIRECT_BLOCKS && n.indirect == EMPTY ==> Ptr(bs, h, n, b) == EMPTY
  {
    if n.indirect == EMPTY {
      BlankIndirects(bs, h, n);
    }
  }

  /** So whether slot s stops the cleaning was settled before it started. */
  lemma StopsThen(bs: nat, segment: Segment, h0: Held, if0: INode, h: Held, ifile: INode, count: nat, s: word)
    requires bs > 0 && TableOk(bs, h0, if0, count) && segment.number != UINT_MAX
    requires Tracked(bs, h0, if0, h, ifile, count, segment.number, s)
    ensures StopsNow(bs, segment, h, ifile, count, s) <==> StopsAt(bs, segment, h0, if0, count, s)
  {
    hide Entry, TableOk, TouchedBefore, PtrOf;
    if s < |segment.inums| && 0 <= segment.inums[s] <= count {
      var k: word := segment.inums[s];
      if TouchedBefore(bs, h0, if0, count, segment.number, k, s) {
        TouchedHas(bs, h0, if0, count, segment.number, k, s);
      }
      assert Followed(Entry(bs, h0, if0, k).indirect, Entry(bs, h, ifile, k).indirect,
                      TouchedBefore(bs, h0, if0, count, segment.number, k, s), segment.number);
    }
  }
}
