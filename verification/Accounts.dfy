/** What stays held for whom: every block given up is freed, but for indirect blocks and what lies behind a dropped one. */
module Accounts {
  import opened Words
  import opened INodes
  import opened LogModel
  import opened FileModel
  import opened InodeTable
  import opened FileViews

  /** A change for the files in s leaves what another file holds, and what it has lost, as it was. */
  lemma LostSame(bs: nat, h: Held, h': Held, n: INode, s: set<word>)
    requires OthersSame(h, h', s) && n.inum !in s && INodeOk(bs, h, n.inum, n)
    ensures LostData(bs, h', n) == LostData(bs, h, n)
    ensures KeepsOwned(h, h', n.inum) && KeepsOwned(h', h, n.inum)
    ensures Tables(h', n.inum) == Tables(h, n.inum) && OwnedBy(h', n.inum) == OwnedBy(h, n.inum)
  {
    hide Ptr, INodeOkBut;
    OwnersSame(h, h', n.inum, s);
    PtrsKept(bs, h, h', n.inum, n);
  }

  lemma OwnersSame(h: Held, h': Held, inum: word, s: set<word>)
    requires OthersSame(h, h', s) && inum !in s
    ensures KeepsOwned(h, h', inum) && KeepsOwned(h', h, inum) && OwnedBy(h', inum) == OwnedBy(h, inum)
  {
  }

  /** Two files change: one by t1 indirect blocks, the other by t2, and nothing else is held differently. */
  ghost predicate BothAccounted(bs: nat, h0: Held, n0: INode, m0: INode, h: Held, n: INode, m: INode, t1: nat, t2: nat) {
    Account(bs, h0, n0, h, n, t1) && Account(bs, h0, m0, h, m, t2) && OthersSame(h0, h, {n0.inum, m0.inum})
  }

  lemma AccountKept(bs: nat, h0: Held, n0: INode, h1: Held, h2: Held, n: INode, t: nat, s: set<word>)
    requires n.inum == n0.inum && Account(bs, h0, n0, h1, n, t) && OthersSame(h1, h2, s) && n.inum !in s && INodeOk(bs, h1, n.inum, n)
    ensures Account(bs, h0, n0, h2, n, t)
  {
    hide LostData, Tables, INodeOk, OthersSame;
    LostSame(bs, h1, h2, n, s);
  }

  lemma AccountLater(bs: nat, h0: Held, h1: Held, m0: INode, h2: Held, m: INode, t: nat, s: set<word>)
    requires m.inum == m0.inum && Account(bs, h1, m0, h2, m, t) && OthersSame(h0, h1, s) && m0.inum !in s && INodeOk(bs, h0, m0.inum, m0)
    ensures Account(bs, h0, m0, h2, m, t)
  {
    hide LostData, Tables, INodeOk, OthersSame;
    LostSame(bs, h0, h1, m0, s);
  }

  /** A file's blocks, then its record. */
  lemma AccountsInTurn(bs: nat, h0: Held, n0: INode, h1: Held, n: INode, t1: nat, m0: INode, h2: Held, m: INode, t2: nat)
    requires n.inum == n0.inum != m.inum == m0.inum && INodeOk(bs, h1, n.inum, n) && INodeOk(bs, h0, m0.inum, m0)
    requires Account(bs, h0, n0, h1, n, t1) && OthersSame(h0, h1, {n0.inum})
    requires Account(bs, h1, m0, h2, m, t2) && OthersSame(h1, h2, {m0.inum})
    ensures BothAccounted(bs, h0, n0, m0, h2, n, m, t1, t2)
  {
    hide LostData, Tables, INodeOk, Account;
    AccountKept(bs, h0, n0, h1, h2, n, t1, {m0.inum});
    AccountLater(bs, h0, h1, m0, h2, m, t2, {n0.inum});
  }

  /** Indirect blocks the table file needs for an update of record i. */
  function RecordTables(bs: nat, i: nat): nat
    requires bs > 0 && i >= 1
  {
    TablesIn(bs, (i - 1) * INODE_BYTES, INODE_BYTES)
  }

  /** One indirect block for each block behind the direct ones that the record touches: none exactly if it touches none. */
  lemma RecordTablesAre(bs: nat, i: nat)
    requires bs > 0 && i >= 1 && Fits(bs, i)
    ensures RecordTables(bs, i) == 0 <==> i * INODE_BYTES <= DIRECT_BLOCKS * bs
  {
    var offset := (i - 1) * INODE_BYTES;
    var first, last := StartBlock(bs, offset), LastBlock(bs, offset, INODE_BYTES);
    LastBlockEnds(bs, offset, INODE_BYTES);
    hide LastBlock, StartBlock, MaxBlocks;
    if last >= DIRECT_BLOCKS {
      TimesOrder(DIRECT_BLOCKS, last, bs);
    } else {
      TimesOrder(last + 1, DIRECT_BLOCKS, bs);
    }
    BelowMax(bs, last, MaxBlocks(bs), offset + INODE_BYTES - 1);
    assert MaxBlocks(bs) >= DIRECT_BLOCKS by { MaxAtLeast(bs); }
  }

  lemma MaxAtLeast(bs: nat)
    ensures MaxBlocks(bs) >= DIRECT_BLOCKS
  {
  }

  lemma TimesOrder(a: nat, b: nat, n: nat)
    requires a <= b
    ensures a * n <= b * n && (a + 1) * n == a * n + n && (b + 1) * n == b * n + n
  {
  }

  /** The books over all inodes after file `inum` was written with t indirect blocks: nobody has lost a data block more. */
  ghost predicate Booked(bs: nat, h: Held, ifile: INode, h': Held, ifile': INode, count: nat, inum: word, t: nat)
    requires bs > 0 && inum >= 1
  {
    forall i: word :: i <= count ==>
      && LostData(bs, h', Entry(bs, h', ifile', i)) == LostData(bs, h, Entry(bs, h, ifile, i))
      && |Tables(h', i)| == |Tables(h, i)| + if i == inum then t else if i == IFILE_INUM then RecordTables(bs, inum) else 0
  }

  lemma WriteBooked(bs: nat, h: Held, ifile: INode, h': Held, ifile': INode, count: nat, inum: word, t: nat)
    requires TableOk(bs, h, ifile, count) && 1 <= inum <= count
    requires EntryUpdated(bs, h, ifile, h', ifile', count, inum, Entry(bs, h', ifile', inum))
    requires BothAccounted(bs, h, Entry(bs, h, ifile, inum), ifile, h', Entry(bs, h', ifile', inum), ifile', t, RecordTables(bs, inum))
    ensures Booked(bs, h, ifile, h', ifile', count, inum, t)
  {
    hide Entry, LostData, Tables, INodeOk, IFileOk, NoHoles, OthersSame, RecordTables;
    KnownEntry(bs, h, ifile, count, inum);
    KnownEntry(bs, h, ifile, count, IFILE_INUM);
    EntryZero(bs, h, ifile);
    EntryZero(bs, h', ifile');
    forall i: word | i <= count
      ensures LostData(bs, h', Entry(bs, h', ifile', i)) == LostData(bs, h, Entry(bs, h, ifile, i))
      ensures |Tables(h', i)| == |Tables(h, i)| + if i == inum then t else if i == IFILE_INUM then RecordTables(bs, inum) else 0
    {
      if i != inum && i != IFILE_INUM {
        KnownEntry(bs, h, ifile, count, i);
        LostSame(bs, h, h', Entry(bs, h, ifile, i), {inum, IFILE_INUM});
      }
    }
  }

  // ---- Giving a file up ------------------------------------------------------------------------

  /** Data blocks behind a file's indirect block. */
  ghost function Behind(bs: nat, h: Held, n: INode): set<Addr> {
    set b: nat | DIRECT_BLOCKS <= b < MaxBlocks(bs) && Ptr(bs, h, n, b) != EMPTY :: Ptr(bs, h, n, b)
  }

  /** After its own pointers are freed, nothing stays held for a file exactly if it never outgrew its direct blocks. */
  lemma NothingLeft(bs: nat, h: Held, n: INode)
    requires INodeOk(bs, h, n.inum, n) && EMPTY !in h
    ensures OwnedBy(h - OwnPointers(n), n.inum) == OwnedBy(h, n.inum) - OwnPointers(n)
    ensures OwnedBy(h - OwnPointers(n), n.inum) == {} <==>
              LostData(bs, h, n) == {} && Tables(h, n.inum) <= {n.indirect} && Behind(bs, h, n) == {}
  {
    var left := OwnedBy(h, n.inum) - OwnPointers(n);
    assert OwnedBy(h - OwnPointers(n), n.inum) == left;
    forall b: nat | b < MaxBlocks(bs)
      ensures Points(bs, h, n.inum, b, Ptr(bs, h, n, b))
    {
    }
    DirectPointers(bs, h, n);
    hide Ptr, INodeOkBut;
    if left == {} {
      forall a | a in OwnedBy(h, n.inum)
        ensures a in OwnPointers(n)
      {
        assert a !in left;
      }
      LeftNone(bs, h, n);
    } else {
      var a :| a in left;
      LeftOne(bs, h, n, a);
    }
  }

  lemma DirectPointers(bs: nat, h: Held, n: INode)
    ensures forall b: nat :: b < DIRECT_BLOCKS ==> Ptr(bs, h, n, b) == n.direct[b]
  {
  }

  lemma LeftNone(bs: nat, h: Held, n: INode)
    requires INodeOk(bs, h, n.inum, n) && EMPTY !in h && OwnedBy(h, n.inum) <= OwnPointers(n)
    ensures LostData(bs, h, n) == {} && Tables(h, n.inum) <= {n.indirect} && Behind(bs, h, n) == {}
  {
    hide Indirects;
    DirectPointers(bs, h, n);
    hide Ptr;
    forall b: nat | b < MaxBlocks(bs)
      ensures Points(bs, h, n.inum, b, Ptr(bs, h, n, b))
    {
    }
    forall a | a in OwnedBy(h, n.inum)
      ensures if a == n.indirect then h[a].role == Indirect
              else h[a].role.Data? && h[a].role.b < DIRECT_BLOCKS && Ptr(bs, h, n, h[a].role.b) == a
    {
      if a != n.indirect {
        assert a in n.direct + [n.indirect];
        var b: nat :| b < DIRECT_BLOCKS && a == n.direct[b];
        assert Points(bs, h, n.inum, b, Ptr(bs, h, n, b));
      }
    }
    forall b: nat | DIRECT_BLOCKS <= b < MaxBlocks(bs)
      ensures Ptr(bs, h, n, b) == EMPTY
    {
      var a := Ptr(bs, h, n, b);
      assert a != EMPTY ==> a in OwnedBy(h, n.inum);
    }
  }

  lemma LeftOne(bs: nat, h: Held, n: INode, a: Addr)
    requires INodeOk(bs, h, n.inum, n) && EMPTY !in h && a in OwnedBy(h, n.inum) && a !in OwnPointers(n)
    ensures LostData(bs, h, n) != {} || !(Tables(h, n.inum) <= {n.indirect}) || Behind(bs, h, n) != {}
  {
    hide Indirects;
    DirectPointers(bs, h, n);
    hide Ptr;
    match h[a].role {
      case Indirect => assert a in Tables(h, n.inum);
      case Data(b) =>
        if Ptr(bs, h, n, b) == a {
          assert b >= DIRECT_BLOCKS;
          assert b < MaxBlocks(bs) && a != EMPTY ==> a in Behind(bs, h, n);
          PastEnd(bs, h, n, b);
        } else {
          assert a in LostData(bs, h, n);
        }
    }
  }

  lemma PastEnd(bs: nat, h: Held, n: INode, b: nat)
    ensures b >= MaxBlocks(bs) ==> Ptr(bs, h, n, b) == EMPTY
  {
  }

  /** File_Free: what the file's own pointers named goes, and nothing of anyone else. */
  lemma OwnedAfterFree(bs: nat, h0: Held, n: INode, h1: Held, h2: Held)
    requires INodeOk(bs, h0, n.inum, n) && h1 == h0 - OwnPointers(n) && OthersSame(h0, h1, {n.inum}) && n.inum != IFILE_INUM
    requires OthersSame(h1, h2, {IFILE_INUM})
    ensures forall i: word :: 1 <= i ==> OwnedBy(h2, i) == OwnedBy(h0, i) - if i == n.inum then OwnPointers(n) else {}
  {
    hide OwnedBy, OthersSame, OwnPointers;
    forall i: word | 1 <= i
      ensures OwnedBy(h2, i) == OwnedBy(h0, i) - if i == n.inum then OwnPointers(n) else {}
    {
      OwnersSame(h1, h2, i, {IFILE_INUM});
      if i == n.inum {
        OwnedMinus(h0, OwnPointers(n), i);
      } else {
        OwnersSame(h0, h1, i, {n.inum});
      }
    }
  }

  /** A change for the table file alone. */
  lemma OwnedElsewhere(h: Held, h': Held)
    requires OthersSame(h, h', {IFILE_INUM})
    ensures forall i: word :: 1 <= i ==> OwnedBy(h', i) == OwnedBy(h, i)
  {
    hide OwnedBy, OthersSame;
    forall i: word | 1 <= i
      ensures OwnedBy(h', i) == OwnedBy(h, i)
    {
      OwnersSame(h, h', i, {IFILE_INUM});
    }
  }

  lemma SamePointers(n: INode, n': INode)
    requires n'.direct == n.direct && n'.indirect == n.indirect
    ensures OwnPointers(n') == OwnPointers(n)
  {
  }

  lemma OwnedMinus(h: Held, s: set<Addr>, i: word)
    ensures OwnedBy(h - s, i) == OwnedBy(h, i) - s
  {
  }

  /** File_Truncate gives up every data block; those behind the indirect block are lost. */
  lemma LostAfterCut(bs: nat, h0: Held, n: INode, h1: Held, empty: INode, h2: Held)
    requires INodeOk(bs, h0, n.inum, n) && EMPTY !in h0 && h1 == h0 - OwnPointers(n) && n.inum != IFILE_INUM
    requires empty.inum == n.inum && empty.direct == NoBlocks() && empty.indirect == EMPTY && OthersSame(h1, h2, {IFILE_INUM})
    ensures LostData(bs, h2, empty) == LostData(bs, h0, n) + Behind(bs, h0, n)
  {
    hide INodeOk, OthersSame, Ptr, OwnPointers, Behind;
    NoPointers(bs, h1, empty);
    NoPointers(bs, h2, empty);
    OwnersSame(h1, h2, n.inum, {IFILE_INUM});
    forall a | a in h1 && h1[a].inum == n.inum && h1[a].role.Data?
      ensures a in LostData(bs, h0, n) + Behind(bs, h0, n)
    {
      CutBlock(bs, h0, n, a);
    }
    forall a | a in LostData(bs, h0, n) + Behind(bs, h0, n)
      ensures a in h1 && h1[a].inum == n.inum && h1[a].role.Data?
    {
      CutBlock(bs, h0, n, a);
    }
  }

  lemma NoPointers(bs: nat, h: Held, n: INode)
    requires n.direct == NoBlocks() && n.indirect == EMPTY
    ensures forall b: nat :: Ptr(bs, h, n, b) == EMPTY
  {
    BlankIndirects(bs, h, n);
  }

  /** A data block of the file: its own pointer, one behind the indirect block, or one lost before. */
  lemma CutBlock(bs: nat, h: Held, n: INode, a: Addr)
    requires INodeOk(bs, h, n.inum, n) && EMPTY !in h
    ensures a in LostData(bs, h, n) + Behind(bs, h, n) <==>
              a in h && h[a].inum == n.inum && h[a].role.Data? && a !in OwnPointers(n)
  {
    hide Indirects;
    DirectPointers(bs, h, n);
    hide Ptr;
    forall b: nat
      ensures b < MaxBlocks(bs) ==> Points(bs, h, n.inum, b, Ptr(bs, h, n, b))
      ensures b >= MaxBlocks(bs) ==> Ptr(bs, h, n, b) == EMPTY
    {
      PastEnd(bs, h, n, b);
    }
    MaxAtLeast(bs);
    if a in OwnPointers(n) && a != n.indirect {
      assert a in n.direct + [n.indirect];
      var b: nat :| b < DIRECT_BLOCKS && a == n.direct[b];
      assert a == Ptr(bs, h, n, b);
    }
    if a in h && h[a].inum == n.inum && h[a].role.Data? && Ptr(bs, h, n, h[a].role.b) == a {
      assert h[a].role.b < DIRECT_BLOCKS ==> a == n.direct[h[a].role.b];
    }
  }
}
