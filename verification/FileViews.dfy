/** The file layer seen from outside: one byte array with its attributes per inum. */
module FileViews {
  import opened Words
  import opened Segments
  import opened INodes
  import opened LogModel
  import opened FileModel
  import opened InodeTable

  datatype FileView = FileView(inUse: bool, fileType: FileType, nlinks: word, contents: seq<byte>)

  ghost function ViewOf(bs: nat, h: Held, n: INode): FileView
    requires bs > 0
  {
    FileView(n.inUse, n.fileType, n.nlinks, Contents(bs, h, n))
  }

  /** Inum i is at index i - 1; the table file itself has no view. */
  ghost function Views(bs: nat, h: Held, ifile: INode, count: nat): (v: seq<FileView>)
    requires bs > 0
    ensures |v| == count
  {
    seq(count, i requires 0 <= i < count => ViewOf(bs, h, Entry(bs, h, ifile, i + 1)))
  }

  lemma ViewAt(bs: nat, h: Held, ifile: INode, count: nat, i: nat)
    requires bs > 0 && 1 <= i <= count
    ensures Views(bs, h, ifile, count)[i - 1] == ViewOf(bs, h, Entry(bs, h, ifile, i))
  {
  }

  lemma ViewKept(bs: nat, h: Held, h': Held, i: word, n: INode)
    requires bs > 0 && EntryOk(bs, h, i, n) && KeepsOwned(h, h', i)
    ensures EntryOk(bs, h', i, n) && ViewOf(bs, h', n) == ViewOf(bs, h, n)
  {
    hide INodeOk, Contents, NoHoles;
    FileKept(bs, h, h', i, n);
  }

  /** Record i replaced and no other file's blocks touched: exactly one view changes. */
  lemma OneViewChanges(bs: nat, h: Held, ifile: INode, h': Held, ifile': INode, count: nat, i: word, n: INode)
    requires TableOk(bs, h, ifile, count) && 1 <= i <= count + 1
    requires IFileOk(bs, h', ifile', if i > count then i else count) && EntryUpdated(bs, h, ifile, h', ifile', count, i, n)
    requires EntryOk(bs, h', i, n)
    requires forall j: word :: 1 <= j <= count && j != i ==> KeepsOwned(h, h', j)
    ensures TableOk(bs, h', ifile', if i > count then i else count)
    ensures Views(bs, h', ifile', if i > count then i else count)
              == if i > count then Views(bs, h, ifile, count) + [ViewOf(bs, h', n)]
                 else Views(bs, h, ifile, count)[i - 1 := ViewOf(bs, h', n)]
  {
    hide IFileOk, EntryOk, ViewOf, KeepsOwned, Entry;
    var count' := if i > count then i else count;
    forall j: word | 1 <= j <= count'
      ensures EntryOk(bs, h', j, Entry(bs, h', ifile', j))
      ensures ViewOf(bs, h', Entry(bs, h', ifile', j))
                == if j == i then ViewOf(bs, h', n) else ViewOf(bs, h, Entry(bs, h, ifile, j))
    {
      if j != i {
        ViewKept(bs, h, h', j, Entry(bs, h, ifile, j));
      }
    }
    forall k | 0 <= k < count'
      ensures Views(bs, h', ifile', count')[k]
                == if k == i - 1 then ViewOf(bs, h', n) else Views(bs, h, ifile, count)[k]
    {
      WordIndex(bs, h', ifile', count');
      var j: word := k + 1;
      assert Views(bs, h', ifile', count')[k] == ViewOf(bs, h', Entry(bs, h', ifile', j));
    }
  }

  lemma WordIndex(bs: nat, h: Held, ifile: INode, count: nat)
    requires IFileOk(bs, h, ifile, count)
    ensures count < 0x1_0000_0000
  {
  }

  lemma OwnersKept(bs: nat, h0: Held, inum: word, n0: INode, ifile: INode, t0: word,
                   h: Held, n: INode, ifile': INode, t: word)
    requires SparedByBoth(bs, h0, inum, n0, IFILE_INUM, ifile, t0, h, n, ifile', t)
    ensures forall j: word :: 1 <= j && j != inum ==> KeepsOwned(h0, h, j)
  {
  }

  /** A whole File_Write on an ordinary file: its contents are spliced, nothing else is seen to change. */
  lemma WriteSeen(bs: nat, h0: Held, ifile: INode, count: nat, inum: word, t0: word, h: Held, ifile': INode, t: word,
                  offset: nat, buffer: seq<byte>)
    requires TableOk(bs, h0, ifile, count) && 1 <= inum <= count && IFileOk(bs, h, ifile', count)
    requires var n0, n := Entry(bs, h0, ifile, inum), Entry(bs, h, ifile', inum);
             && FileWritten(bs, h0, n0, h, n, offset, buffer)
             && EntryUpdated(bs, h0, ifile, h, ifile', count, inum, n)
             && SparedByBoth(bs, h0, inum, n0, IFILE_INUM, ifile, t0, h, n, ifile', t)
    ensures TableOk(bs, h, ifile', count)
    ensures var v := Views(bs, h0, ifile, count);
            && offset <= |v[inum - 1].contents|
            && Views(bs, h, ifile', count) == v[inum - 1 :=
                 v[inum - 1].(contents := Clamped(bs, Written(v[inum - 1].contents, offset, buffer)))]
  {
    hide IFileOk, Entry, INodeOk, NoHoles, Contents, EntryUpdated, KeepsOwned, SparedByBoth, Clamped, Written, Views;
    var n0, n := Entry(bs, h0, ifile, inum), Entry(bs, h, ifile', inum);
    ViewAt(bs, h0, ifile, count, inum);
    OwnersKept(bs, h0, inum, n0, ifile, t0, h, n, ifile', t);
    KnownInum(bs, h0, inum, n0);
    OneViewChanges(bs, h0, ifile, h, ifile', count, inum, n);
  }

  /** UpdateIFile after changes that left every other file's blocks alone. */
  lemma UpdateSeen(bs: nat, h: Held, ifile: INode, count: nat, h1: Held, t1: word, i: word, n: INode, h2: Held, ifile': INode, t2: word)
    requires TableOk(bs, h, ifile, count) && 1 <= i <= count + 1
    requires forall j: word :: j != i ==> KeepsOwned(h, h1, j)
    requires EntryOk(bs, h1, i, n)
    requires IFileOk(bs, h2, ifile', if i > count then i else count) && EntryUpdated(bs, h1, ifile, h2, ifile', count, i, n)
    requires SparedKept(bs, h1, IFILE_INUM, ifile, t1, h2, ifile', t2)
    ensures TableOk(bs, h2, ifile', if i > count then i else count)
    ensures ViewOf(bs, h2, n) == ViewOf(bs, h1, n)
    ensures Views(bs, h2, ifile', if i > count then i else count)
              == if i > count then Views(bs, h, ifile, count) + [ViewOf(bs, h1, n)]
                 else Views(bs, h, ifile, count)[i - 1 := ViewOf(bs, h1, n)]
  {
    hide IFileOk, Entry, INodeOk, NoHoles, ViewOf, KeepsOwned, SparedKept, Views, EntryOk;
    TableFileKept(bs, h, h1, ifile, count);
    OtherThanTable(bs, h1, ifile, t1, h2, ifile', t2);
    ViewKept(bs, h1, h2, i, n);
    forall j: word | 1 <= j <= count && j != i
      ensures KeepsOwned(h, h2, j)
    {
      KeepsChain(h, h1, h2, j);
    }
    OneViewChanges(bs, h, ifile, h2, ifile', count, i, n);
  }

  lemma KeepsChain(h: Held, h1: Held, h2: Held, j: word)
    requires KeepsOwned(h, h1, j) && KeepsOwned(h1, h2, j)
    ensures KeepsOwned(h, h2, j)
  {
  }

  lemma OtherThanTable(bs: nat, h: Held, ifile: INode, t: word, h': Held, ifile': INode, t': word)
    requires SparedKept(bs, h, IFILE_INUM, ifile, t, h', ifile', t')
    ensures forall j: word :: j >= 1 ==> KeepsOwned(h, h', j)
  {
  }

  /** An inode without blocks reads as zeros. */
  lemma EmptyFile(bs: nat, h: Held, n: INode)
    requires bs > 0 && n.direct == NoBlocks() && n.indirect == EMPTY
    ensures INodeOk(bs, h, n.inum, n) && Contents(bs, h, n) == Zeros(n.fileSize)
    ensures n.fileSize == 0 ==> NoHoles(bs, h, n)
  {
    hide Indirects, ByteAt;
    BlankIndirects(bs, h, n);
    assert forall b: nat :: Ptr(bs, h, n, b) == EMPTY;
    forall k | 0 <= k < n.fileSize
      ensures ByteAt(bs, h, n, k) == 0
    {
      BlankByte(bs, h, n, k);
    }
    if n.fileSize == 0 {
      NothingBelowZero(bs);
    }
  }

  lemma BlankByte(bs: nat, h: Held, n: INode, k: nat)
    requires bs > 0 && forall b: nat :: Ptr(bs, h, n, b) == EMPTY
    ensures ByteAt(bs, h, n, k) == 0
  {
  }

  lemma NothingBelowZero(bs: nat)
    ensures forall b: nat :: b * bs >= 0
  {
  }

  lemma BlankIndirects(bs: nat, h: Held, n: INode)
    requires n.indirect == EMPTY
    ensures Indirects(bs, h, n) == NoAddrs(bs)
  {
  }

  /** Truncation as callers see it: cut, or filled up with zeros. */
  function Truncated(c: seq<byte>, size: nat): (c': seq<byte>)
    ensures |c'| == size && forall k :: 0 <= k < size ==> c'[k] == if k < |c| then c[k] else 0
  {
    if size <= |c| then c[..size] else c + Zeros(size - |c|)
  }

  /** Attributes other than size and pointers do not matter to ownership or contents. */
  lemma Relabelled(bs: nat, h: Held, inum: word, n: INode, n': INode)
    requires bs > 0 && EntryOk(bs, h, inum, n)
    requires n' == n.(nlinks := n'.nlinks)
    ensures EntryOk(bs, h, inum, n') && Contents(bs, h, n') == Contents(bs, h, n)
  {
    assert Indirects(bs, h, n') == Indirects(bs, h, n);
    assert forall b: nat :: Ptr(bs, h, n', b) == Ptr(bs, h, n, b);
    assert forall b: nat :: FileBlock(bs, h, n', b) == FileBlock(bs, h, n, b);
  }

  lemma KnownEntry(bs: nat, h: Held, ifile: INode, count: nat, inum: word)
    requires TableOk(bs, h, ifile, count) && inum <= count
    ensures bs > 0 && INodeOk(bs, h, inum, Entry(bs, h, ifile, inum)) && Entry(bs, h, ifile, inum).inum == inum
    ensures inum >= 1 ==> EntryOk(bs, h, inum, Entry(bs, h, ifile, inum))
    ensures inum >= 1 ==> Views(bs, h, ifile, count)[inum - 1] == ViewOf(bs, h, Entry(bs, h, ifile, inum))
  {
    hide ViewOf, NoHoles;
    EntryZero(bs, h, ifile);
  }

  lemma KeepsItself(h: Held)
    ensures forall j: word :: KeepsOwned(h, h, j)
  {
  }

  /** Writing the kept bytes to an emptied file is the truncation. */
  lemma TruncatedIs(bs: nat, c: seq<byte>, buffer: seq<byte>, size: nat)
    requires c == []
    ensures Written(c, 0, Truncated(buffer, size)) == Truncated(buffer, size)
    ensures size == 0 ==> Truncated(buffer, size) == [] && Clamped(bs, Truncated(buffer, size)) == []
  {
  }

  predicate AllInUse(v: seq<FileView>, n: nat) {
    n <= |v| && forall k :: 0 <= k < n ==> v[k].inUse
  }
}
