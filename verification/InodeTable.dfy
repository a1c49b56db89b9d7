/** The inode table: an array of records kept as the bytes of a file that lives in the log itself. */
module InodeTable {
  import opened Words
  import opened INodes
  import opened LogModel
  import opened FileModel

  /** Record i of the table's bytes, counting from 1. */
  function Record(c: seq<byte>, i: nat): INode
    requires 1 <= i && i * INODE_BYTES <= |c|
  {
    DecodeINode(c[(i - 1) * INODE_BYTES..i * INODE_BYTES])
  }

  /** The inode of inum i: the table's own for 0, a record of the table otherwise. */
  function Entry(bs: nat, h: Held, ifile: INode, i: nat): INode
    requires bs > 0
  {
    if 1 <= i && i * INODE_BYTES <= ifile.fileSize then Record(Contents(bs, h, ifile), i) else ifile
  }

  /** The table file is whole: as many bytes as records, none missing, no more than a file can hold. */
  ghost predicate IFileOk(bs: nat, h: Held, ifile: INode, count: nat) {
    && bs > 0
    && INodeOk(bs, h, IFILE_INUM, ifile)
    && ifile.inUse && ifile.fileType == File && ifile.fileSize == count * INODE_BYTES
    && NoHoles(bs, h, ifile)
    && ifile.fileSize <= MaxBlocks(bs) * bs
  }

  ghost predicate EntryOk(bs: nat, h: Held, i: word, n: INode) {
    INodeOk(bs, h, i, n) && (n.inUse ==> NoHoles(bs, h, n))
  }

  /** Every record is the inode of its position and owns what it points to. */
  ghost predicate TableOk(bs: nat, h: Held, ifile: INode, count: nat) {
    && IFileOk(bs, h, ifile, count)
    && forall i: word :: 1 <= i <= count ==> EntryOk(bs, h, i, Entry(bs, h, ifile, i))
  }

  /** Writing record i of an array of records: record i is the new one, every other record is untouched, straddling or not. */
  lemma RecordWritten(c: seq<byte>, i: nat, n: INode)
    requires 1 <= i && (i - 1) * INODE_BYTES <= |c| && |c| % INODE_BYTES == 0
    ensures var c' := Written(c, (i - 1) * INODE_BYTES, EncodeINode(n));
            && i * INODE_BYTES <= |c'|
            && |c'| == (if i * INODE_BYTES > |c| then i * INODE_BYTES else |c|)
            && Record(c', i) == n
            && forall j: nat :: 1 <= j && j != i && j * INODE_BYTES <= |c| ==> Record(c', j) == Record(c, j)
  {
    hide EncodeINode, DecodeINode;
    var at := (i - 1) * INODE_BYTES;
    var c' := Written(c, at, EncodeINode(n));
    assert c'[at..i * INODE_BYTES] == EncodeINode(n);
    INodeRoundTrip(n);
    forall j: nat | 1 <= j && j != i && j * INODE_BYTES <= |c|
      ensures Record(c', j) == Record(c, j)
    {
      assert c'[(j - 1) * INODE_BYTES..j * INODE_BYTES] == c[(j - 1) * INODE_BYTES..j * INODE_BYTES];
    }
  }

  /** A change that leaves the table file's blocks alone leaves every record alone. */
  lemma TableFileKept(bs: nat, h: Held, h': Held, ifile: INode, count: nat)
    requires IFileOk(bs, h, ifile, count) && KeepsOwned(h, h', IFILE_INUM)
    ensures IFileOk(bs, h', ifile, count)
    ensures Contents(bs, h', ifile) == Contents(bs, h, ifile)
    ensures forall i: nat :: Entry(bs, h', ifile, i) == Entry(bs, h, ifile, i)
  {
    FileKept(bs, h, h', IFILE_INUM, ifile);
  }

  /** After an update of record i the table holds the new inode there and the old ones elsewhere. */
  ghost predicate EntryUpdated(bs: nat, h: Held, ifile: INode, h': Held, ifile': INode, count: nat, i: nat, n: INode) {
    && bs > 0
    && Entry(bs, h', ifile', i) == n
    && forall j: nat :: 1 <= j <= count && j != i ==> Entry(bs, h', ifile', j) == Entry(bs, h, ifile, j)
  }

  lemma EntryWritten(bs: nat, h: Held, ifile: INode, h': Held, ifile': INode, count: nat, i: nat, n: INode)
    requires IFileOk(bs, h, ifile, count) && bs > 0 && 1 <= i <= count + 1
    requires i * INODE_BYTES <= MaxBlocks(bs) * bs
    requires Contents(bs, h', ifile') == Clamped(bs, Written(Contents(bs, h, ifile), (i - 1) * INODE_BYTES, EncodeINode(n)))
    ensures EntryUpdated(bs, h, ifile, h', ifile', count, i, n)
    ensures ifile'.fileSize == (if i > count then i else count) * INODE_BYTES
  {
    hide Record, MaxBlocks, EncodeINode;
    var c := Contents(bs, h, ifile);
    hide Contents;
    RecordWritten(c, i, n);
  }

  lemma EntryZero(bs: nat, h: Held, ifile: INode)
    requires bs > 0
    ensures Entry(bs, h, ifile, 0) == ifile
  {
  }

  lemma KnownInum(bs: nat, h: Held, inum: word, n: INode)
    requires INodeOk(bs, h, inum, n)
    ensures n.inum == inum
  {
  }

  /** Record inum lies within what a file can hold. */
  predicate Fits(bs: nat, inum: nat) {
    inum * INODE_BYTES <= MaxBlocks(bs) * bs && inum * INODE_BYTES < 0x1_0000_0000
  }

  lemma FitsFacts(bs: nat, inum: nat)
    requires Fits(bs, inum) && inum >= 1
    ensures (inum - 1) * INODE_BYTES + INODE_BYTES < 0x1_0000_0000
  {
  }

  lemma IFileFacts(bs: nat, h: Held, ifile: INode, count: nat)
    requires IFileOk(bs, h, ifile, count)
    ensures INodeOk(bs, h, IFILE_INUM, Entry(bs, h, ifile, IFILE_INUM)) && Entry(bs, h, ifile, IFILE_INUM) == ifile
    ensures ifile.inUse && ifile.fileType == File && ifile.fileSize == count * INODE_BYTES
  {
  }

  lemma TableInum(bs: nat, h: Held, ifile: INode, count: nat)
    requires IFileOk(bs, h, ifile, count)
    ensures ifile.inum == IFILE_INUM
  {
  }

  lemma FitsBelow(bs: nat, h: Held, ifile: INode, count: nat, inum: nat)
    requires IFileOk(bs, h, ifile, count) && inum <= count
    ensures Fits(bs, inum)
  {
  }

  /** A File_Write of one record to the table file is an update of the array of records. */
  lemma TableWritten(bs: nat, h: Held, ifile: INode, h': Held, ifile': INode, count: nat, i: nat, n: INode)
    requires IFileOk(bs, h, ifile, count) && 1 <= i <= count + 1 && Fits(bs, i)
    requires FileWritten(bs, h, ifile, h', ifile', (i - 1) * INODE_BYTES, EncodeINode(n))
    ensures IFileOk(bs, h', ifile', if i > count then i else count)
    ensures EntryUpdated(bs, h, ifile, h', ifile', count, i, n)
  {
    hide INodeOk, Contents, EncodeINode, MaxBlocks, NoHoles, EntryUpdated, Clamped, Written;
    KnownInum(bs, h, IFILE_INUM, ifile);
    EntryWritten(bs, h, ifile, h', ifile', count, i, n);
  }

  lemma WrittenInum(bs: nat, h0: Held, n0: INode, h: Held, n: INode, offset: nat, buffer: seq<byte>)
    requires FileWritten(bs, h0, n0, h, n, offset, buffer)
    ensures n.inum == n0.inum && INodeOk(bs, h, n0.inum, n)
  {
  }

  /** Writing another file leaves the table file readable and its records in place. */
  lemma TableSpared(bs: nat, h0: Held, ifile: INode, count: nat, inum: word, n0: INode, t0: word, h1: Held, n: INode, t1: word)
    requires IFileOk(bs, h0, ifile, count) && SparedKept(bs, h0, inum, n0, t0, h1, n, t1)
    ensures inum != IFILE_INUM ==> KeepsOwned(h0, h1, IFILE_INUM) && IFileOk(bs, h1, ifile, count)
    ensures inum != IFILE_INUM ==> forall i: nat :: Entry(bs, h1, ifile, i) == Entry(bs, h0, ifile, i)
    ensures forall i: nat :: i <= count ==> Fits(bs, i)
  {
    hide Entry, IFileOk;
    if inum != IFILE_INUM {
      OthersKept(bs, h0, inum, n0, t0, h1, n, t1, IFILE_INUM);
      TableFileKept(bs, h0, h1, ifile, count);
    }
    forall i: nat | i <= count
      ensures Fits(bs, i)
    {
      FitsBelow(bs, h0, ifile, count, i);
    }
  }

  lemma UpdatedEntry(bs: nat, h: Held, ifile: INode, h': Held, ifile': INode, count: nat, i: nat, n: INode)
    requires EntryUpdated(bs, h, ifile, h', ifile', count, i, n)
    ensures Entry(bs, h', ifile', i) == n
  {
  }

  /** File inum's blocks, then its record: both writes together. */
  lemma TwoWrites(bs: nat, h0: Held, ifile: INode, count: nat, inum: word, n0: INode, t0: word,
                  h1: Held, n: INode, t1: word, h2: Held, ifile': INode, t2: word, offset: nat, buffer: seq<byte>)
    requires inum != IFILE_INUM && n0.inum == inum && IFileOk(bs, h0, ifile, count) && EMPTY !in h0 && EMPTY !in h1
    requires FileWritten(bs, h0, n0, h1, n, offset, buffer) && SparedKept(bs, h0, inum, n0, t0, h1, n, t1)
    requires EntryUpdated(bs, h1, ifile, h2, ifile', count, inum, n) && SparedKept(bs, h1, IFILE_INUM, ifile, t1, h2, ifile', t2)
    ensures FileWritten(bs, h0, n0, h2, n, offset, buffer)
    ensures EntryUpdated(bs, h0, ifile, h2, ifile', count, inum, n)
    ensures SparedByBoth(bs, h0, inum, n0, IFILE_INUM, ifile, t0, h2, n, ifile', t2)
  {
    hide FileWritten, SparedKept, Entry, KeepsOwned, INodeOk;
    WrittenInum(bs, h0, n0, h1, n, offset, buffer);
    IFileFacts(bs, h0, ifile, count);
    SparedInTurn(bs, h0, inum, n0, t0, h1, n, t1, IFILE_INUM, ifile, h2, ifile', t2);
    TableFileKept(bs, h0, h1, ifile, count);
    FileWrittenKept(bs, h0, n0, h1, h2, n, offset, buffer);
  }
}
