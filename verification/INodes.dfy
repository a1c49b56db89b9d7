/** Log addresses, inodes and their fixed-size encodings. */
module INodes {
  import opened Words

  datatype Addr = Addr(seg: word, slot: word)

  const EMPTY: Addr := Addr(UINT_MAX, UINT_MAX)
  const IFILE_INUM: word := 0
  const ROOT_INUM: word := 1
  const DIRECT_BLOCKS: nat := 4

  datatype FileType = File | Directory | Symlink

  /** The inode record without owner, permission and time fields. */
  datatype INodeRecord = INode(
    inUse: bool,
    inum: word,
    fileType: FileType,
    fileSize: word,
    nlinks: word,
    direct: seq<Addr>,
    indirect: Addr)

  type INode = n: INodeRecord | |n.direct| == DIRECT_BLOCKS
    witness INode(false, 0, File, 0, 0, [EMPTY, EMPTY, EMPTY, EMPTY], EMPTY)

  const INODE_WORDS: nat := 15
  const INODE_BYTES: nat := 60

  function NoBlocks(): (d: seq<Addr>)
    ensures |d| == DIRECT_BLOCKS
  {
    [EMPTY, EMPTY, EMPTY, EMPTY]
  }

  function AddrWords(addrs: seq<Addr>): (ws: seq<word>)
    ensures |ws| == 2 * |addrs|
  {
    seq(2 * |addrs|, k requires 0 <= k < 2 * |addrs| => if k % 2 == 0 then addrs[k / 2].seg else addrs[k / 2].slot)
  }

  function WordAddrs(ws: seq<word>): (addrs: seq<Addr>)
    ensures |addrs| == |ws| / 2
  {
    seq(|ws| / 2, i requires 0 <= i < |ws| / 2 => Addr(ws[2 * i], ws[2 * i + 1]))
  }

  lemma WordAddrsRoundTrip(addrs: seq<Addr>)
    ensures WordAddrs(AddrWords(addrs)) == addrs
  {
  }

  /** An indirect block: as many addresses as fit. */
  function EncodeAddrs(addrs: seq<Addr>): (bytes: seq<byte>)
    ensures |bytes| == 8 * |addrs|
  {
    EncodeWords(AddrWords(addrs))
  }

  function DecodeAddrs(bytes: seq<byte>): (addrs: seq<Addr>)
    ensures |addrs| == |bytes| / 8
  {
    WordAddrs(DecodeWords(bytes))
  }

  lemma AddrsRoundTrip(addrs: seq<Addr>)
    ensures DecodeAddrs(EncodeAddrs(addrs)) == addrs
  {
    DecodeEncodeExact(AddrWords(addrs));
    WordAddrsRoundTrip(addrs);
  }

  function TypeWord(t: FileType): word {
    match t case File => 0 case Directory => 1 case Symlink => 2
  }

  function WordType(w: word): FileType {
    if w == 0 then File else if w == 1 then Directory else Symlink
  }

  function INodeWords(n: INode): (ws: seq<word>)
    ensures |ws| == INODE_WORDS
  {
    [if n.inUse then 1 else 0, n.inum, TypeWord(n.fileType), n.fileSize, n.nlinks] + AddrWords(n.direct + [n.indirect])
  }

  function WordsINode(ws: seq<word>): INode
    requires |ws| == INODE_WORDS
  {
    var addrs := WordAddrs(ws[5..]);
    INode(ws[0] != 0, ws[1], WordType(ws[2]), ws[3], ws[4], addrs[..DIRECT_BLOCKS], addrs[DIRECT_BLOCKS])
  }

  lemma INodeWordsRoundTrip(n: INode)
    ensures WordsINode(INodeWords(n)) == n
  {
    hide AddrWords, WordAddrs;
    var ws := INodeWords(n);
    assert ws[5..] == AddrWords(n.direct + [n.indirect]);
    WordAddrsRoundTrip(n.direct + [n.indirect]);
  }

  function EncodeINode(n: INode): (bytes: seq<byte>)
    ensures |bytes| == INODE_BYTES
  {
    EncodeWords(INodeWords(n))
  }

  function DecodeINode(bytes: seq<byte>): (n: INode)
    requires |bytes| == INODE_BYTES
  {
    WordsINode(DecodeWords(bytes))
  }

  lemma INodeRoundTrip(n: INode)
    ensures DecodeINode(EncodeINode(n)) == n
  {
    DecodeEncodeExact(INodeWords(n));
    INodeWordsRoundTrip(n);
  }
}
