/** Files over held blocks: block pointers, contents, and what a changed set of blocks leaves alone. */
module FileModel {
  import opened Words
  import opened Segments
  import opened INodes
  import opened LogModel

  /** Addresses an indirect block holds, and the block count limit it gives a file. */
  function PerBlock(bs: nat): nat { bs / 8 }
  function MaxBlocks(bs: nat): nat { DIRECT_BLOCKS + PerBlock(bs) }

  function NoAddrs(bs: nat): (addrs: seq<Addr>)
    ensures |addrs| == PerBlock(bs)
    ensures forall i :: 0 <= i < |addrs| ==> addrs[i] == EMPTY
  {
    seq(PerBlock(bs), _ => EMPTY)
  }

  function Indirects(bs: nat, h: Held, n: INode): (addrs: seq<Addr>)
    ensures |addrs| == PerBlock(bs)
  {
    if n.indirect.seg != UINT_MAX && n.indirect in h && |h[n.indirect].data| == bs then DecodeAddrs(h[n.indirect].data)
    else NoAddrs(bs)
  }

  /** The address of block b of a file: four direct ones, then the indirect table. */
  function Ptr(bs: nat, h: Held, n: INode, b: nat): Addr {
    if b < DIRECT_BLOCKS then n.direct[b]
    else if b < MaxBlocks(bs) then Indirects(bs, h, n)[b - DIRECT_BLOCKS]
    else EMPTY
  }

  /** An address is empty or names a held block whose tag says file inum, block b. */
  ghost predicate Points(bs: nat, h: Held, inum: word, b: nat, a: Addr) {
    a != EMPTY ==>
      && a.seg != UINT_MAX && a.slot != UINT_MAX
      && a in h && h[a].inum == inum && h[a].role == Data(b) && h[a].fileBlock == b && |h[a].data| == bs
  }

  ghost predicate IndirectOk(bs: nat, h: Held, inum: word, n: INode) {
    n.indirect != EMPTY ==>
      && n.indirect.seg != UINT_MAX
      && n.indirect in h && h[n.indirect].inum == inum && h[n.indirect].role == Indirect && |h[n.indirect].data| == bs
  }

  /** All pointers of file inum are good, block b's excepted. */
  ghost predicate INodeOkBut(bs: nat, h: Held, inum: word, n: INode, but: nat) {
    && n.inum == inum
    && IndirectOk(bs, h, inum, n)
    && forall b: nat :: b < MaxBlocks(bs) && b != but ==> Points(bs, h, inum, b, Ptr(bs, h, n, b))
  }

  /** Ownership: every pointer of file inum names a held block tagged as that very block of that very file. */
  ghost predicate INodeOk(bs: nat, h: Held, inum: word, n: INode) {
    INodeOkBut(bs, h, inum, n, MaxBlocks(bs))
  }

  lemma OwnsPointers(bs: nat, h: Held, inum: word, n: INode)
    requires INodeOk(bs, h, inum, n)
    ensures PointersHeld(h, n)
  {
    hide Indirects;
    forall b: nat | b < DIRECT_BLOCKS
      ensures n.direct[b] == EMPTY || n.direct[b] in h
    {
      assert Points(bs, h, inum, b, Ptr(bs, h, n, b));
    }
  }

  function BlockData(bs: nat, h: Held, a: Addr): (block: seq<byte>)
    ensures |block| == bs
  {
    if a != EMPTY && a in h && |h[a].data| == bs then h[a].data else Zeros(bs)
  }

  function FileBlock(bs: nat, h: Held, n: INode, b: nat): (block: seq<byte>)
    ensures |block| == bs
  {
    BlockData(bs, h, Ptr(bs, h, n, b))
  }

  /** Byte k of a file; past the largest block a file can have, reads see zeros. */
  function ByteAt(bs: nat, h: Held, n: INode, k: nat): byte
    requires bs > 0
  {
    FileBlock(bs, h, n, k / bs)[k % bs]
  }

  function Contents(bs: nat, h: Held, n: INode): (c: seq<byte>)
    requires bs > 0
    ensures |c| == n.fileSize
    ensures forall k :: 0 <= k < n.fileSize ==> c[k] == ByteAt(bs, h, n, k)
  {
    seq(n.fileSize, k requires 0 <= k < n.fileSize => ByteAt(bs, h, n, k))
  }

  /** Every block below the end of the file has been written. */
  ghost predicate NoHoles(bs: nat, h: Held, n: INode) {
    forall b: nat :: b < MaxBlocks(bs) && b * bs < n.fileSize ==> Ptr(bs, h, n, b) != EMPTY
  }

  // ---- Frames ------------------------------------------------------------------------------

  /** Everything file inum holds in h is still there. */
  ghost predicate KeepsOwned(h: Held, h': Held, inum: word) {
    forall a :: a in h && h[a].inum == inum ==> a in h' && h'[a] == h[a]
  }

  lemma IndirectsKept(bs: nat, h: Held, h': Held, inum: word, n: INode)
    requires IndirectOk(bs, h, inum, n) && KeepsOwned(h, h', inum)
    ensures IndirectOk(bs, h', inum, n)
    ensures Indirects(bs, h', n) == Indirects(bs, h, n)
    ensures forall b: nat :: Ptr(bs, h', n, b) == Ptr(bs, h, n, b)
  {
  }

  /** A change that leaves a file's own blocks alone leaves its pointers and its bytes alone. */
  lemma FileKept(bs: nat, h: Held, h': Held, inum: word, n: INode)
    requires bs > 0 && INodeOk(bs, h, inum, n) && KeepsOwned(h, h', inum)
    ensures INodeOk(bs, h', inum, n)
    ensures forall b: nat :: Ptr(bs, h', n, b) == Ptr(bs, h, n, b)
    ensures forall b: nat :: FileBlock(bs, h', n, b) == FileBlock(bs, h, n, b)
    ensures Contents(bs, h', n) == Contents(bs, h, n)
    ensures NoHoles(bs, h, n) ==> NoHoles(bs, h', n)
  {
    IndirectsKept(bs, h, h', inum, n);
    BlocksKept(bs, h, h', inum, n);
    hide FileBlock, INodeOkBut, Contents;
    INodeKept(bs, h, h', inum, n);
    SameBytes(bs, h, h', n);
  }

  lemma BlocksKept(bs: nat, h: Held, h': Held, inum: word, n: INode)
    requires INodeOk(bs, h, inum, n) && KeepsOwned(h, h', inum)
    requires forall b: nat :: Ptr(bs, h', n, b) == Ptr(bs, h, n, b)
    ensures forall b: nat :: FileBlock(bs, h', n, b) == FileBlock(bs, h, n, b)
  {
    hide Indirects;
    forall b: nat
      ensures FileBlock(bs, h', n, b) == FileBlock(bs, h, n, b)
    {
      if b < MaxBlocks(bs) {
        assert Points(bs, h, inum, b, Ptr(bs, h, n, b));
      }
    }
  }

  lemma INodeKept(bs: nat, h: Held, h': Held, inum: word, n: INode)
    requires INodeOk(bs, h, inum, n) && KeepsOwned(h, h', inum) && IndirectOk(bs, h', inum, n)
    requires forall b: nat :: Ptr(bs, h', n, b) == Ptr(bs, h, n, b)
    ensures INodeOk(bs, h', inum, n)
  {
    hide Ptr;
  }

  lemma SameBytes(bs: nat, h: Held, h': Held, n: INode)
    requires bs > 0 && forall b: nat :: FileBlock(bs, h', n, b) == FileBlock(bs, h, n, b)
    ensures Contents(bs, h', n) == Contents(bs, h, n)
  {
  }

  // ---- Linking a new block into an inode ----------------------------------------------------

  /** n' is n with other block pointers. */
  predicate SameButPointers(n: INode, n': INode) {
    n'.(direct := n.direct, indirect := n.indirect) == n
  }

  /** After putting `block` under pointer b: that pointer is new, every other pointer is as before. */
  ghost predicate Relinked(bs: nat, h: Held, n: INode, h': Held, n': INode, b: nat, block: seq<byte>) {
    && SameButPointers(n, n')
    && INodeOk(bs, h', n.inum, n')
    && (forall a :: a in h ==> a in h' && h'[a] == h[a])
    && (forall j: nat :: j != b ==> Ptr(bs, h', n', j) == Ptr(bs, h, n, j))
    && (var p := Ptr(bs, h', n', b); p != EMPTY && p !in h && p in h' && h'[p].data == block)
    && (forall a :: a in h' ==> a in h || a == Ptr(bs, h', n', b) || (b >= DIRECT_BLOCKS && a == n'.indirect))
    && TableMoved(h, n, n', b)
  }

  /** Linking a block behind the direct ones takes a new indirect block, linking a direct one takes none. */
  predicate TableMoved(h: Held, n: INode, n': INode, b: nat) {
    if b < DIRECT_BLOCKS then n'.indirect == n.indirect else n'.indirect !in h && n'.indirect != EMPTY
  }

  lemma LinkDirect(bs: nat, h: Held, n: INode, b: nat, a: Addr, block: seq<byte>)
    requires INodeOkBut(bs, h, n.inum, n, b) && b < DIRECT_BLOCKS && n.inum < 0x8000_0000
    requires a !in h && a.seg != UINT_MAX && a.slot != UINT_MAX && |block| == bs
    ensures Relinked(bs, h, n, h[a := Slot(n.inum, b, Data(b), block)], n.(direct := n.direct[b := a]), b, block)
    ensures Ptr(bs, h[a := Slot(n.inum, b, Data(b), block)], n.(direct := n.direct[b := a]), b) == a
  {
    var h' := h[a := Slot(n.inum, b, Data(b), block)];
    var n' := n.(direct := n.direct[b := a]);
    IndirectsKept(bs, h, h', n.inum, n);
    assert Indirects(bs, h', n') == Indirects(bs, h', n);
    forall j: nat | j < MaxBlocks(bs)
      ensures Points(bs, h', n.inum, j, Ptr(bs, h', n', j))
    {
      if j != b {
        assert Points(bs, h, n.inum, j, Ptr(bs, h, n, j));
      }
    }
  }

  lemma LinkIndirect(bs: nat, h: Held, n: INode, b: nat, a: Addr, block: seq<byte>, table: Addr, fileBlock: i32)
    requires bs % 8 == 0 && INodeOkBut(bs, h, n.inum, n, b) && DIRECT_BLOCKS <= b < MaxBlocks(bs) && b < 0x8000_0000
    requires n.inum < 0x8000_0000
    requires a !in h && a.seg != UINT_MAX && a.slot != UINT_MAX && |block| == bs
    requires table !in h && table != a && table.seg != UINT_MAX
    ensures var h1 := h[a := Slot(n.inum, b, Data(b), block)];
            var addrs := Indirects(bs, h1, n)[b - DIRECT_BLOCKS := a];
            var h' := h1[table := Slot(n.inum, fileBlock, Indirect, EncodeAddrs(addrs))];
            Relinked(bs, h, n, h', n.(indirect := table), b, block) && Ptr(bs, h', n.(indirect := table), b) == a
  {
    hide DecodeAddrs, EncodeAddrs;
    var h1 := h[a := Slot(n.inum, b, Data(b), block)];
    IndirectsKept(bs, h, h1, n.inum, n);
    var addrs := Indirects(bs, h1, n)[b - DIRECT_BLOCKS := a];
    var h' := h1[table := Slot(n.inum, fileBlock, Indirect, EncodeAddrs(addrs))];
    var n' := n.(indirect := table);
    AddrsRoundTrip(addrs);
    assert Indirects(bs, h', n') == addrs;
    forall j: nat | j < MaxBlocks(bs)
      ensures Points(bs, h', n.inum, j, Ptr(bs, h', n', j))
    {
      if j != b {
        assert Points(bs, h, n.inum, j, Ptr(bs, h, n, j));
      }
    }
  }

  lemma RelinkedBlocks(bs: nat, h: Held, n: INode, h': Held, n': INode, b: nat, block: seq<byte>)
    requires INodeOkBut(bs, h, n.inum, n, b) && b < MaxBlocks(bs) && |block| == bs
    requires Relinked(bs, h, n, h', n', b, block)
    ensures FileBlock(bs, h', n', b) == block
    ensures forall j: nat :: j != b ==> FileBlock(bs, h', n', j) == FileBlock(bs, h, n, j)
  {
  }

  /** Freeing the block under pointer b disturbs no other pointer: tags make addresses unshared. */
  lemma FreedBut(bs: nat, h: Held, n: INode, b: nat)
    requires INodeOk(bs, h, n.inum, n) && b < MaxBlocks(bs)
    ensures var h1 := h - {Ptr(bs, h, n, b)};
            && INodeOkBut(bs, h1, n.inum, n, b)
            && (forall j: nat :: Ptr(bs, h1, n, j) == Ptr(bs, h, n, j))
            && (forall j: nat :: j != b ==> FileBlock(bs, h1, n, j) == FileBlock(bs, h, n, j))
  {
    var p := Ptr(bs, h, n, b);
    var h1 := h - {p};
    assert Points(bs, h, n.inum, b, p);
    assert Indirects(bs, h1, n) == Indirects(bs, h, n);
    forall j: nat | j < MaxBlocks(bs) && j != b
      ensures Points(bs, h1, n.inum, j, Ptr(bs, h1, n, j))
      ensures FileBlock(bs, h1, n, j) == FileBlock(bs, h, n, j)
    {
      assert Points(bs, h, n.inum, j, Ptr(bs, h, n, j));
    }
  }

  lemma PointerAt(bs: nat, h: Held, n: INode, b: nat)
    requires INodeOk(bs, h, n.inum, n) && b < MaxBlocks(bs)
    ensures IndirectOk(bs, h, n.inum, n)
    ensures var p := Ptr(bs, h, n, b);
            if p == EMPTY then FileBlock(bs, h, n, b) == Zeros(bs)
            else p.seg != UINT_MAX && p.slot != UINT_MAX && p in h && FileBlock(bs, h, n, b) == h[p].data
  {
  }

  lemma FreedButOne(bs: nat, h: Held, n: INode, b: nat)
    requires INodeOk(bs, h, n.inum, n) && b < MaxBlocks(bs)
    ensures INodeOkBut(bs, if Ptr(bs, h, n, b) == EMPTY then h else h - {Ptr(bs, h, n, b)}, n.inum, n, b)
  {
    FreedBut(bs, h, n, b);
  }

  // ---- Byte ranges and blocks ---------------------------------------------------------------

  lemma DivMod(bs: nat, j: nat, i: nat)
    requires i < bs
    ensures (j * bs + i) / bs == j && (j * bs + i) % bs == i
  {
    var k := j * bs + i;
    var q, r := k / bs, k % bs;
    assert k == q * bs + r;
    assert (j + 1) * bs == j * bs + bs && (q + 1) * bs == q * bs + bs;
    if q < j {
      MulOrder(q + 1, j, bs);
    } else if j < q {
      MulOrder(j + 1, q, bs);
    }
  }

  lemma DivBounds(bs: nat, k: nat)
    requires bs > 0
    ensures (k / bs) * bs <= k < (k / bs) * bs + bs && (k / bs + 1) * bs == (k / bs) * bs + bs
    ensures k % bs == k - (k / bs) * bs
  {
    assert k == (k / bs) * bs + k % bs;
  }

  /** File_Write's and File_Read's count of blocks touched by a nonempty range. */
  function BlocksTouched(bs: nat, offset: nat, length: nat): (n: nat)
    requires bs > 0
    ensures n >= 1
  {
    if offset % bs + length > bs then
      var remainder := length - (bs - offset % bs);
      1 + remainder / bs + (if remainder % bs > 0 then 1 else 0)
    else 1
  }

  function StartBlock(bs: nat, offset: nat): nat
    requires bs > 0
  {
    offset / bs
  }

  function LastBlock(bs: nat, offset: nat, length: nat): (b: nat)
    requires bs > 0
  {
    offset / bs + BlocksTouched(bs, offset, length) - 1
  }

  /** The loop stopped after the last block, or at the first one past the largest file. */
  predicate Covered(bs: nat, cur: nat, offset: nat, length: nat) {
    bs > 0 && (cur == LastBlock(bs, offset, length) + 1 || MaxBlocks(bs) <= cur <= LastBlock(bs, offset, length))
  }

  lemma LastBlockIs(bs: nat, offset: nat, length: nat)
    requires bs > 0
    ensures LastBlock(bs, offset, length) == StartBlock(bs, offset) + BlocksTouched(bs, offset, length) - 1
  {
  }

  /** The range ends inside its last block. */
  lemma LastBlockEnds(bs: nat, offset: nat, length: nat)
    requires bs > 0
    ensures var e := LastBlock(bs, offset, length);
            && offset / bs <= e && e * bs <= offset + length <= e * bs + bs
            && (length > 0 ==> e * bs < offset + length)
            && (offset / bs) * bs <= offset < (offset / bs) * bs + bs
            && offset % bs == offset - (offset / bs) * bs
  {
    DivBounds(bs, offset);
    var s, o := offset / bs, offset % bs;
    if o + length > bs {
      var remainder := length - (bs - o);
      DivBounds(bs, remainder);
      var q := remainder / bs;
      var e := LastBlock(bs, offset, length);
      if remainder % bs > 0 {
        assert e == s + 1 + q;
        assert (s + 1 + q) * bs == s * bs + bs + q * bs;
      } else {
        assert e == s + q;
        assert (s + q) * bs == s * bs + q * bs;
      }
    }
  }

  /** Block j of a file after bytes [offset, offset + |buffer|) were overwritten. */
  function Overwritten(bs: nat, block: seq<byte>, j: nat, offset: nat, buffer: seq<byte>): (r: seq<byte>)
    requires |block| == bs
    ensures |r| == bs
    ensures forall i :: 0 <= i < bs ==>
              r[i] == if offset <= j * bs + i < offset + |buffer| then buffer[j * bs + i - offset] else block[i]
  {
    seq(bs, i requires 0 <= i < bs =>
      if offset <= j * bs + i < offset + |buffer| then buffer[j * bs + i - offset] else block[i])
  }

  /** Where block j's share of a range starts: inside the block, inside the buffer, and how long it is. */
  function From(bs: nat, j: nat, offset: nat): nat {
    if offset <= j * bs then 0 else offset - j * bs
  }

  function Skipped(bs: nat, j: nat, offset: nat): nat {
    if offset <= j * bs then j * bs - offset else 0
  }

  function Share(bs: nat, j: nat, offset: nat, length: nat): int {
    (if offset + length <= j * bs + bs then offset + length - j * bs else bs) - From(bs, j, offset)
  }

  lemma ShareBounds(bs: nat, j: nat, offset: nat, length: nat)
    requires bs > 0 && StartBlock(bs, offset) <= j <= LastBlock(bs, offset, length)
    ensures var f, k, l := From(bs, j, offset), Skipped(bs, j, offset), Share(bs, j, offset, length);
            && 0 <= l && f + l <= bs && k + l <= length
            && j * bs + f == offset + k
            && (j + 1) * bs == j * bs + bs
            && (j < LastBlock(bs, offset, length) ==> Skipped(bs, j + 1, offset) == k + l)
            && (j == LastBlock(bs, offset, length) ==> k + l == length)
            && (j < LastBlock(bs, offset, length) ==> f + l == bs)
            && (j == offset / bs ==> f == offset % bs && k == 0)
            && (j > offset / bs ==> f == 0)
  {
    LastBlockEnds(bs, offset, length);
    hide LastBlock;
    var s, e := offset / bs, LastBlock(bs, offset, length);
    OneMore(j, bs);
    if s < j {
      Apart(s, j, bs);
    }
    if j < e {
      Apart(j, e, bs);
    }
  }

  lemma Apart(i: nat, j: nat, bs: nat)
    requires i < j
    ensures i * bs + bs <= j * bs
  {
    OneMore(i, bs);
    MulOrder(i + 1, j, bs);
  }

  /** The same bounds without the products. */
  lemma ShareFacts(bs: nat, j: nat, offset: nat, length: nat)
    requires bs > 0 && StartBlock(bs, offset) <= j <= LastBlock(bs, offset, length)
    ensures var f, k, l := From(bs, j, offset), Skipped(bs, j, offset), Share(bs, j, offset, length);
            && 0 <= l && f + l <= bs && k + l <= length
            && (j < LastBlock(bs, offset, length) ==> Skipped(bs, j + 1, offset) == k + l)
            && (j == LastBlock(bs, offset, length) ==> k + l == length)
            && (j == StartBlock(bs, offset) ==> k == 0)
  {
    ShareBounds(bs, j, offset, length);
  }

  /** The four cases of File_Write and File_Read pick out block j's share of the range. */
  lemma ShareCases(bs: nat, j: nat, offset: nat, length: nat)
    requires bs > 0 && StartBlock(bs, offset) <= j <= LastBlock(bs, offset, length)
    ensures var f, k, l := From(bs, j, offset), Skipped(bs, j, offset), Share(bs, j, offset, length);
            if BlocksTouched(bs, offset, length) == 1 then f == offset % bs && l == length && k == 0
            else if j == offset / bs then f == offset % bs && l == bs - f
            else if j == LastBlock(bs, offset, length) then f == 0 && l == length - k
            else f == 0 && l == bs
  {
    ShareBounds(bs, j, offset, length);
  }

  lemma OverwrittenIs(bs: nat, block: seq<byte>, j: nat, offset: nat, buffer: seq<byte>)
    requires bs > 0 && |block| == bs && |buffer| > 0 && StartBlock(bs, offset) <= j <= LastBlock(bs, offset, |buffer|)
    ensures var f, k, l := From(bs, j, offset), Skipped(bs, j, offset), Share(bs, j, offset, |buffer|);
            0 <= l && k + l <= |buffer| && f + l <= bs
            && Spliced(block, f, buffer[k..k + l]) == Overwritten(bs, block, j, offset, buffer)
  {
    ShareBounds(bs, j, offset, |buffer|);
  }

  /** Data blocks held for file inum that a write of the range replaces, if they are still in use. */
  ghost function WrittenOver(bs: nat, h: Held, inum: word, offset: nat, length: nat): set<Addr>
    requires bs > 0
  {
    if length == 0 then {} else WrittenOverUpTo(bs, h, inum, offset, LastBlock(bs, offset, length) + 1)
  }

  /** Those of blocks from the range's first one to the one before cur. */
  ghost function WrittenOverUpTo(bs: nat, h: Held, inum: word, offset: nat, cur: nat): set<Addr>
    requires bs > 0
  {
    set a | a in h && h[a].inum == inum && h[a].role.Data? && StartBlock(bs, offset) <= h[a].role.b < cur
  }

  /** Blocks of the table that an update of this record replaces. */
  ghost function RecordReplaced(bs: nat, h: Held, inum: word): set<Addr>
    requires bs > 0
  {
    if inum == 0 then {} else WrittenOver(bs, h, 0, (inum - 1) * INODE_BYTES, INODE_BYTES)
  }

  /** Blocks that a write of the range replaces: those of the file, and those of the table where its record is. */
  ghost function Replaces(bs: nat, h: Held, inum: word, offset: nat, length: nat): set<Addr>
    requires bs > 0
  {
    if length == 0 then {} else WrittenOver(bs, h, inum, offset, length) + RecordReplaced(bs, h, inum)
  }

  lemma OwnReplaced(bs: nat, h: Held, inum: word, offset: nat, length: nat, going: set<Addr>)
    requires bs > 0 && length > 0 && Covers(going, Replaces(bs, h, inum, offset, length))
    ensures WrittenOver(bs, h, inum, offset, length) <= going
  {
  }

  lemma ReplacedInTurn(bs: nat, h0: Held, h1: Held, inum: word, offset: nat, length: nat)
    requires bs > 0 && OthersSame(h0, h1, {inum}) && length > 0
    ensures var own, record := WrittenOver(bs, h0, inum, offset, length), RecordReplaced(bs, h1, inum);
            own !! record && own + record == Replaces(bs, h0, inum, offset, length)
  {
    if inum != 0 {
      WrittenOverApart(bs, h0, h1, inum, offset, length, (inum - 1) * INODE_BYTES, INODE_BYTES);
    }
  }

  /** A write to file inum replaces no block of the table, nor does it change which of those another range has. */
  lemma WrittenOverApart(bs: nat, h0: Held, h1: Held, inum: word, offset: nat, length: nat, o: nat, l: nat)
    requires bs > 0 && OthersSame(h0, h1, {inum}) && length > 0 && l > 0
    ensures inum != 0 ==> WrittenOver(bs, h1, 0, o, l) == WrittenOver(bs, h0, 0, o, l) && WrittenOver(bs, h0, 0, o, l) !! WrittenOver(bs, h0, inum, offset, length)
  {
    hide LastBlock;
  }

  /** The block a write of the range replaces next is one of those, and none of those replaced before. */
  lemma NextWrittenOver(bs: nat, h: Held, n: INode, offset: nat, length: nat, b: nat)
    requires bs > 0 && INodeOk(bs, h, n.inum, n) && length > 0 && StartBlock(bs, offset) <= b < MaxBlocks(bs) && b <= LastBlock(bs, offset, length)
    ensures var p := Ptr(bs, h, n, b);
            p == EMPTY || (p in WrittenOverUpTo(bs, h, n.inum, offset, b + 1) && p !in WrittenOverUpTo(bs, h, n.inum, offset, b))
    ensures WrittenOverUpTo(bs, h, n.inum, offset, b) <= WrittenOverUpTo(bs, h, n.inum, offset, b + 1) <= WrittenOver(bs, h, n.inum, offset, length)
    ensures StartBlock(bs, offset) == b ==> WrittenOverUpTo(bs, h, n.inum, offset, b) == {}
  {
    hide Ptr;
    assert Points(bs, h, n.inum, b, Ptr(bs, h, n, b));
  }

  lemma WrittenOverWithin(bs: nat, h: Held, inum: word, offset: nat, length: nat, cur: nat)
    requires bs > 0 && length > 0 && cur <= LastBlock(bs, offset, length) + 1
    ensures WrittenOverUpTo(bs, h, inum, offset, cur) <= WrittenOver(bs, h, inum, offset, length)
  {
  }

  // ---- A file as a byte array ---------------------------------------------------------------

  /** What a write of buffer at offset makes of contents c. */
  function Written(c: seq<byte>, offset: nat, buffer: seq<byte>): (c': seq<byte>)
    requires offset <= |c|
    ensures |c'| == if offset + |buffer| > |c| then offset + |buffer| else |c|
  {
    c[..offset] + buffer + if offset + |buffer| < |c| then c[offset + |buffer|..] else []
  }

  /** Byte k is in a block the largest file has. */
  predicate InLargest(bs: nat, k: nat) {
    k < MaxBlocks(bs) * bs
  }

  /** Bytes past the largest file are lost: they read as zeros. */
  function Clamped(bs: nat, c: seq<byte>): (c': seq<byte>)
    ensures |c'| == |c| && forall k: nat :: k < |c| ==> c'[k] == if InLargest(bs, k) then c[k] else 0
    ensures |c| <= MaxBlocks(bs) * bs ==> c' == c
  {
    var c' := seq(|c|, k requires 0 <= k < |c| => if k < MaxBlocks(bs) * bs then c[k] else 0);
    assert |c| <= MaxBlocks(bs) * bs ==> c' == c;
    c'
  }

  /** Blocks [start, cur) carry the buffer's bytes, the others what they carried before. */
  ghost predicate WroteBlocks(bs: nat, h0: Held, n0: INode, h: Held, n: INode, start: nat, cur: nat, offset: nat, buffer: seq<byte>) {
    forall j: nat :: FileBlock(bs, h, n, j)
      == if start <= j < cur then Overwritten(bs, FileBlock(bs, h0, n0, j), j, offset, buffer) else FileBlock(bs, h0, n0, j)
  }

  lemma ByteWritten(bs: nat, h0: Held, n0: INode, h: Held, n: INode, cur: nat, offset: nat, buffer: seq<byte>, k: nat)
    requires bs > 0 && |buffer| > 0 && offset <= n0.fileSize
    requires k < n0.fileSize || k < offset + |buffer|
    requires WroteBlocks(bs, h0, n0, h, n, StartBlock(bs, offset), cur, offset, buffer)
    requires Covered(bs, cur, offset, |buffer|)
    requires k < MaxBlocks(bs) * bs
    ensures ByteAt(bs, h, n, k) == if offset <= k < offset + |buffer| then buffer[k - offset] else ByteAt(bs, h0, n0, k)
  {
    hide FileBlock, Overwritten, LastBlock, MaxBlocks, ByteAt, StartBlock, Within;
    var j, i := StartBlock(bs, k), Within(bs, k);
    BelowMaxAt(bs, k);
    ByteIs(bs, h, n, k);
    ByteIs(bs, h0, n0, k);
    if offset <= k < offset + |buffer| {
      BlockInRange(bs, offset, |buffer|, k);
    }
    OverwrittenByte(bs, FileBlock(bs, h0, n0, j), k, offset, buffer);
    assert FileBlock(bs, h, n, j) == if StartBlock(bs, offset) <= j < cur then Overwritten(bs, FileBlock(bs, h0, n0, j), j, offset, buffer)
                                     else FileBlock(bs, h0, n0, j);
  }

  function Within(bs: nat, k: nat): (i: nat)
    requires bs > 0
    ensures i < bs
  {
    k % bs
  }

  lemma ByteIs(bs: nat, h: Held, n: INode, k: nat)
    requires bs > 0
    ensures ByteAt(bs, h, n, k) == FileBlock(bs, h, n, StartBlock(bs, k))[Within(bs, k)]
  {
  }

  lemma OverwrittenByte(bs: nat, block: seq<byte>, k: nat, offset: nat, buffer: seq<byte>)
    requires bs > 0 && |block| == bs
    ensures Overwritten(bs, block, StartBlock(bs, k), offset, buffer)[Within(bs, k)]
              == if offset <= k < offset + |buffer| then buffer[k - offset] else block[Within(bs, k)]
  {
    DivBounds(bs, k);
  }

  lemma BelowMaxAt(bs: nat, k: nat)
    requires bs > 0 && k < MaxBlocks(bs) * bs
    ensures StartBlock(bs, k) < MaxBlocks(bs)
  {
    hide MaxBlocks;
    QuotientBelow(bs, k);
    BelowMax(bs, StartBlock(bs, k), MaxBlocks(bs), k);
  }

  lemma QuotientBelow(bs: nat, k: nat)
    requires bs > 0
    ensures StartBlock(bs, k) * bs <= k
  {
  }

  lemma BlockInRange(bs: nat, offset: nat, length: nat, k: nat)
    requires bs > 0 && offset <= k < offset + length
    ensures StartBlock(bs, offset) <= StartBlock(bs, k) <= LastBlock(bs, offset, length)
  {
    hide LastBlock;
    LastBlockEnds(bs, offset, length);
    DivBounds(bs, k);
    var j, s, e := k / bs, offset / bs, LastBlock(bs, offset, length);
    if j < s {
      MulOrder(j + 1, s, bs);
    } else if j > e {
      MulOrder(e + 1, j, bs);
      OneMore(e, bs);
    }
  }

  lemma OneMore(e: nat, bs: nat)
    ensures (e + 1) * bs == e * bs + bs
  {
  }

  lemma BelowMax(bs: nat, j: nat, m: nat, k: nat)
    requires j * bs <= k < m * bs
    ensures j < m
  {
    if m <= j {
      MulOrder(m, j, bs);
    }
  }

  lemma PastMax(bs: nat, h: Held, n: INode, k: nat)
    requires bs > 0 && k >= MaxBlocks(bs) * bs
    ensures k / bs >= MaxBlocks(bs) && ByteAt(bs, h, n, k) == 0
  {
    PastMaxAt(bs, k);
    assert Ptr(bs, h, n, k / bs) == EMPTY;
  }

  lemma PastMaxAt(bs: nat, k: nat)
    requires bs > 0 && k >= MaxBlocks(bs) * bs
    ensures k / bs >= MaxBlocks(bs)
  {
    hide MaxBlocks;
    DivBounds(bs, k);
    if k / bs < MaxBlocks(bs) {
      MulOrder(k / bs + 1, MaxBlocks(bs), bs);
    }
  }

  /** The block loop of File_Write is one write to the byte array. */
  lemma ContentsWritten(bs: nat, h0: Held, n0: INode, h: Held, n: INode, cur: nat, offset: nat, buffer: seq<byte>)
    requires bs > 0 && |buffer| > 0 && offset <= n0.fileSize
    requires WroteBlocks(bs, h0, n0, h, n, StartBlock(bs, offset), cur, offset, buffer)
    requires Covered(bs, cur, offset, |buffer|)
    requires n.fileSize == if offset + |buffer| > n0.fileSize then offset + |buffer| else n0.fileSize
    ensures Contents(bs, h, n) == Clamped(bs, Written(Contents(bs, h0, n0), offset, buffer))
  {
    var c, c' := Written(Contents(bs, h0, n0), offset, buffer), Contents(bs, h, n);
    forall k | 0 <= k < |c|
      ensures c'[k] == Clamped(bs, c)[k]
    {
      if k < MaxBlocks(bs) * bs {
        ByteWritten(bs, h0, n0, h, n, cur, offset, buffer, k);
      } else {
        PastMax(bs, h, n, k);
      }
    }
  }

  // ---- Reading ------------------------------------------------------------------------------

  /** The bytes a read has delivered after blocks below cur: a prefix of the range, then zeros. */
  ghost predicate Reading(bs: nat, h: Held, n: INode, offset: nat, done: nat, buffer: seq<byte>) {
    && bs > 0 && done <= |buffer|
    && (forall k: nat :: k < done ==> buffer[k] == ByteAt(bs, h, n, offset + k))
    && (forall k: nat :: done <= k < |buffer| ==> buffer[k] == 0)
  }

  lemma ReadingStep(bs: nat, h: Held, n: INode, offset: nat, j: nat, buffer: seq<byte>)
    requires bs > 0 && StartBlock(bs, offset) <= j <= LastBlock(bs, offset, |buffer|)
    requires Reading(bs, h, n, offset, Skipped(bs, j, offset), buffer)
    ensures var f, k, l := From(bs, j, offset), Skipped(bs, j, offset), Share(bs, j, offset, |buffer|);
            0 <= l && f + l <= bs && k + l <= |buffer|
            && Reading(bs, h, n, offset, k + l, Spliced(buffer, k, FileBlock(bs, h, n, j)[f..f + l]))
  {
    hide LastBlock, FileBlock, ByteAt, Spliced;
    ShareBounds(bs, j, offset, |buffer|);
    hide From, Skipped, Share;
    var f, k, l := From(bs, j, offset), Skipped(bs, j, offset), Share(bs, j, offset, |buffer|);
    var chunk := FileBlock(bs, h, n, j)[f..f + l];
    var buffer' := Spliced(buffer, k, chunk);
    forall x: nat | x < |buffer|
      ensures buffer'[x] == if k <= x < k + l then chunk[x - k] else buffer[x]
      ensures k <= x < k + l ==> buffer'[x] == ByteAt(bs, h, n, offset + x)
    {
      SplicedAt(buffer, k, chunk, x);
      if k <= x < k + l {
        BlockByte(bs, h, n, j, f + x - k, offset + x);
      }
    }
  }

  lemma SplicedAt<T>(d: seq<T>, at: nat, buffer: seq<T>, x: nat)
    requires at + |buffer| <= |d| && x < |d|
    ensures Spliced(d, at, buffer)[x] == if at <= x < at + |buffer| then buffer[x - at] else d[x]
  {
  }

  lemma BlockByte(bs: nat, h: Held, n: INode, j: nat, i: nat, k: nat)
    requires bs > 0 && i < bs && k == j * bs + i
    ensures ByteAt(bs, h, n, k) == FileBlock(bs, h, n, j)[i]
  {
    DivMod(bs, j, i);
    ByteIs(bs, h, n, k);
  }

  lemma ReadingEnds(bs: nat, h: Held, n: INode, offset: nat, done: nat, buffer: seq<byte>)
    requires Reading(bs, h, n, offset, done, buffer) && offset + |buffer| <= n.fileSize
    requires done < |buffer| ==> offset + done >= MaxBlocks(bs) * bs
    ensures buffer == Contents(bs, h, n)[offset..offset + |buffer|]
  {
    hide MaxBlocks, ByteAt;
    var c := Contents(bs, h, n);
    forall k | 0 <= k < |buffer|
      ensures buffer[k] == c[offset..offset + |buffer|][k]
    {
      if k >= done {
        PastMax(bs, h, n, offset + k);
      }
    }
  }

  /** Blocks the read visits that were never written. */
  ghost predicate HoleFree(bs: nat, h: Held, n: INode, first: nat, cur: nat) {
    forall j: nat :: first <= j < cur && j < MaxBlocks(bs) ==> Ptr(bs, h, n, j) != EMPTY
  }

  /** Every block a read of the range visits was written: even an empty range visits one. */
  ghost predicate ReadsHoleFree(bs: nat, h: Held, n: INode, offset: nat, length: nat) {
    bs > 0 && HoleFree(bs, h, n, StartBlock(bs, offset), LastBlock(bs, offset, length) + 1)
  }

  lemma ReadingStarts(bs: nat, h: Held, n: INode, offset: nat, length: nat)
    requires bs > 0
    ensures Reading(bs, h, n, offset, 0, Zeros(length))
  {
  }

  lemma PastTheEnd(bs: nat, b: nat, offset: nat, length: nat)
    requires bs > 0 && StartBlock(bs, offset) <= b <= LastBlock(bs, offset, length) && b >= MaxBlocks(bs)
    ensures offset + Skipped(bs, b, offset) >= MaxBlocks(bs) * bs
  {
    hide MaxBlocks, LastBlock;
    ShareBounds(bs, b, offset, length);
    MulOrder(MaxBlocks(bs), b, bs);
  }

  // ---- What stays put while one file is written -----------------------------------------------

  /** A held block that file inum's data pointers do not name. */
  ghost predicate Spared(bs: nat, h: Held, inum: word, n: INode, a: Addr) {
    a in h && (h[a].inum != inum || h[a].role.Indirect? || Ptr(bs, h, n, h[a].role.b) != a)
  }

  /** From n0 to n no pointer has newly come to lie in segment s, and what lies there is untouched. */
  ghost predicate SteersClear(bs: nat, h0: Held, n0: INode, h: Held, n: INode, s: word) {
    && (forall j: nat :: var p := Ptr(bs, h, n, j);
          p.seg == s ==> p == Ptr(bs, h0, n0, j) && (p in h0 ==> p in h && h[p] == h0[p]))
    && (n.indirect != n0.indirect ==> n.indirect.seg != s)
  }

  /** A segment outside the tail that keeps a block never becomes the tail, and no pointer newly comes to lie in it. */
  ghost predicate Steered(bs: nat, h0: Held, n0: INode, t0: word, h: Held, n: INode, t: word) {
    forall a :: a in h0 && a.seg != t0 ==> a.seg != t && SteersClear(bs, h0, n0, h, n, a.seg)
  }

  /** Spared blocks stay, and a segment that has one outside the tail is steered clear of. */
  ghost predicate SparedKept(bs: nat, h0: Held, inum: word, n0: INode, t0: word, h: Held, n: INode, t: word) {
    forall a :: Spared(bs, h0, inum, n0, a) ==>
      a in h && h[a] == h0[a] && (a.seg != t0 ==> a.seg != t && SteersClear(bs, h0, n0, h, n, a.seg))
  }

  lemma OthersKept(bs: nat, h0: Held, inum: word, n0: INode, t0: word, h: Held, n: INode, t: word, other: word)
    requires SparedKept(bs, h0, inum, n0, t0, h, n, t) && other != inum
    ensures KeepsOwned(h0, h, other)
  {
  }

  /** Block j replaced: everything held but its old block is kept, and segments that keep a block are steered clear of. */
  ghost predicate Replaced(bs: nat, h: Held, n: INode, t: word, h': Held, n': INode, t': word, j: nat, block: seq<byte>) {
    && SameButPointers(n, n')
    && INodeOk(bs, h', n.inum, n')
    && (forall i: nat :: i != j ==> Ptr(bs, h', n', i) == Ptr(bs, h, n, i))
    && Ptr(bs, h', n', j) != EMPTY
    && (forall i: nat :: FileBlock(bs, h', n', i) == if i == j then block else FileBlock(bs, h, n, i))
    && (forall a :: a in h && a != Ptr(bs, h, n, j) ==>
          a in h' && h'[a] == h[a] && (a.seg != t ==> a.seg != t' && SteersClear(bs, h, n, h', n', a.seg)))
    && (forall a :: a in h' ==> (a in h && a != Ptr(bs, h, n, j)) || a == Ptr(bs, h', n', j) || (j >= DIRECT_BLOCKS && a == n'.indirect))
    && Ptr(bs, h', n', j) !in h - {Ptr(bs, h, n, j)}
    && TableMoved(h - {Ptr(bs, h, n, j)}, n, n', j)
  }

  /** Free, write, link: the steps of one iteration of File_Write's loop. */
  lemma ReplacedBy(bs: nat, h: Held, n: INode, t: word, h1: Held, h': Held, n': INode, t': word, j: nat, block: seq<byte>)
    requires INodeOk(bs, h, n.inum, n) && j < MaxBlocks(bs) && |block| == bs && EMPTY !in h
    requires h1 == if Ptr(bs, h, n, j) == EMPTY then h else h - {Ptr(bs, h, n, j)}
    requires Relinked(bs, h1, n, h', n', j, block) && Steered(bs, h1, n, t, h', n', t') && Ptr(bs, h', n', j).seg == t
    ensures Replaced(bs, h, n, t, h', n', t', j, block)
  {
    hide Indirects;
    if Ptr(bs, h, n, j) != EMPTY {
      FreedBut(bs, h, n, j);
    }
    RelinkedBlocks(bs, h1, n, h', n', j, block);
    DistinctPtrs(bs, h, n, j);
  }

  lemma DistinctPtrs(bs: nat, h: Held, n: INode, j: nat)
    requires INodeOk(bs, h, n.inum, n) && j < MaxBlocks(bs)
    ensures Ptr(bs, h, n, j) != EMPTY ==> forall i: nat :: i != j ==> Ptr(bs, h, n, i) != Ptr(bs, h, n, j)
  {
  }

  // ---- Who holds what ------------------------------------------------------------------------

  /** Everything held for file inum. */
  ghost function OwnedBy(h: Held, inum: word): set<Addr> {
    set a | a in h && h[a].inum == inum
  }

  /** The indirect blocks held for file inum: its own, and every one it has had before. */
  ghost function Tables(h: Held, inum: word): set<Addr> {
    set a | a in h && h[a].inum == inum && h[a].role == Indirect
  }

  /** Data blocks held for a file that no pointer of it names: no operation ever frees one. */
  ghost function LostData(bs: nat, h: Held, n: INode): set<Addr> {
    set a | a in h && h[a].inum == n.inum && h[a].role.Data? && Ptr(bs, h, n, h[a].role.b) != a
  }

  /** What is held for files outside s is the same. */
  ghost predicate OthersSame(h: Held, h': Held, s: set<word>) {
    forall a :: (a in h && !OwnedIn(h[a], s)) || (a in h' && !OwnedIn(h'[a], s)) ==> a in h && a in h' && h'[a] == h[a]
  }

  predicate OwnedIn(slot: Slot, s: set<word>) {
    slot.inum >= 0 && slot.inum in s
  }

  ghost predicate TablesKept(h: Held, h': Held, inum: word) {
    forall a :: a in h && h[a].inum == inum && h[a].role == Indirect ==> a in h' && h'[a] == h[a]
  }

  /**
   * From n to n' as many indirect blocks were written as `tables` says. None of them is ever freed, and every other block
   * given up was freed: no more data blocks are lost than before.
   */
  ghost predicate Account(bs: nat, h: Held, n: INode, h': Held, n': INode, tables: nat) {
    && LostData(bs, h', n') == LostData(bs, h, n)
    && TablesKept(h, h', n.inum) && |Tables(h', n.inum)| == |Tables(h, n.inum)| + tables
    && if tables == 0 then n'.indirect == n.indirect else n'.indirect != n.indirect && n'.indirect != EMPTY
  }

  lemma ReplacedTables(bs: nat, h: Held, n: INode, t: word, h': Held, n': INode, t': word, j: nat, block: seq<byte>)
    requires INodeOk(bs, h, n.inum, n) && j < MaxBlocks(bs) && Replaced(bs, h, n, t, h', n', t', j, block) && EMPTY !in h
    ensures TablesKept(h, h', n.inum)
    ensures Tables(h', n.inum) == Tables(h, n.inum) + if j >= DIRECT_BLOCKS then {n'.indirect} else {}
    ensures j >= DIRECT_BLOCKS ==> n'.indirect !in Tables(h, n.inum) && n'.indirect != EMPTY
    ensures j < DIRECT_BLOCKS ==> n'.indirect == n.indirect
  {
    hide Indirects, SteersClear, FileBlock;
    assert Points(bs, h, n.inum, j, Ptr(bs, h, n, j));
    assert Points(bs, h', n.inum, j, Ptr(bs, h', n', j));
    hide Ptr;
  }

  lemma ReplacedData(bs: nat, h: Held, n: INode, t: word, h': Held, n': INode, t': word, j: nat, block: seq<byte>)
    requires INodeOk(bs, h, n.inum, n) && j < MaxBlocks(bs) && Replaced(bs, h, n, t, h', n', t', j, block) && EMPTY !in h
    ensures LostData(bs, h', n') == LostData(bs, h, n) && OthersSame(h, h', {n.inum})
  {
    hide Indirects, SteersClear, FileBlock;
    assert Points(bs, h, n.inum, j, Ptr(bs, h, n, j));
    assert Points(bs, h', n.inum, j, Ptr(bs, h', n', j));
    hide Ptr;
  }

  /** Indirect blocks written for blocks [start, cur). */
  function TablesUpTo(start: nat, cur: nat): nat {
    var first := if start < DIRECT_BLOCKS then DIRECT_BLOCKS else start;
    if cur <= first then 0 else cur - first
  }

  /** Indirect blocks written for a nonempty range of a file. */
  function TablesIn(bs: nat, offset: nat, length: nat): nat
    requires bs > 0
  {
    var end := LastBlock(bs, offset, length) + 1;
    TablesUpTo(StartBlock(bs, offset), if end < MaxBlocks(bs) then end else MaxBlocks(bs))
  }

  /** The account of a write with blocks [start, cur) done. */
  ghost predicate WritingAccount(bs: nat, h0: Held, n0: INode, h: Held, n: INode, start: nat, cur: nat) {
    && Account(bs, h0, n0, h, n, TablesUpTo(start, cur)) && OthersSame(h0, h, {n0.inum})
    && start <= cur && (cur <= MaxBlocks(bs) || cur == start)
  }

  lemma AccountStep(bs: nat, h0: Held, n0: INode, h: Held, n: INode, t: word, h': Held, n': INode, t': word,
                    start: nat, cur: nat, block: seq<byte>)
    requires INodeOk(bs, h0, n0.inum, n0) && n.inum == n0.inum && INodeOk(bs, h, n.inum, n) && cur < MaxBlocks(bs) && EMPTY !in h
    requires WritingAccount(bs, h0, n0, h, n, start, cur) && Replaced(bs, h, n, t, h', n', t', cur, block)
    ensures WritingAccount(bs, h0, n0, h', n', start, cur + 1)
  {
    ReplacedTables(bs, h, n, t, h', n', t', cur, block);
    ReplacedData(bs, h, n, t, h', n', t', cur, block);
    hide Replaced, LostData, INodeOk, MaxBlocks, Tables, TablesKept, OthersSame;
    OwnTable(bs, h0, n0, h);
    TablesChain(h0, h, h', n.inum);
    OthersChain(h0, h, h', {n.inum});
    if cur >= DIRECT_BLOCKS {
      OneMoreTable(Tables(h, n.inum), n'.indirect);
    }
  }

  lemma OneMoreTable(s: set<Addr>, a: Addr)
    requires a !in s
    ensures |s + {a}| == |s| + 1
  {
  }

  lemma OwnTable(bs: nat, h0: Held, n: INode, h: Held)
    requires INodeOk(bs, h0, n.inum, n) && TablesKept(h0, h, n.inum)
    ensures n.indirect != EMPTY ==> n.indirect in Tables(h, n.inum)
  {
  }

  lemma TablesChain(h0: Held, h1: Held, h2: Held, inum: word)
    requires TablesKept(h0, h1, inum) && TablesKept(h1, h2, inum)
    ensures TablesKept(h0, h2, inum)
  {
  }

  lemma OthersChain(h0: Held, h1: Held, h2: Held, s: set<word>)
    requires OthersSame(h0, h1, s) && OthersSame(h1, h2, s)
    ensures OthersSame(h0, h2, s)
  {
  }

  /** The new block, and a rewritten indirect block, lie where the tail was at the time. */
  lemma LinkSteered(bs: nat, h: Held, n: INode, t: word, h1: Held, t1: word, h': Held, n': INode, t': word, b: nat, a: Addr, block: seq<byte>)
    requires Relinked(bs, h, n, h', n', b, block) && Ptr(bs, h', n', b) == a && a.seg == t
    requires forall x :: x in h ==> x in h1
    requires OffTailKept(h1, t, t1) && ((h' == h1 && t' == t1) || OffTailKept(h', t1, t'))
    requires n'.indirect != n.indirect ==> n'.indirect.seg == t1
    ensures Steered(bs, h, n, t, h', n', t')
  {
    hide Ptr, INodeOkBut;
  }

  /** The loop of File_Write with blocks [start, cur) done. */
  ghost predicate Writing(bs: nat, h0: Held, n0: INode, t0: word, h: Held, n: INode, t: word, cur: nat, offset: nat, buffer: seq<byte>) {
    bs > 0 && var start := StartBlock(bs, offset);
    && SameButPointers(n0, n)
    && INodeOk(bs, h, n0.inum, n)
    && (forall j: nat :: !(start <= j < cur) ==> Ptr(bs, h, n, j) == Ptr(bs, h0, n0, j))
    && (forall j: nat :: start <= j < cur ==> Ptr(bs, h, n, j) != EMPTY)
    && WroteBlocks(bs, h0, n0, h, n, start, cur, offset, buffer)
    && SparedKept(bs, h0, n0.inum, n0, t0, h, n, t)
    && WritingAccount(bs, h0, n0, h, n, start, cur)
  }

  lemma WritingStarts(bs: nat, h: Held, n: INode, t: word, offset: nat, buffer: seq<byte>)
    requires bs > 0 && INodeOk(bs, h, n.inum, n)
    ensures Writing(bs, h, n, t, h, n, t, StartBlock(bs, offset), offset, buffer)
  {
  }

  lemma WritingStep(bs: nat, h0: Held, n0: INode, t0: word, h: Held, n: INode, t: word, h': Held, n': INode, t': word,
                    cur: nat, offset: nat, buffer: seq<byte>)
    requires INodeOk(bs, h0, n0.inum, n0) && EMPTY !in h0 && EMPTY !in h
    requires Writing(bs, h0, n0, t0, h, n, t, cur, offset, buffer) && StartBlock(bs, offset) <= cur < MaxBlocks(bs)
    requires Replaced(bs, h, n, t, h', n', t', cur, Overwritten(bs, FileBlock(bs, h, n, cur), cur, offset, buffer))
    ensures Writing(bs, h0, n0, t0, h', n', t', cur + 1, offset, buffer)
  {
    AccountStep(bs, h0, n0, h, n, t, h', n', t', StartBlock(bs, offset), cur, Overwritten(bs, FileBlock(bs, h, n, cur), cur, offset, buffer));
    hide Ptr, FileBlock, Overwritten, INodeOkBut, MaxBlocks, WritingAccount;
    forall a | Spared(bs, h0, n0.inum, n0, a)
      ensures a in h' && h'[a] == h0[a] && (a.seg != t0 ==> a.seg != t' && SteersClear(bs, h0, n0, h', n', a.seg))
    {
      if a == Ptr(bs, h, n, cur) {
        OwnTag(bs, h0, n0, cur);
      }
    }
  }

  lemma OwnTag(bs: nat, h: Held, n: INode, j: nat)
    requires INodeOk(bs, h, n.inum, n) && j < MaxBlocks(bs) && Ptr(bs, h, n, j) != EMPTY && Ptr(bs, h, n, j) in h
    ensures !Spared(bs, h, n.inum, n, Ptr(bs, h, n, j))
  {
  }

  lemma WritingAt(bs: nat, h0: Held, n0: INode, t0: word, h: Held, n: INode, t: word, cur: nat, offset: nat, buffer: seq<byte>)
    requires Writing(bs, h0, n0, t0, h, n, t, cur, offset, buffer)
    ensures Ptr(bs, h, n, cur) == Ptr(bs, h0, n0, cur)
  {
    hide Ptr, WroteBlocks, SparedKept, WritingAccount, INodeOk;
  }

  lemma WritingInode(bs: nat, h0: Held, n0: INode, t0: word, h: Held, n: INode, t: word, cur: nat, offset: nat, buffer: seq<byte>)
    requires Writing(bs, h0, n0, t0, h, n, t, cur, offset, buffer)
    ensures n.inum == n0.inum && INodeOk(bs, h, n.inum, n)
  {
  }

  // ---- A whole File_Write and File_Read -------------------------------------------------------

  /** n at h is file n0 at h0 after a write: only its bytes, its size and where its blocks are have changed. */
  ghost predicate FileWritten(bs: nat, h0: Held, n0: INode, h: Held, n: INode, offset: nat, buffer: seq<byte>) {
    && bs > 0 && offset <= n0.fileSize
    && SameButPointers(n0, n.(fileSize := n0.fileSize))
    && INodeOk(bs, h, n0.inum, n)
    && (NoHoles(bs, h0, n0) ==> NoHoles(bs, h, n))
    && Contents(bs, h, n) == Clamped(bs, Written(Contents(bs, h0, n0), offset, buffer))
  }

  function Grown(size: word, offset: nat, length: nat): nat {
    if offset + length > size then offset + length else size
  }

  lemma Resized(bs: nat, h: Held, n: INode, size: word)
    ensures forall b: nat :: Ptr(bs, h, n.(fileSize := size), b) == Ptr(bs, h, n, b)
    ensures forall b: nat :: FileBlock(bs, h, n.(fileSize := size), b) == FileBlock(bs, h, n, b)
    ensures INodeOk(bs, h, n.inum, n) ==> INodeOk(bs, h, n.inum, n.(fileSize := size))
  {
  }

  lemma WritingDone(bs: nat, h0: Held, n0: INode, t0: word, h: Held, n: INode, t: word, cur: nat, offset: nat, buffer: seq<byte>)
    requires Writing(bs, h0, n0, t0, h, n, t, cur, offset, buffer) && Covered(bs, cur, offset, |buffer|)
    requires offset <= n0.fileSize && |buffer| > 0 && offset + |buffer| < 0x1_0000_0000
    ensures FileWritten(bs, h0, n0, h, n.(fileSize := Grown(n0.fileSize, offset, |buffer|)), offset, buffer)
    ensures n.fileSize == n0.fileSize
    ensures SparedKept(bs, h0, n0.inum, n0, t0, h, n.(fileSize := Grown(n0.fileSize, offset, |buffer|)), t)
    ensures Account(bs, h0, n0, h, n.(fileSize := Grown(n0.fileSize, offset, |buffer|)), TablesIn(bs, offset, |buffer|))
    ensures OthersSame(h0, h, {n0.inum})
  {
    AccountDone(bs, h0, n0, h, n, cur, offset, |buffer|, Grown(n0.fileSize, offset, |buffer|));
    hide Account, OthersSame, WritingAccount;
    hide Ptr, FileBlock, Contents, LastBlock, MaxBlocks, INodeOkBut, Overwritten, Clamped, Written;
    var n' := n.(fileSize := Grown(n0.fileSize, offset, |buffer|));
    Resized(bs, h, n, Grown(n0.fileSize, offset, |buffer|));
    ContentsWritten(bs, h0, n0, h, n', cur, offset, buffer);
    if NoHoles(bs, h0, n0) {
      NoNewHoles(bs, h0, n0, h, n', cur, offset, buffer);
    }
  }

  lemma AccountDone(bs: nat, h0: Held, n0: INode, h: Held, n: INode, cur: nat, offset: nat, length: nat, size: word)
    requires bs > 0 && n.inum == n0.inum && WritingAccount(bs, h0, n0, h, n, StartBlock(bs, offset), cur) && Covered(bs, cur, offset, length)
    ensures Account(bs, h0, n0, h, n.(fileSize := size), TablesIn(bs, offset, length)) && OthersSame(h0, h, {n0.inum})
  {
    Resized(bs, h, n, size);
    hide Ptr, StartBlock, LastBlock, MaxBlocks, OthersSame, INodeOk;
    assert LostData(bs, h, n.(fileSize := size)) == LostData(bs, h, n);
    assert LastBlock(bs, offset, length) >= StartBlock(bs, offset) by { LastBlockIs(bs, offset, length); }
  }

  lemma NoNewHoles(bs: nat, h0: Held, n0: INode, h: Held, n: INode, cur: nat, offset: nat, buffer: seq<byte>)
    requires bs > 0 && NoHoles(bs, h0, n0) && Covered(bs, cur, offset, |buffer|)
    requires offset <= n0.fileSize && n.fileSize == Grown(n0.fileSize, offset, |buffer|)
    requires forall j: nat :: !(StartBlock(bs, offset) <= j < cur) ==> Ptr(bs, h, n, j) == Ptr(bs, h0, n0, j)
    requires forall j: nat :: StartBlock(bs, offset) <= j < cur ==> Ptr(bs, h, n, j) != EMPTY
    ensures NoHoles(bs, h, n)
  {
    hide Ptr, LastBlock, MaxBlocks;
    forall b: nat | b < MaxBlocks(bs) && b * bs < n.fileSize
      ensures Ptr(bs, h, n, b) != EMPTY
    {
      if !(StartBlock(bs, offset) <= b < cur) {
        OutsideRange(bs, b, cur, offset, |buffer|);
        assert b * bs < n0.fileSize;
      }
    }
  }

  /** A block a write passes by starts before the offset or after the range. */
  lemma OutsideRange(bs: nat, b: nat, cur: nat, offset: nat, length: nat)
    requires bs > 0 && Covered(bs, cur, offset, length) && b < MaxBlocks(bs)
    requires !(StartBlock(bs, offset) <= b < cur)
    ensures b * bs < offset || b * bs >= offset + length
  {
    hide LastBlock, MaxBlocks;
    LastBlockEnds(bs, offset, length);
    var s, e := offset / bs, LastBlock(bs, offset, length);
    if b < s {
      MulOrder(b + 1, s, bs);
      OneMore(b, bs);
    } else {
      MulOrder(e + 1, b, bs);
      OneMore(e, bs);
    }
  }

  /** A file without holes can be read anywhere inside it. */
  lemma NoHolesRead(bs: nat, h: Held, n: INode, offset: nat, length: nat)
    requires bs > 0 && NoHoles(bs, h, n) && length > 0 && offset + length <= n.fileSize
    ensures ReadsHoleFree(bs, h, n, offset, length)
  {
    hide Ptr, LastBlock, MaxBlocks;
    LastBlockEnds(bs, offset, length);
    var e := LastBlock(bs, offset, length);
    forall j: nat | j <= e && j < MaxBlocks(bs)
      ensures Ptr(bs, h, n, j) != EMPTY
    {
      MulOrder(j, e, bs);
    }
  }

  /** An empty read visits the block its offset is in. */
  lemma EmptyRead(bs: nat, h: Held, n: INode, offset: nat)
    requires bs > 0
    ensures ReadsHoleFree(bs, h, n, offset, 0) <==> offset / bs >= MaxBlocks(bs) || Ptr(bs, h, n, offset / bs) != EMPTY
  {
    hide Ptr, MaxBlocks;
    assert LastBlock(bs, offset, 0) == offset / bs;
    assert HoleFree(bs, h, n, StartBlock(bs, offset), offset / bs + 1)
           <==> offset / bs >= MaxBlocks(bs) || Ptr(bs, h, n, offset / bs) != EMPTY;
  }

  /** A read delivers the clamped slice, exactly if it meets no hole. */
  ghost predicate ReadOutcome(bs: nat, h: Held, n: INode, offset: nat, length: nat, ok: bool, buffer: seq<byte>) {
    && bs > 0 && offset <= n.fileSize
    && var size := if length > n.fileSize - offset then n.fileSize - offset else length;
       && (ok <==> ReadsHoleFree(bs, h, n, offset, size))
       && (ok ==> buffer == Contents(bs, h, n)[offset..offset + size])
  }

  /** Blocks spared by both of two files stay put. */
  ghost predicate SparedByBoth(bs: nat, h0: Held, inum: word, n0: INode, other: word, m0: INode, t0: word,
                               h: Held, n: INode, m: INode, t: word) {
    forall a :: Spared(bs, h0, inum, n0, a) && Spared(bs, h0, other, m0, a) ==>
      a in h && h[a] == h0[a]
      && (a.seg != t0 ==> a.seg != t && SteersClear(bs, h0, n0, h, n, a.seg) && SteersClear(bs, h0, m0, h, m, a.seg))
  }

  /** First file inum changes, then file `other`: what both spare is still there. */
  lemma SparedInTurn(bs: nat, h0: Held, inum: word, n0: INode, t0: word, h1: Held, n: INode, t1: word,
                     other: word, m0: INode, h2: Held, m: INode, t2: word)
    requires inum != other && INodeOk(bs, h0, other, m0) && INodeOk(bs, h1, inum, n) && EMPTY !in h0 && EMPTY !in h1
    requires SparedKept(bs, h0, inum, n0, t0, h1, n, t1) && SparedKept(bs, h1, other, m0, t1, h2, m, t2)
    ensures SparedByBoth(bs, h0, inum, n0, other, m0, t0, h2, n, m, t2)
    ensures KeepsOwned(h0, h1, other) && KeepsOwned(h1, h2, inum)
  {
    hide Ptr, INodeOkBut;
    OthersKept(bs, h0, inum, n0, t0, h1, n, t1, other);
    OthersKept(bs, h1, other, m0, t1, h2, m, t2, inum);
    hide SteersClear, Spared;
    forall a | Spared(bs, h0, inum, n0, a) && Spared(bs, h0, other, m0, a)
      ensures a in h2 && h2[a] == h0[a]
      ensures a.seg != t0 ==> a.seg != t2 && SteersClear(bs, h0, n0, h2, n, a.seg) && SteersClear(bs, h0, m0, h2, m, a.seg)
    {
      StillSpared(bs, h0, h1, other, m0, a);
      OwnedSteers(bs, h0, m0, h1, other, a.seg);
      OwnedSteers(bs, h1, n, h2, inum, a.seg);
      if a.seg != t0 {
        SteersOn(bs, h0, n0, h1, n, h2, n, a.seg);
        SteersOn(bs, h0, m0, h1, m0, h2, m, a.seg);
      }
    }
  }

  lemma StillSpared(bs: nat, h: Held, h': Held, inum: word, n: INode, a: Addr)
    requires INodeOk(bs, h, inum, n) && KeepsOwned(h, h', inum) && Spared(bs, h, inum, n, a)
    ensures a in h' && h'[a] == h[a] ==> Spared(bs, h', inum, n, a)
  {
    hide Ptr, INodeOkBut;
    PtrsKept(bs, h, h', inum, n);
  }

  /** An untouched file steers clear of everything. */
  lemma OwnedSteers(bs: nat, h: Held, n: INode, h': Held, inum: word, s: word)
    requires INodeOk(bs, h, inum, n) && KeepsOwned(h, h', inum) && EMPTY !in h
    ensures SteersClear(bs, h, n, h', n, s)
  {
  }

  lemma SteersOn(bs: nat, h0: Held, n0: INode, h1: Held, n1: INode, h2: Held, n2: INode, s: word)
    requires SteersClear(bs, h0, n0, h1, n1, s) && SteersClear(bs, h1, n1, h2, n2, s)
    ensures SteersClear(bs, h0, n0, h2, n2, s)
  {
  }

  lemma PtrsKept(bs: nat, h: Held, h': Held, inum: word, n: INode)
    requires INodeOk(bs, h, inum, n) && KeepsOwned(h, h', inum)
    ensures forall b: nat :: Ptr(bs, h', n, b) == Ptr(bs, h, n, b)
  {
  }

  lemma FileWrittenKept(bs: nat, h0: Held, n0: INode, h: Held, h': Held, n: INode, offset: nat, buffer: seq<byte>)
    requires FileWritten(bs, h0, n0, h, n, offset, buffer) && KeepsOwned(h, h', n0.inum)
    ensures FileWritten(bs, h0, n0, h', n, offset, buffer)
  {
    hide Contents, Clamped, Written, Ptr, INodeOkBut, FileBlock;
    FileKept(bs, h, h', n0.inum, n);
  }

  // ---- Giving a file's blocks back ------------------------------------------------------------

  /** The addresses an inode has room for itself. */
  ghost function OwnPointers(n: INode): set<Addr> {
    set a | a in n.direct + [n.indirect]
  }

  ghost function DirectUpTo(n: INode, b: nat): set<Addr>
    requires b <= DIRECT_BLOCKS
  {
    set a | a in n.direct[..b]
  }

  /** h is h0 without the first b direct blocks of n. */
  ghost predicate FreedDirect(h0: Held, n: INode, h: Held, b: nat) {
    b <= DIRECT_BLOCKS && h == h0 - DirectUpTo(n, b)
  }

  /** A direct pointer still to be freed is still held: it is none of those freed before. */
  lemma DirectStillHeld(bs: nat, h0: Held, n: INode, h: Held, b: nat)
    requires INodeOk(bs, h0, n.inum, n) && FreedDirect(h0, n, h, b) && b < DIRECT_BLOCKS && EMPTY !in h0
    ensures n.direct[b] != EMPTY ==> n.direct[b] in h && n.direct[b].seg != UINT_MAX
    ensures FreedDirect(h0, n, h - {n.direct[b]}, b + 1)
    ensures n.direct[b] == EMPTY ==> FreedDirect(h0, n, h, b + 1)
  {
    hide Indirects;
    forall j: nat | j < DIRECT_BLOCKS
      ensures Points(bs, h0, n.inum, j, n.direct[j])
    {
      assert Ptr(bs, h0, n, j) == n.direct[j];
    }
    assert n.direct[..b + 1] == n.direct[..b] + [n.direct[b]];
    assert DirectUpTo(n, b + 1) == DirectUpTo(n, b) + {n.direct[b]};
  }

  lemma IndirectStillHeld(bs: nat, h0: Held, n: INode, h: Held)
    requires INodeOk(bs, h0, n.inum, n) && FreedDirect(h0, n, h, DIRECT_BLOCKS) && EMPTY !in h0
    ensures n.indirect != EMPTY ==> n.indirect in h && n.indirect.seg != UINT_MAX
    ensures (if n.indirect == EMPTY then h else h - {n.indirect}) == h0 - OwnPointers(n)
  {
    hide Indirects;
    forall j: nat | j < DIRECT_BLOCKS
      ensures Points(bs, h0, n.inum, j, n.direct[j])
    {
      assert Ptr(bs, h0, n, j) == n.direct[j];
    }
    assert n.direct[..DIRECT_BLOCKS] == n.direct;
    assert OwnPointers(n) == DirectUpTo(n, DIRECT_BLOCKS) + {n.indirect};
  }

  /** Freeing what an inode points to itself keeps every other file's blocks. */
  lemma FreedOwn(bs: nat, h0: Held, n: INode)
    requires INodeOk(bs, h0, n.inum, n) && EMPTY !in h0
    ensures OthersSame(h0, h0 - OwnPointers(n), {n.inum})
    ensures forall j: word :: j != n.inum ==> KeepsOwned(h0, h0 - OwnPointers(n), j)
  {
    OwnsPointers(bs, h0, n.inum, n);
    hide Indirects;
    forall j: nat | j < DIRECT_BLOCKS
      ensures Points(bs, h0, n.inum, j, n.direct[j])
    {
      assert Ptr(bs, h0, n, j) == n.direct[j];
    }
    forall a | a in OwnPointers(n) && a in h0
      ensures h0[a].inum == n.inum || a == EMPTY
    {
    }
  }

  lemma FreedNone(h: Held, n: INode)
    ensures FreedDirect(h, n, h, 0)
  {
    assert DirectUpTo(n, 0) == {};
  }
}
