/** The file layer: inodes, the inode table kept in a file, byte-range reads and writes, and the cleaner. */
module FileLayers {
  import opened Words
  import opened FlashLayer
  import opened Segments
  import opened INodes
  import opened SegmentCaches
  import opened LogModel
  import opened LogLayer
  import opened FileModel
  import opened InodeTable
  import opened FileViews
  import opened Accounts
  import opened Cleaning
  import opened Victims

  /** Slots a write of one record takes at most: it touches two blocks, each with a data block and an indirect block. */
  const RECORD_SLOTS: nat := 4

  /** Slots it takes at most to move a live block: the block, an indirect block, and the record of its owner. */
  const MOVE_SLOTS: nat := 2 + RECORD_SLOTS

  /** Slots a File_Write takes at most. */
  function FileSlots(bs: nat, inum: nat, offset: nat, length: nat): nat
    requires bs > 0
  {
    if length == 0 then 0 else 2 * BlocksTouched(bs, offset, length) + if inum == IFILE_INUM then 0 else RECORD_SLOTS
  }

  lemma SlotsAre(bs: nat, inum: nat, offset: nat, length: nat)
    requires bs > 0 && length > 0
    ensures FileSlots(bs, inum, offset, length) == 2 * BlocksTouched(bs, offset, length) + if inum == IFILE_INUM then 0 else RECORD_SLOTS
  {
  }

  lemma RecordSlots(bs: nat, i: nat)
    requires bs >= SECTOR_SIZE && i >= 1
    ensures FileSlots(bs, IFILE_INUM, (i - 1) * INODE_BYTES, INODE_BYTES) <= RECORD_SLOTS
  {
    var o := (i - 1) * INODE_BYTES % bs;
    if o + INODE_BYTES > bs {
      var remainder := INODE_BYTES - (bs - o);
      DivMod(bs, 0, remainder);
    }
  }

  class FileLayer {
    const log: Log
    const blockSizeInBytes: nat
    const numLogAddrInBlock: nat
    const maxFileBlocks: nat
    var iFileSizeInINodes: nat

    ghost predicate Sizes() {
      && log.Separate() && log.g.Ok() && blockSizeInBytes == log.g.BlockBytes()
      && numLogAddrInBlock == PerBlock(blockSizeInBytes)
      && maxFileBlocks == MaxBlocks(blockSizeInBytes)
      && blockSizeInBytes >= SECTOR_SIZE && blockSizeInBytes % 8 == 0 && blockSizeInBytes < 0x8000_0000
    }

    /** Init, on a log that has come up. */
    constructor (log: Log)
      requires log.Valid()
      ensures this.log == log && Sizes()
      ensures iFileSizeInINodes == log.iFileINode.fileSize / INODE_BYTES
    {
      hide LogInv, Log.Structure, Geometry.Ok, Geometry.BlockBytes;
      GeometryFacts(log.g);
      this.log := log;
      var bs := log.g.BlockBytes();
      blockSizeInBytes := bs;
      numLogAddrInBlock := bs / 8;
      maxFileBlocks := 4 + bs / 8;
      iFileSizeInINodes := log.iFileINode.fileSize / INODE_BYTES;
    }

    // ---- Through the log -----------------------------------------------------------------------

    /**
     * Log_Write, ending the modelled run if the seal it made picked a tail the cache still holds. Nothing else but a tail that
     * cannot be written makes it fail. The blocks in `going` are those a caller may still give up.
     */
    method LogWrite(inum: word, fileBlock: word, ghost role: Role, buffer: seq<byte>, ghost going: set<Addr> := {}) returns (r: Outcome, a: Addr)
      requires Sizes() && log.Valid() && |buffer| == blockSizeInBytes && inum < 0x8000_0000
      modifies log.Repr
      ensures r == Done ==> log.Valid() && log.iFileINode == old(log.iFileINode)
      ensures r == Done ==> a !in old(log.held) && a.seg != UINT_MAX && a.slot != UINT_MAX
      ensures r == Done ==> log.held == old(log.held)[a := Slot(inum, Signed(fileBlock), role, buffer)]
      ensures r == Done ==> a.seg == old(log.tail.number) && OffTailKept(log.held, old(log.tail.number), log.tail.number)
      ensures r == Done <==> old(log.CanWrite()) && !log.TailCached()
      ensures r == Stale <==> old(log.CanWrite()) && log.TailCached()
      ensures Ends(r, false, 1, old(log.Stock()), log.Stock(), log.Jammed())
      ensures Flowing(r, false, 1, old(log.Stock().capacity), old(log.Flows(going)), log.Flows(going))
    {
      hide LogInv, Log.Structure, Geometry.Ok, Geometry.BlockBytes, Full, SealedFrom, Log.AfterPlace, OffTailKept, FreeSlots,
           WornBy, Capacity, Log.OnDisk, Open, SealPaced;
      GeometryFacts(log.g);
      TailFree(log.g, log.State());
      TailCapacity(log.g, log.tail, log.tail, log.live);
      log.RoomInCache();
      ghost var st := log.AfterPlace(inum, Signed(fileBlock), role, buffer);
      r, a := log.Write(inum, fileBlock, role, buffer);
      if r == Done {
        if old(log.Flows(going)) {
          OpenPlaced(log.g, old(log.held), old(log.cache.queue), old(log.unwritten), old(log.tail.number), going, a,
                     Slot(inum, Signed(fileBlock), role, buffer));
          if Full(log.g, st.tail) {
            SealedHolds(log.g, st, log.State(), log.cache.size);
            OpenSealed(log.g, st, log.State(), log.cache.size, old(log.unwritten), going, a);
            if log.tail.number != FLASH_FULL {
              log.UnwrittenTail();
            }
          }
        }
        var stale := log.cache.ContainsEntry(log.tail.number);
        if stale {
          r := Stale;
        }
      }
    }

    /** Log_Read of a held block: it cannot fail, and only the cache's order changes. */
    method LogRead(a: Addr) returns (r: Outcome, block: seq<byte>)
      requires log.Valid() && a in log.held
      modifies log.cache
      ensures log.Valid() && r == Done && block == log.held[a].data
      ensures CachesHeld(log.held, old(log.cache.queue), log.cache.queue)
    {
      hide LogInv, Log.Structure, Geometry.Ok, Geometry.BlockBytes, Log.Source;
      HeldInRange(log.g, log.State());
      SourceStores(log.g, log.State(), a.seg);
      hide AfterLookup, CachesHeld;
      log.RoomInCache();
      ghost var queue := log.cache.queue;
      r, block := log.Read(a);
      LookupHeld(log.held, a, queue, log.cache.queue, log.cache.size, log.tail.number);
    }

    // ---- Block pointers --------------------------------------------------------------------------

    /** Every address the log hands out differs from the empty one. */
    lemma NoEmptyHeld()
      requires log.Valid() && Sizes()
      ensures forall a :: a in log.held ==> a.seg != UINT_MAX && a.slot != UINT_MAX
    {
      hide LogInv, Log.Structure, Geometry.Ok, Geometry.BlockBytes;
      HeldInRange(log.g, log.State());
      GeometryFacts(log.g);
    }

    method ReadIndirectBlocks(addr: Addr) returns (r: Outcome, addrs: seq<Addr>)
      requires Sizes() && log.Valid() && addr in log.held && |log.held[addr].data| == blockSizeInBytes
      modifies log.cache
      ensures log.Valid() && r == Done && addrs == DecodeAddrs(log.held[addr].data) && |addrs| == numLogAddrInBlock
      ensures CachesHeld(log.held, old(log.cache.queue), log.cache.queue)
    {
      hide Geometry.Ok, Geometry.BlockBytes, Log.Valid;
      var block;
      r, block := LogRead(addr);
      addrs := DecodeAddrs(block);
    }

    /**
     * GetBlockAddress. The bound it checks is one too large: the block just past the largest file is read off the end of
     * the indirect table, if there is one. Anything further aborts.
     */
    method GetBlockAddress(n: INode, b: nat) returns (r: Outcome, a: Addr)
      requires Sizes() && log.Valid() && IndirectOk(blockSizeInBytes, log.held, n.inum, n)
      modifies log.cache
      ensures log.Valid() && (r == Done || r == Thrown)
      ensures r == Done <==> b < maxFileBlocks || (b == maxFileBlocks && n.indirect.seg == UINT_MAX)
      ensures r == Done ==> a == Ptr(blockSizeInBytes, log.held, n, b)
      ensures CachesHeld(log.held, old(log.cache.queue), log.cache.queue)
    {
      hide Geometry.Ok, Geometry.BlockBytes, Log.Valid, DecodeAddrs;
      a := EMPTY;
      if b < DIRECT_BLOCKS {
        return Done, n.direct[b];
      }
      if b > numLogAddrInBlock + DIRECT_BLOCKS {
        return Thrown, a;
      }
      if n.indirect.seg == UINT_MAX {
        return Done, EMPTY;
      }
      var addrs;
      r, addrs := ReadIndirectBlocks(n.indirect);
      if b - DIRECT_BLOCKS >= |addrs| {
        return Thrown, a;
      }
      a := addrs[b - DIRECT_BLOCKS];
    }

    /**
     * UpdateINodeBlock: a direct pointer is set in place, an indirect one through a rewritten indirect block. The indirect
     * block it replaces is not freed.
     */
    method UpdateINodeBlock(n: INode, b: nat, a: Addr, ghost going: set<Addr> := {}) returns (r: Outcome, n': INode)
      requires Sizes() && log.Valid() && IndirectOk(blockSizeInBytes, log.held, n.inum, n)
      requires b < maxFileBlocks && n.inum < 0x8000_0000
      modifies log.Repr
      ensures r == Done ==> log.Valid() && log.iFileINode == old(log.iFileINode)
      ensures r == Done && b < DIRECT_BLOCKS ==>
                n' == n.(direct := n.direct[b := a]) && log.held == old(log.held) && log.tail == old(log.tail)
      ensures r == Done && b >= DIRECT_BLOCKS ==>
                && n' == n.(indirect := n'.indirect) && n'.indirect !in old(log.held) && n'.indirect.seg != UINT_MAX
                && log.held == old(log.held)[n'.indirect :=
                     Slot(n.inum, Signed(n.indirect.slot), Indirect,
                          EncodeAddrs(Indirects(blockSizeInBytes, old(log.held), n)[b - DIRECT_BLOCKS := a]))]
                && n'.indirect.seg == old(log.tail.number) && OffTailKept(log.held, old(log.tail.number), log.tail.number)
                && (n.indirect != EMPTY ==> n.indirect in log.held && n.indirect != n'.indirect)
      ensures Ends(r, false, if b < DIRECT_BLOCKS then 0 else 1, old(log.Stock()), log.Stock(), log.Jammed())
      ensures Flowing(r, false, if b < DIRECT_BLOCKS then 0 else 1, old(log.Stock().capacity), old(log.Flows(going)), log.Flows(going))
    {
      hide Geometry.Ok, Geometry.BlockBytes, Log.Valid, DecodeAddrs, EncodeAddrs, OffTailKept;
      if b < DIRECT_BLOCKS {
        return Done, n.(direct := n.direct[b := a]);
      }
      var addrs;
      if n.indirect.seg == UINT_MAX {
        addrs := NoAddrs(blockSizeInBytes);
      } else {
        r, addrs := ReadIndirectBlocks(n.indirect);
      }
      assert addrs == Indirects(blockSizeInBytes, log.held, n);
      addrs := addrs[b - DIRECT_BLOCKS := a];
      var table;
      r, table := LogWrite(n.inum, n.indirect.slot, Indirect, EncodeAddrs(addrs), going);
      n' := n.(indirect := table);
    }

    /** Log_Write of a data block, then UpdateINodeBlock: the pair File_Write and CleanSegment share. */
    method WriteAndLink(n: INode, b: nat, block: seq<byte>, ghost going: set<Addr> := {}) returns (r: Outcome, n': INode)
      requires Sizes() && log.Valid() && INodeOkBut(blockSizeInBytes, log.held, n.inum, n, b)
      requires b < maxFileBlocks && n.inum < 0x8000_0000 && |block| == blockSizeInBytes
      modifies log.Repr
      ensures r == Done ==> log.Valid() && log.iFileINode == old(log.iFileINode)
      ensures r == Done ==> Relinked(blockSizeInBytes, old(log.held), n, log.held, n', b, block)
      ensures r == Done ==> Steered(blockSizeInBytes, old(log.held), n, old(log.tail.number), log.held, n', log.tail.number)
      ensures r == Done ==> Ptr(blockSizeInBytes, log.held, n', b).seg == old(log.tail.number)
      ensures Ends(r, false, 2, old(log.Stock()), log.Stock(), log.Jammed())
      ensures Flowing(r, false, 2, old(log.Stock().capacity), old(log.Flows(going)), log.Flows(going))
    {
      hide Geometry.Ok, Geometry.BlockBytes, Log.Valid, DecodeAddrs, EncodeAddrs, Relinked, Indirects, Ptr, Steered,
           OffTailKept;
      var a;
      ghost var h0 := log.held;
      r, a := LogWrite(n.inum, b, Data(b), block, going);
      n' := n;
      if r != Done {
        return;
      }
      ghost var t0, h1, t1 := old(log.tail.number), log.held, log.tail.number;
      assert KeepsOwned(h0, log.held, n.inum);
      IndirectsKept(blockSizeInBytes, h0, log.held, n.inum, n);
      ghost var was := n.indirect.slot;
      r, n' := UpdateINodeBlock(n, b, a, going);
      if r != Done {
        return;
      }
      if b < DIRECT_BLOCKS {
        LinkDirect(blockSizeInBytes, h0, n, b, a, block);
      } else {
        LinkIndirect(blockSizeInBytes, h0, n, b, a, block, n'.indirect, Signed(was));
      }
      LinkSteered(blockSizeInBytes, h0, n, t0, h1, t1, log.held, n', log.tail.number, b, a, block);
    }

    /** Exactly one of the two halves of an address being UINT_MAX. */
    predicate Malformed(a: Addr) {
      (a.seg == UINT_MAX) != (a.slot == UINT_MAX)
    }

    // ---- Runs of blocks --------------------------------------------------------------------------

    /** One iteration of File_Write's loop: fetch the old block, free it, lay the bytes over it, write and link the result. */
    method OverwriteBlock(n: INode, b: nat, blockOffset: nat, bytes: seq<byte>, ghost going: set<Addr> := {}) returns (r: Outcome, n': INode)
      requires Sizes() && log.Valid() && INodeOk(blockSizeInBytes, log.held, n.inum, n)
      requires b < maxFileBlocks && n.inum < 0x8000_0000 && blockOffset + |bytes| <= blockSizeInBytes
      modifies log.Repr
      ensures r == Done ==> log.Valid() && log.iFileINode == old(log.iFileINode)
      ensures r == Done ==>
        Replaced(blockSizeInBytes, old(log.held), n, old(log.tail.number), log.held, n', log.tail.number, b,
                 Spliced(FileBlock(blockSizeInBytes, old(log.held), n, b), blockOffset, bytes))
      ensures Ends(r, false, 2, old(log.Stock()), log.Stock(), log.Jammed())
      ensures var old' := BlockAlone(old(Ptr(blockSizeInBytes, log.held, n, b)));
              Flowing(r, false, 2, old(log.Stock().capacity), old(log.FlowsGiving(going, old')), log.FlowsWithout(going, old'))
    {
      hide Geometry.Ok, Geometry.BlockBytes, Log.Valid, Relinked, Replaced, Indirects, Ptr, Spliced, Steered,
           INodeOkBut, AfterFree, FileBlock;
      hide Log.Stock, Log.Jammed, Log.Flows, Log.FlowsAt, Log.FlowsGiving, Log.FlowsWithout, CachesHeld, Covers, Ends, Flowing, BlockAlone;
      ghost var bs, h0, t0, s0, queue := blockSizeInBytes, log.held, log.tail.number, log.Stock(), log.cache.queue;
      ghost var alone := BlockAlone(Ptr(bs, h0, n, b));
      ghost var flows := log.FlowsGiving(going, alone);
      if flows {
        log.GivingAt(going, alone);
      }
      n' := n;
      NoEmptyHeld();
      PointerAt(bs, h0, n, b);
      var a;
      r, a := GetBlockAddress(n, b);
      if Malformed(a) {
        return Failed, n';
      }
      if flows {
        log.FlowsCached(queue, going);
        log.GivesCovered(going, alone);
      }
      var block := TakeOut(a, going);
      ghost var s1, j1, mid := log.Stock(), log.Jammed(), log.Flows(going - alone);
      FreedButOne(bs, h0, n, b);
      ghost var h1 := log.held;
      block := Spliced(block, blockOffset, bytes);
      r, n' := WriteAndLink(n, b, block, going - alone);
      EndsThen(0, s0, s1, j1, r, false, 2, log.Stock(), log.Jammed());
      FlowingThen(0, s0, s1, j1, flows, mid, r, false, 2, log.Flows(going - alone));
      log.WithoutIs(going, alone);
      if r == Done {
        ReplacedBy(bs, h0, n, t0, h1, log.held, n', log.tail.number, b, block);
      }
    }

    /** The block a pointer names, if any. */
    ghost function BlockAlone(a: Addr): set<Addr> {
      if a == EMPTY then {} else {a}
    }

    /** The old block, which is freed, or zeros where there was none. */
    method TakeOut(a: Addr, ghost going: set<Addr>) returns (block: seq<byte>)
      requires Sizes() && log.Valid()
      requires a == EMPTY || (a.seg != UINT_MAX && a in log.held && |log.held[a].data| == blockSizeInBytes)
      modifies log.Repr
      ensures log.Valid() && log.held == if a == EMPTY then old(log.held) else old(log.held) - {a}
      ensures log.tail.number == old(log.tail.number) && log.iFileINode == old(log.iFileINode)
      ensures block == if a == EMPTY then Zeros(blockSizeInBytes) else old(log.held)[a].data
      ensures Ends(Done, false, 0, old(log.Stock()), log.Stock(), log.Jammed())
      ensures old(log.FlowsGiving(going, BlockAlone(a))) ==> log.Flows(going - BlockAlone(a))
    {
      hide Geometry.Ok, Geometry.BlockBytes, Log.Valid, Log.Stock, Log.Jammed, Ends, CachesHeld, Log.FlowsAt;
      block := Zeros(blockSizeInBytes);
      NothingYet(log.Stock(), log.Jammed());
      if a.seg != UINT_MAX {
        ghost var queue := log.cache.queue;
        var r;
        r, block := LogRead(a);
        if old(log.FlowsGiving(going, BlockAlone(a))) {
          log.FlowsCached(queue, going);
        }
        FreeBlock(a, going);
      } else {
        assert going - {} == going;
      }
    }

    /** Log_Free of a held block. */
    method FreeBlock(a: Addr, ghost going: set<Addr> := {})
      requires log.Separate() && log.Valid() && a in log.held
      modifies log.Repr
      ensures log.Valid() && log.held == old(log.held) - {a}
      ensures log.tail.number == old(log.tail.number) && log.iFileINode == old(log.iFileINode)
      ensures Ends(Done, false, 0, old(log.Stock()), log.Stock(), log.Jammed())
      ensures old(log.Flows(going)) && a in going ==> log.Flows(going - {a})
    {
      hide Geometry.Ok, Geometry.BlockBytes, Log.Ready, Log.TailCached, Open, Capacity, FreeSlots, Log.OnDisk;
      if log.Flows(going) && a in going {
        OpenFreed(log.g, log.held, log.cache.queue, log.unwritten, log.tail.number, going, a);
      }
      log.Free(a);
    }

    /** The four cases of where a block's share of the range starts and how long it is. */
    method BlockShare(b: nat, offset: nat, length: nat, remaining: nat) returns (blockOffset: nat, shareLength: nat)
      requires blockSizeInBytes > 0
      requires StartBlock(blockSizeInBytes, offset) <= b <= LastBlock(blockSizeInBytes, offset, length)
      requires remaining == length - Skipped(blockSizeInBytes, b, offset)
      ensures blockOffset == From(blockSizeInBytes, b, offset) && shareLength == Share(blockSizeInBytes, b, offset, length)
    {
      ShareFacts(blockSizeInBytes, b, offset, length);
      ShareCases(blockSizeInBytes, b, offset, length);
      hide StartBlock, LastBlock, BlocksTouched, From, Skipped, Share;
      if BlocksTouched(blockSizeInBytes, offset, length) == 1 {
        blockOffset := offset % blockSizeInBytes;
        shareLength := length;
      } else if b == StartBlock(blockSizeInBytes, offset) {
        blockOffset := offset % blockSizeInBytes;
        shareLength := blockSizeInBytes - blockOffset;
      } else if b == LastBlock(blockSizeInBytes, offset, length) {
        blockOffset := 0;
        shareLength := remaining;
      } else {
        blockOffset := 0;
        shareLength := blockSizeInBytes;
      }
    }

    /** One block of a write: cut the share out of the buffer and lay it over the old block. */
    method WriteShare(n: INode, b: nat, offset: nat, buffer: seq<byte>, bufferOffset: nat, ghost going: set<Addr> := {})
      returns (r: Outcome, n': INode, writeLength: nat)
      requires Sizes() && log.Valid() && INodeOk(blockSizeInBytes, log.held, n.inum, n)
      requires n.inum < 0x8000_0000 && |buffer| > 0 && b < maxFileBlocks
      requires StartBlock(blockSizeInBytes, offset) <= b <= LastBlock(blockSizeInBytes, offset, |buffer|)
      requires bufferOffset == Skipped(blockSizeInBytes, b, offset)
      modifies log.Repr
      ensures writeLength == Share(blockSizeInBytes, b, offset, |buffer|)
      ensures r == Done ==> log.Valid() && log.iFileINode == old(log.iFileINode)
      ensures r == Done ==>
        Replaced(blockSizeInBytes, old(log.held), n, old(log.tail.number), log.held, n', log.tail.number, b,
                 Overwritten(blockSizeInBytes, FileBlock(blockSizeInBytes, old(log.held), n, b), b, offset, buffer))
      ensures Ends(r, false, 2, old(log.Stock()), log.Stock(), log.Jammed())
      ensures var old' := BlockAlone(old(Ptr(blockSizeInBytes, log.held, n, b)));
              Flowing(r, false, 2, old(log.Stock().capacity), old(log.FlowsGiving(going, old')), log.FlowsWithout(going, old'))
    {
      hide Geometry.Ok, Geometry.BlockBytes, Log.Valid, Replaced, Ptr, FileBlock, Spliced, Overwritten, INodeOk,
           MaxBlocks;
      hide StartBlock, LastBlock, BlocksTouched, From, Skipped, Share;
      ShareFacts(blockSizeInBytes, b, offset, |buffer|);
      var blockOffset;
      blockOffset, writeLength := BlockShare(b, offset, |buffer|, |buffer| - bufferOffset);
      OverwrittenIs(blockSizeInBytes, FileBlock(blockSizeInBytes, log.held, n, b), b, offset, buffer);
      r, n' := OverwriteBlock(n, b, blockOffset, buffer[bufferOffset..bufferOffset + writeLength], going);
    }

    /** The loop of File_Write. Blocks past the largest file are silently dropped. */
    method WriteBlocks(n: INode, offset: nat, buffer: seq<byte>, ghost going: set<Addr> := {}) returns (r: Outcome, n': INode, ghost cur: nat)
      requires Sizes() && log.Valid() && INodeOk(blockSizeInBytes, log.held, n.inum, n)
      requires n.inum < 0x8000_0000 && |buffer| > 0
      modifies log.Repr
      ensures r == Done ==> log.Valid() && log.iFileINode == old(log.iFileINode)
      ensures r == Done ==>
        Writing(blockSizeInBytes, old(log.held), n, old(log.tail.number), log.held, n', log.tail.number,
                cur, offset, buffer)
      ensures r == Done ==> Covered(blockSizeInBytes, cur, offset, |buffer|)
      ensures Ends(r, false, 2 * BlocksTouched(blockSizeInBytes, offset, |buffer|), old(log.Stock()), log.Stock(), log.Jammed())
      ensures var old' := old(WrittenOver(blockSizeInBytes, log.held, n.inum, offset, |buffer|));
              Flowing(r, false, 2 * BlocksTouched(blockSizeInBytes, offset, |buffer|), old(log.Stock().capacity),
                      old(log.FlowsGiving(going, old')), log.FlowsWithout(going, old'))
    {
      hide Geometry.Ok, Geometry.BlockBytes, Log.Valid, Replaced, Writing, Ptr, FileBlock, Overwritten, INodeOk,
           MaxBlocks;
      hide StartBlock, LastBlock, From, Skipped, Share, Log.Stock, Log.Jammed, Log.Flows, Log.FlowsGiving, Log.FlowsWithout, Ends, Flowing,
           WrittenOver, WrittenOverUpTo;
      ghost var bs, h0, t0 := blockSizeInBytes, log.held, log.tail.number;
      var startBlock := StartBlock(blockSizeInBytes, offset);
      var endBlock := startBlock + BlocksTouched(blockSizeInBytes, offset, |buffer|) - 1;
      LastBlockIs(bs, offset, |buffer|);
      ghost var touched := BlocksTouched(bs, offset, |buffer|);
      hide BlocksTouched;
      NoEmptyHeld();
      NothingYet(log.Stock(), log.Jammed());
      ghost var replaced := WrittenOver(bs, h0, n.inum, offset, |buffer|);
      ghost var flows := log.FlowsGiving(going, replaced);
      if flows {
        log.WithoutNone(going, replaced);
        log.WithoutMore(going, {}, WrittenOverUpTo(bs, h0, n.inum, offset, startBlock));
      }
      WritingStarts(bs, h0, n, t0, offset, buffer);
      ShareFacts(bs, startBlock, offset, |buffer|);
      var bufferOffset := 0;
      var b := startBlock;
      r, n', cur := Done, n, b;
      while b <= endBlock
        invariant startBlock <= b <= endBlock + 1 && cur == b && r == Done
        invariant b <= endBlock ==> bufferOffset == Skipped(bs, b, offset)
        invariant log.Valid() && log.iFileINode == old(log.iFileINode)
        invariant Ends(Done, false, 2 * (b - startBlock), old(log.Stock()), log.Stock(), log.Jammed())
        invariant flows ==> log.FlowsWithout(going, WrittenOverUpTo(bs, h0, n.inum, offset, b))
        invariant n'.inum == n.inum && INodeOk(bs, log.held, n'.inum, n')
        invariant Writing(bs, h0, n, t0, log.held, n', log.tail.number, b, offset, buffer)
      {
        if b >= maxFileBlocks {
          break;
        }
        ShareFacts(bs, b, offset, |buffer|);
        NoEmptyHeld();
        ghost var before, alone := WrittenOverUpTo(bs, h0, n.inum, offset, b), BlockAlone(Ptr(blockSizeInBytes, log.held, n', b));
        NextWrittenOver(bs, h0, n, offset, |buffer|, b);
        WritingAt(bs, h0, n, t0, log.held, n', log.tail.number, b, offset, buffer);
        if flows {
          log.WithoutFirst(going, before, alone);
        }
        ghost var h1, n1, t1, s1, j1, mid := log.held, n', log.tail.number, log.Stock(), log.Jammed(), log.FlowsGiving(going - before, alone);
        var writeLength;
        r, n', writeLength := WriteShare(n', b, offset, buffer, bufferOffset, going - before);
        ghost var still := log.FlowsWithout(going - before, alone);
        EndsThen(2 * (b - startBlock), old(log.Stock()), s1, j1, r, false, 2, log.Stock(), log.Jammed());
        FlowingThen(2 * (b - startBlock), old(log.Stock()), s1, j1, flows, mid, r, false, 2, still);
        if r != Done {
          EndsWithin(2 * (b + 1 - startBlock), 2 * touched, r, false, false, old(log.Stock()), log.Stock(), log.Jammed());
          FlowingWithin(2 * (b + 1 - startBlock), 2 * touched, r, false, false, old(log.Stock()).capacity, flows, still, flows,
                        log.FlowsWithout(going, replaced));
          return;
        }
        if flows {
          log.WithoutBoth(going, before, alone, WrittenOverUpTo(bs, h0, n.inum, offset, b + 1));
        }
        WritingStep(bs, h0, n, t0, h1, n1, t1, log.held, n', log.tail.number, b, offset, buffer);
        WritingInode(bs, h0, n, t0, log.held, n', log.tail.number, b + 1, offset, buffer);
        bufferOffset := bufferOffset + writeLength;
        b := b + 1;
        cur := b;
      }
      EndsWithin(2 * (b - startBlock), 2 * touched, r, false, false, old(log.Stock()), log.Stock(), log.Jammed());
      WrittenOverWithin(bs, h0, n.inum, offset, |buffer|, b);
      if flows {
        log.WithoutMore(going, WrittenOverUpTo(bs, h0, n.inum, offset, b), replaced);
      }
      FlowsOn(r, 2 * touched, old(log.Stock()).capacity, flows, log.FlowsWithout(going, replaced));
    }

    /** One block of a read: an unwritten block fails, any other is delivered whole. */
    method FetchBlock(n: INode, b: nat) returns (r: Outcome, block: seq<byte>)
      requires Sizes() && log.Valid() && INodeOk(blockSizeInBytes, log.held, n.inum, n) && b < maxFileBlocks
      modifies log.cache
      ensures log.Valid() && (r == Done || r == Failed)
      ensures r == Done <==> Ptr(blockSizeInBytes, log.held, n, b) != EMPTY
      ensures |block| == blockSizeInBytes
      ensures r == Done ==> block == FileBlock(blockSizeInBytes, log.held, n, b)
      ensures CachesHeld(log.held, old(log.cache.queue), log.cache.queue)
    {
      hide Geometry.Ok, Geometry.BlockBytes, Log.Valid, Indirects, Ptr, INodeOkBut;
      block := Zeros(blockSizeInBytes);
      PointerAt(blockSizeInBytes, log.held, n, b);
      var a;
      r, a := GetBlockAddress(n, b);
      if Malformed(a) {
        return Failed, block;
      }
      if a.seg == UINT_MAX {
        return Failed, block;
      }
      r, block := LogRead(a);
    }

    /** One block of a read copied into the caller's buffer. */
    method ReadShare(n: INode, b: nat, offset: nat, buffer: seq<byte>, bufferOffset: nat)
      returns (r: Outcome, buffer': seq<byte>, done: nat)
      requires Sizes() && log.Valid() && INodeOk(blockSizeInBytes, log.held, n.inum, n) && b < maxFileBlocks
      requires StartBlock(blockSizeInBytes, offset) <= b <= LastBlock(blockSizeInBytes, offset, |buffer|)
      requires bufferOffset == Skipped(blockSizeInBytes, b, offset)
      requires Reading(blockSizeInBytes, log.held, n, offset, bufferOffset, buffer)
      modifies log.cache
      ensures log.Valid() && (r == Done || r == Failed) && |buffer'| == |buffer|
      ensures r == Done <==> Ptr(blockSizeInBytes, log.held, n, b) != EMPTY
      ensures r == Done ==> Reading(blockSizeInBytes, log.held, n, offset, done, buffer')
      ensures if b == LastBlock(blockSizeInBytes, offset, |buffer|) then done == |buffer|
              else done == Skipped(blockSizeInBytes, b + 1, offset)
      ensures CachesHeld(log.held, old(log.cache.queue), log.cache.queue)
    {
      hide Geometry.Ok, Geometry.BlockBytes, Log.Valid, Ptr, FileBlock, INodeOk, MaxBlocks, StartBlock, LastBlock,
           From, Skipped, Share, Reading;
      hide Spliced;
      ShareFacts(blockSizeInBytes, b, offset, |buffer|);
      var blockOffset, copyLength := BlockShare(b, offset, |buffer|, |buffer| - bufferOffset);
      done := bufferOffset + copyLength;
      buffer' := buffer;
      ReadingStep(blockSizeInBytes, log.held, n, offset, b, buffer);
      var block;
      r, block := FetchBlock(n, b);
      if r == Done {
        buffer' := Spliced(buffer, bufferOffset, block[blockOffset..blockOffset + copyLength]);
      }
    }

    /** The loop of File_Read: it fails exactly at a block that was never written, and stops at the largest file's end. */
    method ReadBlocks(n: INode, offset: nat, length: nat) returns (r: Outcome, buffer: seq<byte>)
      requires Sizes() && log.Valid() && INodeOk(blockSizeInBytes, log.held, n.inum, n)
      requires offset + length <= n.fileSize
      modifies log.cache
      ensures log.Valid() && (r == Done || r == Failed)
      ensures r == Done <==> ReadsHoleFree(blockSizeInBytes, log.held, n, offset, length)
      ensures r == Done ==> buffer == Contents(blockSizeInBytes, log.held, n)[offset..offset + length]
      ensures CachesHeld(log.held, old(log.cache.queue), log.cache.queue)
    {
      hide Geometry.Ok, Geometry.BlockBytes, Log.Valid, Ptr, FileBlock, INodeOk, MaxBlocks, Contents, ByteAt;
      hide StartBlock, LastBlock, From, Skipped, Share, Reading, Spliced, INodeOkBut;
      ghost var bs := blockSizeInBytes;
      buffer := Zeros(length);
      var startBlock := StartBlock(blockSizeInBytes, offset);
      var endBlock := startBlock + BlocksTouched(blockSizeInBytes, offset, length) - 1;
      LastBlockIs(bs, offset, length);
      hide BlocksTouched;
      ShareFacts(bs, startBlock, offset, length);
      ReadingStarts(bs, log.held, n, offset, length);
      var bufferOffset := 0;
      var b := startBlock;
      while b <= endBlock
        invariant startBlock <= b <= endBlock + 1 && |buffer| == length
        invariant b <= endBlock ==> bufferOffset == Skipped(bs, b, offset)
        invariant b > endBlock ==> bufferOffset == length
        invariant log.Valid() && HoleFree(bs, log.held, n, startBlock, b) && CachesHeld(log.held, old(log.cache.queue), log.cache.queue)
        invariant Reading(bs, log.held, n, offset, bufferOffset, buffer)
      {
        if b >= maxFileBlocks {
          PastTheEnd(bs, b, offset, length);
          break;
        }
        r, buffer, bufferOffset := ReadShare(n, b, offset, buffer, bufferOffset);
        if r != Done {
          return;
        }
        b := b + 1;
      }
      ReadingEnds(bs, log.held, n, offset, bufferOffset, buffer);
      return Done, buffer;
    }

    // ---- The inode table -------------------------------------------------------------------------

    /** The table file can be read: it holds `count` whole records. */
    ghost predicate TableFile(count: nat)
      requires log.Separate()
      reads log`held, log`iFileINode
    {
      IFileOk(blockSizeInBytes, log.held, log.iFileINode, count)
    }

    ghost function EntryOf(inum: nat): INode
      requires blockSizeInBytes > 0
      reads log`held, log`iFileINode
    {
      Entry(blockSizeInBytes, log.held, log.iFileINode, inum)
    }

    /** An inum the layer knows has a record, and that record owns its blocks. */
    ghost predicate Known(inum: word, count: nat)
      requires blockSizeInBytes > 0
      reads this, log`held, log`iFileINode
    {
      inum <= iFileSizeInINodes ==> inum <= count && INodeOk(blockSizeInBytes, log.held, inum, EntryOf(inum))
    }

    /** GetINode: inode 0 is in memory, any other is read out of the table file. */
    method GetINode(inum: word, ghost count: nat) returns (r: Outcome, n: INode)
      requires Sizes() && log.Valid() && TableFile(count) && (inum <= iFileSizeInINodes ==> inum <= count)
      modifies log.cache
      decreases if inum == 0 then 0 else 1, 0
      ensures log.Valid()
      ensures if inum > iFileSizeInINodes then r == Thrown else r == Done && n == EntryOf(inum)
      ensures CachesHeld(log.held, old(log.cache.queue), log.cache.queue)
    {
      hide Geometry.Ok, Geometry.BlockBytes, Log.Valid, INodeOkBut, Contents, MaxBlocks, ReadsHoleFree, EncodeINode,
           DecodeINode, NoHoles;
      n := log.iFileINode;
      if inum > iFileSizeInINodes {
        return Thrown, n;
      }
      if inum == IFILE_INUM {
        return Done, n;
      }
      EntryZero(blockSizeInBytes, log.held, log.iFileINode);
      NoHolesRead(blockSizeInBytes, log.held, log.iFileINode, (inum - 1) * INODE_BYTES, INODE_BYTES);
      var buffer;
      r, buffer := FileRead(IFILE_INUM, (inum - 1) * INODE_BYTES, INODE_BYTES, count);
      if r != Done {
        return Thrown, n;
      }
      n := DecodeINode(buffer);
    }

    /** File_Read: the clamped slice of the file's contents, or an exact failure. */
    method FileRead(inum: word, offset: nat, length: nat, ghost count: nat) returns (r: Outcome, buffer: seq<byte>)
      requires Sizes() && log.Valid() && TableFile(count) && Known(inum, count)
      requires inum <= iFileSizeInINodes && EntryOf(inum).inUse ==> offset <= EntryOf(inum).fileSize
      modifies log.cache
      decreases if inum == 0 then 0 else 1, 1
      ensures log.Valid()
      ensures length == 0 ==> r == Done && buffer == []
      ensures length > 0 && inum > iFileSizeInINodes ==> r == Thrown
      ensures length > 0 && inum <= iFileSizeInINodes && !EntryOf(inum).inUse ==> r == Failed
      ensures length > 0 && inum <= iFileSizeInINodes && EntryOf(inum).inUse ==>
                (r == Done || r == Failed)
                && ReadOutcome(blockSizeInBytes, log.held, EntryOf(inum), offset, length, r == Done, buffer)
      ensures CachesHeld(log.held, old(log.cache.queue), log.cache.queue)
    {
      hide Geometry.Ok, Geometry.BlockBytes, Log.Valid, INodeOk, Contents, ReadsHoleFree, Entry, IFileOk;
      buffer := [];
      if length == 0 {
        return Done, buffer;
      }
      var n;
      r, n := GetINode(inum, count);
      if r != Done {
        return Thrown, buffer;
      }
      if !n.inUse {
        return Failed, buffer;
      }
      KnownInum(blockSizeInBytes, log.held, inum, n);
      var size := if length > n.fileSize - offset then n.fileSize - offset else length;
      r, buffer := ReadBlocks(n, offset, size);
    }

    /** UpdateIFile: inode 0 is set in memory, any other is written into the table file. */
    method UpdateIFile(n: INode, ghost count: nat, ghost going: set<Addr> := {}) returns (r: Outcome)
      requires Sizes() && log.Valid() && n.inum < 0x8000_0000
      requires n.inum != IFILE_INUM ==> TableFile(count) && n.inum <= count + 1 && Fits(blockSizeInBytes, n.inum)
      requires n.inum == IFILE_INUM ==> PointersHeld(log.held, n)
      modifies log.Repr
      decreases if n.inum == 0 then 0 else 1, 2
      ensures n.inum == IFILE_INUM ==>
                r == Done && log.Valid() && log.iFileINode == n && log.held == old(log.held) && log.tail == old(log.tail)
      ensures n.inum != IFILE_INUM && r == Done ==>
                && log.Valid() && TableFile(if n.inum > count then n.inum else count)
                && EntryUpdated(blockSizeInBytes, old(log.held), old(log.iFileINode), log.held, log.iFileINode, count, n.inum, n)
                && SparedKept(blockSizeInBytes, old(log.held), IFILE_INUM, old(log.iFileINode), old(log.tail.number),
                           log.held, log.iFileINode, log.tail.number)
                && Account(blockSizeInBytes, old(log.held), old(log.iFileINode), log.held, log.iFileINode, RecordTables(blockSizeInBytes, n.inum))
                && OthersSame(old(log.held), log.held, {IFILE_INUM})
      ensures Ends(r, false, if n.inum == IFILE_INUM then 0 else RECORD_SLOTS, old(log.Stock()), log.Stock(), log.Jammed())
      ensures var old' := old(RecordReplaced(blockSizeInBytes, log.held, n.inum));
              Flowing(r, false, if n.inum == IFILE_INUM then 0 else RECORD_SLOTS, old(log.Stock().capacity),
                      old(log.FlowsGiving(going, old')), log.FlowsWithout(going, old'))
    {
      hide Geometry.Ok, Geometry.BlockBytes, Log.Valid, INodeOkBut, Contents, Entry, EncodeINode, Ptr, NoHoles,
           SparedKept, MaxBlocks, Account, OthersSame, TablesIn;
      hide IFileOk, Fits, FileWritten, EntryUpdated, INodeOk, FileSlots, Log.Stock;
      if n.inum == IFILE_INUM {
        log.UpdateIFileINode(n);
        return Done;
      }
      ghost var bs, h0, if0 := blockSizeInBytes, log.held, log.iFileINode;
      IFileFacts(bs, h0, if0, count);
      FitsFacts(bs, n.inum);
      RecordSlots(bs, n.inum);
      r := FileWrite(IFILE_INUM, (n.inum - 1) * INODE_BYTES, EncodeINode(n), count, going);
      if r == Done {
        EntryZero(bs, log.held, log.iFileINode);
        TableWritten(bs, h0, if0, log.held, log.iFileINode, count, n.inum, n);
      }
    }

    /** File_Write: one splice of the file's bytes; every other inode and every block both files spare stay as they were. */
    method FileWrite(inum: word, offset: nat, buffer: seq<byte>, ghost count: nat, ghost going: set<Addr> := {}) returns (r: Outcome)
      requires Sizes() && log.Valid() && TableFile(count) && Known(inum, count)
      requires inum < 0x8000_0000 && offset + |buffer| < 0x1_0000_0000
      modifies log.Repr
      decreases if inum == 0 then 0 else 1, 4
      ensures buffer == [] ==> r == Done && log.Valid() && log.held == old(log.held) && log.iFileINode == old(log.iFileINode)
                               && log.tail == old(log.tail)
      ensures buffer != [] && inum > iFileSizeInINodes ==> r == Thrown
      ensures buffer != [] && inum <= iFileSizeInINodes && offset > old(EntryOf(inum)).fileSize ==>
                r == Failed && log.Valid() && log.held == old(log.held) && log.iFileINode == old(log.iFileINode)
      ensures buffer != [] && r == Done ==>
                log.Valid() && FileWritten(blockSizeInBytes, old(log.held), old(EntryOf(inum)), log.held, EntryOf(inum), offset, buffer)
      ensures buffer != [] && r == Done && inum == IFILE_INUM ==>
                && SparedKept(blockSizeInBytes, old(log.held), IFILE_INUM, old(log.iFileINode), old(log.tail.number),
                              log.held, log.iFileINode, log.tail.number)
                && Account(blockSizeInBytes, old(log.held), old(log.iFileINode), log.held, log.iFileINode,
                           TablesIn(blockSizeInBytes, offset, |buffer|))
                && OthersSame(old(log.held), log.held, {IFILE_INUM})
      ensures buffer != [] && r == Done && inum != IFILE_INUM ==>
                && TableFile(count)
                && EntryUpdated(blockSizeInBytes, old(log.held), old(log.iFileINode), log.held, log.iFileINode, count, inum, EntryOf(inum))
                && SparedByBoth(blockSizeInBytes, old(log.held), inum, old(EntryOf(inum)), IFILE_INUM, old(log.iFileINode),
                                old(log.tail.number), log.held, EntryOf(inum), log.iFileINode, log.tail.number)
                && BothAccounted(blockSizeInBytes, old(log.held), old(EntryOf(inum)), old(log.iFileINode), log.held, EntryOf(inum), log.iFileINode,
                                 TablesIn(blockSizeInBytes, offset, |buffer|), RecordTables(blockSizeInBytes, inum))
      ensures Ends(r, buffer != [] && (inum > iFileSizeInINodes || offset > old(EntryOf(inum)).fileSize),
                   FileSlots(blockSizeInBytes, inum, offset, |buffer|), old(log.Stock()), log.Stock(), log.Jammed())
      ensures var old' := old(Replaces(blockSizeInBytes, log.held, inum, offset, |buffer|));
              Flowing(r, buffer != [] && (inum > iFileSizeInINodes || offset > old(EntryOf(inum)).fileSize),
                      FileSlots(blockSizeInBytes, inum, offset, |buffer|), old(log.Stock().capacity),
                      old(log.FlowsGiving(going, old')), log.FlowsWithout(going, old'))
    {
      hide Geometry.Ok, Geometry.BlockBytes, Log.Valid, INodeOk, Contents, Entry, Ptr, SparedKept, MaxBlocks, Writing,
           FileWritten, SparedByBoth;
      hide Covered, EntryUpdated, IFileOk, Account, OthersSame, BothAccounted, TablesIn, RecordTables;
      hide Log.Stock, Log.Jammed, Log.Flows, Log.FlowsAt, Log.FlowsGiving, Log.FlowsWithout, CachesHeld, Covers, Ends, Flowing, FileSlots,
           WrittenOver, BlocksTouched, Replaces, RecordReplaced;
      ghost var bs, s0, queue := blockSizeInBytes, log.Stock(), log.cache.queue;
      ghost var slots, replaced := FileSlots(bs, inum, offset, |buffer|), Replaces(bs, log.held, inum, offset, |buffer|);
      ghost var flows := log.FlowsGiving(going, replaced);
      if flows {
        log.WithoutNone(going, replaced);
        log.GivingAt(going, replaced);
      }
      if buffer == [] {
        NothingYet(s0, log.Jammed());
        EndsWithin(0, slots, Done, false, false, s0, s0, log.Jammed());
        FlowsOn(Done, slots, s0.capacity, flows, log.FlowsWithout(going, replaced));
        return Done;
      }
      var n;
      r, n := GetINode(inum, count);
      EndsAtOnce(Thrown, true, slots, s0, log.Jammed(), flows, log.FlowsWithout(going, replaced));
      EndsAtOnce(Failed, true, slots, s0, log.Jammed(), flows, log.FlowsWithout(going, replaced));
      if r != Done {
        return Thrown;
      }
      if offset > n.fileSize {
        return Failed;
      }
      EntryZero(bs, log.held, log.iFileINode);
      KnownInum(bs, log.held, inum, n);
      if flows {
        log.FlowsCached(queue, going);
        log.GivesFewer(going, replaced);
      }
      ghost var from := log.FlowsGiving(going, replaced);
      r := WriteRange(n, offset, buffer, count, going);
      FlowingWithin(slots, slots, r, false, false, s0.capacity, from, log.FlowsWithout(going, replaced), flows, log.FlowsWithout(going, replaced));
    }

    /** File_Write once it has its inode: the blocks of the range, then the record. */
    method WriteRange(n0: INode, offset: nat, buffer: seq<byte>, ghost count: nat, ghost going: set<Addr>) returns (r: Outcome)
      requires Sizes() && log.Valid() && TableFile(count) && Known(n0.inum, count)
      requires n0.inum <= iFileSizeInINodes && n0 == EntryOf(n0.inum) && buffer != [] && offset <= n0.fileSize
      requires n0.inum < 0x8000_0000 && offset + |buffer| < 0x1_0000_0000
      modifies log.Repr
      decreases if n0.inum == 0 then 0 else 1, 3
      ensures r == Done ==>
                log.Valid() && FileWritten(blockSizeInBytes, old(log.held), n0, log.held, EntryOf(n0.inum), offset, buffer)
      ensures r == Done && n0.inum == IFILE_INUM ==>
                && SparedKept(blockSizeInBytes, old(log.held), IFILE_INUM, old(log.iFileINode), old(log.tail.number),
                              log.held, log.iFileINode, log.tail.number)
                && Account(blockSizeInBytes, old(log.held), old(log.iFileINode), log.held, log.iFileINode,
                           TablesIn(blockSizeInBytes, offset, |buffer|))
                && OthersSame(old(log.held), log.held, {IFILE_INUM})
      ensures r == Done && n0.inum != IFILE_INUM ==>
                && TableFile(count)
                && EntryUpdated(blockSizeInBytes, old(log.held), old(log.iFileINode), log.held, log.iFileINode, count, n0.inum, EntryOf(n0.inum))
                && SparedByBoth(blockSizeInBytes, old(log.held), n0.inum, n0, IFILE_INUM, old(log.iFileINode),
                                old(log.tail.number), log.held, EntryOf(n0.inum), log.iFileINode, log.tail.number)
                && BothAccounted(blockSizeInBytes, old(log.held), n0, old(log.iFileINode), log.held, EntryOf(n0.inum), log.iFileINode,
                                 TablesIn(blockSizeInBytes, offset, |buffer|), RecordTables(blockSizeInBytes, n0.inum))
      ensures Ends(r, false, FileSlots(blockSizeInBytes, n0.inum, offset, |buffer|), old(log.Stock()), log.Stock(), log.Jammed())
      ensures var old' := old(Replaces(blockSizeInBytes, log.held, n0.inum, offset, |buffer|));
              Flowing(r, false, FileSlots(blockSizeInBytes, n0.inum, offset, |buffer|), old(log.Stock().capacity),
                      old(log.FlowsGiving(going, old')), log.FlowsWithout(going, old'))
    {
      hide Geometry.Ok, Geometry.BlockBytes, Log.Valid, INodeOk, Contents, Entry, Ptr, SparedKept, MaxBlocks, Writing,
           FileWritten, SparedByBoth;
      hide Covered, EntryUpdated, IFileOk, Account, OthersSame, BothAccounted, TablesIn, RecordTables;
      hide Log.Stock, Log.Jammed, Log.Flows, Log.FlowsGiving, Log.FlowsWithout, Covers, Ends, Flowing, FileSlots, WrittenOver, BlocksTouched,
           Replaces, RecordReplaced;
      ghost var bs, h0, if0, t0, s0 := blockSizeInBytes, log.held, log.iFileINode, log.tail.number, log.Stock();
      ghost var inum, slots, replaced := n0.inum, FileSlots(bs, n0.inum, offset, |buffer|), Replaces(bs, h0, n0.inum, offset, |buffer|);
      ghost var flows := log.FlowsGiving(going, replaced);
      EntryZero(bs, h0, if0);
      NoEmptyHeld();
      KnownInum(bs, h0, inum, n0);
      SlotsAre(bs, inum, offset, |buffer|);
      ghost var own, first := WrittenOver(bs, h0, inum, offset, |buffer|), 2 * BlocksTouched(bs, offset, |buffer|);
      ghost var from := log.FlowsGiving(going, own);
      if flows {
        log.GivingAt(going, replaced);
        OwnReplaced(bs, h0, inum, offset, |buffer|, going);
        log.GivesFewer(going, own);
      }
      var n;
      ghost var cur;
      r, n, cur := WriteBlocks(n0, offset, buffer, going);
      ghost var s1, j1, mid := log.Stock(), log.Jammed(), log.FlowsWithout(going, own);
      StillFlows(r, false, first, s0.capacity, from, mid);
      if r != Done {
        EndsWithin(first, slots, r, false, false, s0, s1, j1);
        FlowingWithin(first, slots, r, false, false, s0.capacity, from, mid, flows, log.FlowsWithout(going, replaced));
        return;
      }
      WritingDone(bs, h0, n0, t0, log.held, n, log.tail.number, cur, offset, buffer);
      if offset + |buffer| > n.fileSize {
        n := n.(fileSize := offset + |buffer|);
      }
      ghost var h1, t1 := log.held, log.tail.number;
      NoEmptyHeld();
      WrittenInum(bs, h0, n0, h1, n, offset, buffer);
      IFileFacts(bs, h0, if0, count);
      TableSpared(bs, h0, if0, count, inum, n0, t0, h1, n, t1);
      OwnsPointers(bs, h1, inum, n);
      ghost var record := RecordReplaced(bs, h1, inum);
      mid := log.FlowsGiving(going - own, record);
      assert flows ==> mid by {
        if flows {
          ReplacedInTurn(bs, h0, h1, inum, offset, |buffer|);
          CoversSecond(going, own, record, replaced);
          log.WithoutFirst(going, own, record);
        }
      }
      r := UpdateIFile(n, count, going - own);
      assert Ends(r, false, slots, s0, log.Stock(), log.Jammed()) by {
        EndsThen(first, s0, s1, j1, r, false, slots - first, log.Stock(), log.Jammed());
      }
      assert Flowing(r, false, slots, s0.capacity, flows, log.FlowsWithout(going, replaced)) by {
        ghost var still := log.FlowsWithout(going - own, record);
        ReplacedInTurn(bs, h0, h1, inum, offset, |buffer|);
        if still {
          log.WithoutBoth(going, own, record, replaced);
        }
        FlowingThen(first, s0, s1, j1, flows, mid, r, false, slots - first, still);
        FlowingWithin(slots, slots, r, false, false, s0.capacity, flows, still, flows, log.FlowsWithout(going, replaced));
      }
      if r == Done {
        EntryZero(bs, log.held, log.iFileINode);
        if inum != IFILE_INUM {
          UpdatedEntry(bs, h1, if0, log.held, log.iFileINode, count, inum, n);
          TableInum(bs, h0, if0, count);
          TableInum(bs, log.held, log.iFileINode, count);
          AccountsInTurn(bs, h0, n0, h1, n, TablesIn(bs, offset, |buffer|), if0, log.held, log.iFileINode, RecordTables(bs, inum));
          TwoWrites(bs, h0, if0, count, inum, n0, t0, h1, n, t1, log.held, log.iFileINode, log.tail.number, offset, buffer);
        }
      }
    }

    /** Data blocks held for an inode that no pointer of it names any more. */
    ghost function LostBlocks(inum: nat): set<Addr>
      requires blockSizeInBytes > 0
      reads log`held, log`iFileINode
    {
      LostData(blockSizeInBytes, log.held, EntryOf(inum))
    }

    // ---- Operations on ordinary files ------------------------------------------------------------

    /** Between operations: the log is consistent and every inode owns exactly the blocks it points to. */
    ghost predicate Valid()
      reads this, log, log.Repr, log.cache, log.flash, log.flash.Repr
    {
      Sizes() && log.Valid() && TableOk(blockSizeInBytes, log.held, log.iFileINode, iFileSizeInINodes)
      && iFileSizeInINodes < 0x7FFF_FFFF
    }

    ghost function Files(): (v: seq<FileView>)
      requires blockSizeInBytes > 0
      reads this, log`held, log`iFileINode
      ensures |v| == iFileSizeInINodes
    {
      Views(blockSizeInBytes, log.held, log.iFileINode, iFileSizeInINodes)
    }

    /**
     * As long as the table's inode is the one the latest seal put aside, a checkpoint of it finds on flash every block of the
     * table that is not in the tail.
     */
    lemma CheckpointedTable(b: nat)
      requires Valid() && log.checkpoint.iFileINode == log.iFileINode && b < maxFileBlocks
      requires var p := Ptr(blockSizeInBytes, log.held, log.checkpoint.iFileINode, b); p != EMPTY && p.seg != log.tail.number
      ensures var p := Ptr(blockSizeInBytes, log.held, log.checkpoint.iFileINode, b);
              && p in log.held && log.held[p].inum == IFILE_INUM && log.held[p].fileBlock == b
              && log.held[p].data == FileBlock(blockSizeInBytes, log.held, log.iFileINode, b) && log.OnFlashAt(p)
    {
      hide LogInv, Geometry.Ok, Geometry.BlockBytes, Entry, Indirects, Log.OnFlashAt;
      var p := Ptr(blockSizeInBytes, log.held, log.checkpoint.iFileINode, b);
      assert Points(blockSizeInBytes, log.held, IFILE_INUM, b, p);
      log.HeldOnFlash(p);
    }

    lemma KnownFiles(inum: word)
      requires Valid()
      ensures TableFile(iFileSizeInINodes) && Known(inum, iFileSizeInINodes)
      ensures 1 <= inum <= iFileSizeInINodes ==>
                && Files()[inum - 1] == ViewOf(blockSizeInBytes, log.held, EntryOf(inum))
                && EntryOk(blockSizeInBytes, log.held, inum, EntryOf(inum))
      ensures inum <= iFileSizeInINodes ==> EntryOf(inum).inum == inum
    {
      hide Log.Valid, Geometry.Ok, Geometry.BlockBytes, INodeOk, NoHoles, Contents, Record, IFileOk, EntryOk, Entry,
           Views, ViewOf;
      if inum <= iFileSizeInINodes {
        KnownEntry(blockSizeInBytes, log.held, log.iFileINode, iFileSizeInINodes, inum);
      }
    }

    /** File_Write as callers of the layer see it: one file's bytes are spliced, past the largest file they are lost. */
    method Write(inum: word, offset: nat, buffer: seq<byte>) returns (r: Outcome)
      requires Valid() && inum >= 1 && inum < 0x8000_0000 && offset + |buffer| < 0x1_0000_0000
      modifies log.Repr
      ensures buffer != [] && inum > iFileSizeInINodes ==> r == Thrown
      ensures buffer != [] && inum <= iFileSizeInINodes && offset > |old(Files())[inum - 1].contents| ==>
                r == Failed && Valid() && Files() == old(Files())
      ensures buffer == [] ==> r == Done && Valid() && Files() == old(Files()) && log.held == old(log.held)
                               && log.iFileINode == old(log.iFileINode)
      ensures r == Done ==> Valid()
      ensures r == Done && buffer != [] ==>
                var v := old(Files());
                inum <= |v| && offset <= |v[inum - 1].contents|
                && Files() == v[inum - 1 :=
                     v[inum - 1].(contents := Clamped(blockSizeInBytes, Written(v[inum - 1].contents, offset, buffer)))]
      ensures r == Done && buffer != [] ==>
                Booked(blockSizeInBytes, old(log.held), old(log.iFileINode), log.held, log.iFileINode, iFileSizeInINodes, inum,
                       TablesIn(blockSizeInBytes, offset, |buffer|))
      ensures Ends(r, buffer != [] && (inum > iFileSizeInINodes || offset > |old(Files())[inum - 1].contents|),
                   FileSlots(blockSizeInBytes, inum, offset, |buffer|), old(log.Stock()), log.Stock(), log.Jammed())
      ensures Flowing(r, buffer != [] && (inum > iFileSizeInINodes || offset > |old(Files())[inum - 1].contents|),
                      FileSlots(blockSizeInBytes, inum, offset, |buffer|), old(log.Stock().capacity),
                      old(log.Flows(Replaces(blockSizeInBytes, log.held, inum, offset, |buffer|))), log.Flows({}))
    {
      hide Log.Valid, Geometry.Ok, Geometry.BlockBytes, INodeOk, Contents, Entry, FileWritten, EntryUpdated,
           SparedByBoth, IFileOk, Views;
      hide Clamped, Written, TableOk, MaxBlocks, Booked, BothAccounted, TablesIn, RecordTables, Ends, Log.Flows, Log.Stock, Log.Jammed, Replaces;
      KnownFiles(inum);
      ghost var bs, h0, if0, t0, v0 := blockSizeInBytes, log.held, log.iFileINode, log.tail.number, Files();
      ghost var old' := Replaces(bs, h0, inum, offset, |buffer|);
      assert old' - old' == {};
      r := FileWrite(inum, offset, buffer, iFileSizeInINodes, old');
      if r == Done && buffer != [] {
        WriteSeen(bs, h0, if0, iFileSizeInINodes, inum, t0, log.held, log.iFileINode, log.tail.number, offset, buffer);
        WriteBooked(bs, h0, if0, log.held, log.iFileINode, iFileSizeInINodes, inum, TablesIn(bs, offset, |buffer|));
      }
    }

    /** The block a file's offset is in has been written, or lies past the largest file. */
    ghost predicate Visitable(inum: word, offset: nat)
      requires blockSizeInBytes > 0
      reads log`held, log`iFileINode
    {
      var b := offset / blockSizeInBytes;
      b >= maxFileBlocks || Ptr(blockSizeInBytes, log.held, EntryOf(inum), b) != EMPTY
    }

    /**
     * File_Read as callers of the layer see it: the clamped slice. Inside the file it succeeds; at its very end, where there is
     * nothing to read, it still visits one block, and fails if that one was never written.
     */
    method Read(inum: word, offset: nat, length: nat) returns (r: Outcome, buffer: seq<byte>)
      requires Valid() && inum >= 1
      requires inum <= iFileSizeInINodes && Files()[inum - 1].inUse ==> offset <= |Files()[inum - 1].contents|
      modifies log.cache
      ensures Valid() && Files() == old(Files())
      ensures length == 0 ==> r == Done && buffer == []
      ensures length > 0 && inum > iFileSizeInINodes ==> r == Thrown
      ensures length > 0 && inum <= iFileSizeInINodes && !Files()[inum - 1].inUse ==> r == Failed
      ensures length > 0 && inum <= iFileSizeInINodes && Files()[inum - 1].inUse ==>
                var c := Files()[inum - 1].contents;
                && (r == Done || r == Failed)
                && (offset < |c| ==> r == Done)
                && (r == Done ==> buffer == c[offset..if offset + length < |c| then offset + length else |c|])
      ensures length > 0 && inum <= iFileSizeInINodes && Files()[inum - 1].inUse && offset == |Files()[inum - 1].contents| ==>
                (r == Done <==> old(Visitable(inum, offset)))
    {
      hide Log.Valid, Geometry.Ok, Geometry.BlockBytes, INodeOk, Contents, Entry, IFileOk, Views, TableOk, MaxBlocks,
           ReadsHoleFree, NoHoles;
      KnownFiles(inum);
      r, buffer := FileRead(inum, offset, length, iFileSizeInINodes);
      if length > 0 && inum <= iFileSizeInINodes && Files()[inum - 1].inUse && offset < |Files()[inum - 1].contents| {
        ghost var n := EntryOf(inum);
        NoHolesRead(blockSizeInBytes, log.held, n, offset, if length > n.fileSize - offset then n.fileSize - offset else length);
      }
      EmptyRead(blockSizeInBytes, log.held, EntryOf(inum), offset);
    }

    /** UpdateIFile between operations: exactly the given inode's view changes. */
    method Update(n: INode, ghost h0: Held) returns (r: Outcome)
      requires Sizes() && log.Valid() && 1 <= n.inum <= iFileSizeInINodes < 0x7FFF_FFFF
      requires TableOk(blockSizeInBytes, h0, log.iFileINode, iFileSizeInINodes)
      requires forall j: word :: j != n.inum ==> KeepsOwned(h0, log.held, j)
      requires EntryOk(blockSizeInBytes, log.held, n.inum, n)
      modifies log.Repr
      ensures r == Done ==> Valid() && EntryOf(n.inum) == n
      ensures r == Done ==> ViewOf(blockSizeInBytes, log.held, n) == ViewOf(blockSizeInBytes, old(log.held), n)
      ensures r == Done ==> Files() == old(Views(blockSizeInBytes, h0, log.iFileINode, iFileSizeInINodes))
                                         [n.inum - 1 := old(ViewOf(blockSizeInBytes, log.held, n))]
      ensures r == Done ==>
                && EntryUpdated(blockSizeInBytes, old(log.held), old(log.iFileINode), log.held, log.iFileINode, iFileSizeInINodes, n.inum, n)
                && SparedKept(blockSizeInBytes, old(log.held), IFILE_INUM, old(log.iFileINode), old(log.tail.number),
                              log.held, log.iFileINode, log.tail.number)
                && Account(blockSizeInBytes, old(log.held), old(log.iFileINode), log.held, log.iFileINode, RecordTables(blockSizeInBytes, n.inum))
                && OthersSame(old(log.held), log.held, {IFILE_INUM})
      ensures Ends(r, false, RECORD_SLOTS, old(log.Stock()), log.Stock(), log.Jammed())
    {
      hide Log.Valid, Geometry.Ok, Geometry.BlockBytes, INodeOk, Contents, Entry, EntryUpdated, SparedKept, Views,
           EntryOk, KeepsOwned, ViewOf, Account, OthersSame, RecordTables;
      hide IFileOk, MaxBlocks;
      ghost var bs, if0, h1, t1 := blockSizeInBytes, log.iFileINode, log.held, log.tail.number;
      TableFileKept(bs, h0, h1, if0, iFileSizeInINodes);
      FitsBelow(bs, h1, if0, iFileSizeInINodes, n.inum);
      r := UpdateIFile(n, iFileSizeInINodes);
      if r == Done {
        UpdateSeen(bs, h0, if0, iFileSizeInINodes, h1, t1, n.inum, n, log.held, log.iFileINode, log.tail.number);
        UpdatedEntry(bs, h1, if0, log.held, log.iFileINode, iFileSizeInINodes, n.inum, n);
      }
    }

    /** File_GetFileType. */
    method GetFileType(inum: word) returns (r: Outcome, t: FileType)
      requires Valid()
      modifies log.cache
      ensures Valid() && Files() == old(Files())
      ensures if inum > iFileSizeInINodes then r == Thrown else r == Done
      ensures inum == IFILE_INUM ==> t == File
      ensures 1 <= inum <= iFileSizeInINodes ==> t == Files()[inum - 1].fileType
    {
      hide Log.Valid, Geometry.Ok, Geometry.BlockBytes, INodeOk, Contents, Entry, Views, IFileOk, MaxBlocks, NoHoles,
           TableOk;
      KnownFiles(inum);
      var n;
      r, n := Fetch(inum);
      t := n.fileType;
      if inum == IFILE_INUM {
        IFileFacts(blockSizeInBytes, log.held, log.iFileINode, iFileSizeInINodes);
      }
    }

    /** A new link count for the table's own inode, which is kept in memory. */
    method RelabelTable(nlinks: word) returns (r: Outcome)
      requires Valid()
      modifies log.Repr
      ensures r == Done && Valid() && Files() == old(Files()) && log.iFileINode.nlinks == nlinks
      ensures Ends(r, false, 0, old(log.Stock()), log.Stock(), log.Jammed())
    {
      hide Log.Valid, Geometry.Ok, Geometry.BlockBytes, INodeOk, Contents, Entry, Views, IFileOk, MaxBlocks, NoHoles,
           TableOk, EntryOk;
      ghost var bs, h, ifile := blockSizeInBytes, log.held, log.iFileINode;
      var n := log.iFileINode.(nlinks := nlinks);
      TableRelabelled(bs, h, ifile, n, iFileSizeInINodes);
      OwnsPointers(bs, h, IFILE_INUM, n);
      r := UpdateIFile(n, iFileSizeInINodes);
    }

    /** File_AddLink. */
    method AddLink(inum: word) returns (r: Outcome)
      requires Valid()
      modifies log.Repr
      ensures inum > iFileSizeInINodes ==> r == Thrown
      ensures r == Done ==> Valid() && inum <= |old(Files())|
      ensures inum == IFILE_INUM ==>
                r == Done && Files() == old(Files()) && log.iFileINode.nlinks == Wrap(old(log.iFileINode.nlinks) + 1)
      ensures r == Done && inum != IFILE_INUM ==>
                var v := old(Files()); Files() == v[inum - 1 := v[inum - 1].(nlinks := Wrap(v[inum - 1].nlinks + 1))]
      ensures Ends(r, inum > iFileSizeInINodes, RECORD_SLOTS, old(log.Stock()), log.Stock(), log.Jammed())
    {
      hide Log.Valid, Geometry.Ok, Geometry.BlockBytes, INodeOkBut, Contents, Entry, Views, IFileOk, MaxBlocks,
           NoHoles, TableOk;
      hide Log.Stock, Log.Jammed, Ends;
      KnownFiles(inum);
      EntryZero(blockSizeInBytes, log.held, log.iFileINode);
      ghost var s0 := log.Stock();
      var n;
      r, n := GetINode(inum, iFileSizeInINodes);
      EndsAtOnce(Thrown, true, RECORD_SLOTS, s0, log.Jammed(), false, false);
      if r != Done {
        return Thrown;
      }
      if inum == IFILE_INUM {
        r := RelabelTable(Wrap(n.nlinks + 1));
        EndsWithin(0, RECORD_SLOTS, r, false, false, s0, log.Stock(), log.Jammed());
        return;
      }
      Relabelled(blockSizeInBytes, log.held, inum, n, n.(nlinks := Wrap(n.nlinks + 1)));
      n := n.(nlinks := Wrap(n.nlinks + 1));
      r := Update(n, log.held);
    }

    /**
     * The freeing loop of File_Truncate and File_Free: direct blocks and the indirect block itself. Blocks reached through
     * the indirect block are not freed; they stay held by nobody.
     */
    method FreeBlocks(n: INode)
      requires Sizes() && log.Valid() && INodeOk(blockSizeInBytes, log.held, n.inum, n)
      modifies log.Repr
      ensures log.Valid() && log.iFileINode == old(log.iFileINode) && log.tail.number == old(log.tail.number)
      ensures log.held == old(log.held) - OwnPointers(n)
      ensures OthersSame(old(log.held), log.held, {n.inum})
      ensures forall j: word :: j != n.inum ==> KeepsOwned(old(log.held), log.held, j)
      ensures Ends(Done, false, 0, old(log.Stock()), log.Stock(), log.Jammed())
    {
      hide Log.Valid, Geometry.Ok, Geometry.BlockBytes, INodeOk, FreedDirect, KeepsOwned, OwnPointers, OthersSame;
      ghost var bs, h0 := blockSizeInBytes, log.held;
      NoEmptyHeld();
      FreedNone(h0, n);
      FreedOwn(bs, h0, n);
      var b := 0;
      while b < DIRECT_BLOCKS
        invariant b <= DIRECT_BLOCKS && log.Valid() && FreedDirect(h0, n, log.held, b)
        invariant log.iFileINode == old(log.iFileINode) && log.tail.number == old(log.tail.number)
        invariant Ends(Done, false, 0, old(log.Stock()), log.Stock(), log.Jammed())
      {
        DirectStillHeld(bs, h0, n, log.held, b);
        FreeIfAny(n.direct[b]);
        b := b + 1;
      }
      IndirectStillHeld(bs, h0, n, log.held);
      FreeIfAny(n.indirect);
    }

    /** Log_Free of a pointer that may be empty. */
    method FreeIfAny(a: Addr)
      requires log.Separate() && log.Valid() && (a == EMPTY || (a in log.held && a.seg != UINT_MAX))
      modifies log.Repr
      ensures log.Valid() && log.held == (if a == EMPTY then old(log.held) else old(log.held) - {a})
      ensures log.tail.number == old(log.tail.number) && log.iFileINode == old(log.iFileINode)
      ensures Ends(Done, false, 0, old(log.Stock()), log.Stock(), log.Jammed())
    {
      hide Log.Ready, Log.TailCached;
      log.Free(a);
    }

    /** File_Free: the record is marked unused and keeps its size; its bytes are gone. */
    method Free(inum: word) returns (r: Outcome)
      requires Valid()
      modifies log.Repr
      ensures inum == IFILE_INUM || inum > iFileSizeInINodes ==> r == Thrown
      ensures r == Done ==> Valid() && 1 <= inum <= |old(Files())|
      ensures r == Done ==> var v := old(Files());
                Files() == v[inum - 1 := v[inum - 1].(inUse := false, contents := Zeros(|v[inum - 1].contents|))]
      ensures r == Done ==> forall i: word :: 1 <= i ==>
                OwnedBy(log.held, i) == old(OwnedBy(log.held, i)) - if i == inum then OwnPointers(old(EntryOf(inum))) else {}
      ensures Ends(r, inum == IFILE_INUM || inum > iFileSizeInINodes, RECORD_SLOTS, old(log.Stock()), log.Stock(), log.Jammed())
    {
      hide Log.Valid, Geometry.Ok, Geometry.BlockBytes, INodeOk, Contents, Entry, Views, IFileOk, MaxBlocks, NoHoles,
           TableOk, OwnedBy, OwnPointers, OthersSame, Account, RecordTables;
      if inum == IFILE_INUM {
        return Thrown;
      }
      KnownFiles(inum);
      NoEmptyHeld();
      var n;
      r, n := GetINode(inum, iFileSizeInINodes);
      if r != Done {
        return Thrown;
      }
      ghost var h0 := log.held;
      FreeBlocks(n);
      n := n.(inUse := false, direct := NoBlocks(), indirect := EMPTY);
      EmptyFile(blockSizeInBytes, log.held, n);
      ghost var h1 := log.held;
      r := Update(n, h0);
      if r == Done {
        OwnedAfterFree(blockSizeInBytes, h0, old(EntryOf(inum)), h1, log.held);
      }
    }

    /** File_RemoveLink: the last link takes the file with it; the table file cannot go. */
    method RemoveLink(inum: word) returns (r: Outcome)
      requires Valid()
      modifies log.Repr
      ensures inum > iFileSizeInINodes ==> r == Thrown
      ensures r == Done ==> Valid() && inum <= |old(Files())|
      ensures r == Done && inum == IFILE_INUM ==>
                Files() == old(Files()) && log.iFileINode.nlinks == Wrap(old(log.iFileINode.nlinks) - 1)
      ensures r == Done && inum != IFILE_INUM ==> var v := old(Files());
                var f := v[inum - 1].(nlinks := Wrap(v[inum - 1].nlinks - 1));
                Files() == v[inum - 1 := if f.nlinks == 0 then f.(inUse := false, contents := Zeros(|f.contents|)) else f]
      ensures inum == IFILE_INUM ==> (r == Done <==> Wrap(old(log.iFileINode.nlinks) - 1) != 0)
      ensures r == Done && inum != IFILE_INUM ==> forall i: word :: 1 <= i ==>
                OwnedBy(log.held, i) == old(OwnedBy(log.held, i))
                                        - if i == inum && Wrap(old(Files())[inum - 1].nlinks - 1) == 0 then OwnPointers(old(EntryOf(inum))) else {}
      ensures Ends(r, (inum == IFILE_INUM && Wrap(old(log.iFileINode.nlinks) - 1) == 0) || inum > iFileSizeInINodes,
                   2 * RECORD_SLOTS, old(log.Stock()), log.Stock(), log.Jammed())
    {
      hide Log.Valid, Geometry.Ok, Geometry.BlockBytes, INodeOk, Contents, Entry, Views, IFileOk, MaxBlocks, NoHoles,
           TableOk, OwnedBy, OwnPointers, OthersSame, Account, RecordTables;
      hide Log.Stock, Log.Jammed, Ends;
      KnownFiles(inum);
      EntryZero(blockSizeInBytes, log.held, log.iFileINode);
      ghost var s0, last := log.Stock(), inum == IFILE_INUM && Wrap(log.iFileINode.nlinks - 1) == 0;
      var n;
      r, n := GetINode(inum, iFileSizeInINodes);
      EndsAtOnce(Thrown, true, 2 * RECORD_SLOTS, s0, log.Jammed(), false, false);
      if r != Done {
        return Thrown;
      }
      if inum == IFILE_INUM {
        r := RelabelTable(Wrap(n.nlinks - 1));
        EndsWithin(0, RECORD_SLOTS, r, false, false, s0, log.Stock(), log.Jammed());
      } else {
        Relabelled(blockSizeInBytes, log.held, inum, n, n.(nlinks := Wrap(n.nlinks - 1)));
        ghost var h := log.held;
        r := Update(n.(nlinks := Wrap(n.nlinks - 1)), log.held);
        if r == Done {
          OwnedElsewhere(h, log.held);
          SamePointers(n, EntryOf(inum));
        }
      }
      ghost var s1, j1 := log.Stock(), log.Jammed();
      EndsWithin(RECORD_SLOTS, 2 * RECORD_SLOTS, r, false, last, s0, s1, j1);
      if r == Done && Wrap(n.nlinks - 1) == 0 {
        r := Free(inum);
        EndsThen(RECORD_SLOTS, s0, s1, j1, r, last, RECORD_SLOTS, log.Stock(), log.Jammed());
      }
    }

    /** File_Truncate: read everything, drop every block, write the cut or padded bytes back. */
    method Truncate(inum: word, size: word) returns (r: Outcome)
      requires Valid() && inum >= 1
      modifies log.Repr
      ensures inum > iFileSizeInINodes ==> r == Thrown
      ensures inum <= iFileSizeInINodes && !old(Files())[inum - 1].inUse && old(Files())[inum - 1].contents != [] ==> r == Failed
      ensures r == Done ==> Valid() && inum <= |old(Files())|
      ensures r == Done ==> var v := old(Files());
                Files() == v[inum - 1 := v[inum - 1].(contents := Files()[inum - 1].contents)]
      ensures r == Done ==> var c, c' := old(Files())[inum - 1].contents, Files()[inum - 1].contents;
                |c'| == size && forall k: nat :: k < size ==> c'[k] == if k < |c| && InLargest(blockSizeInBytes, k) then c[k] else 0
      ensures r == Done ==>
                LostBlocks(inum) == old(LostBlocks(inum)) + old(Behind(blockSizeInBytes, log.held, EntryOf(inum)))
      ensures Ends(r, inum > iFileSizeInINodes || (!old(Files())[inum - 1].inUse && old(Files())[inum - 1].contents != []),
                   RECORD_SLOTS + FileSlots(blockSizeInBytes, inum, 0, size), old(log.Stock()), log.Stock(), log.Jammed())
    {
      hide Log.Valid, Geometry.Ok, Geometry.BlockBytes, INodeOk, Contents, Entry, Views, IFileOk, MaxBlocks, NoHoles,
           TableOk;
      hide Clamped, Truncated, Written, ReadOutcome, ReadsHoleFree, FileLayer.Valid, LostData, Behind, Tables, TablesIn, RecordTables;
      hide Log.Stock, Log.Jammed, Ends, Flowing, FileSlots, Log.Flows, Replaces;
      KnownFiles(inum);
      ValidSizes();
      ghost var s0, slots := log.Stock(), FileSlots(blockSizeInBytes, inum, 0, size);
      var n;
      r, n := Fetch(inum);
      EndsAtOnce(Thrown, true, RECORD_SLOTS + slots, s0, log.Jammed(), false, false);
      if r != Done {
        return Thrown;
      }
      var buffer;
      r, buffer := Read(inum, 0, n.fileSize);
      EndsAtOnce(Failed, true, RECORD_SLOTS + slots, s0, log.Jammed(), false, false);
      if r != Done {
        return Failed;
      }
      assert buffer == Files()[inum - 1].contents;
      r := Cut(n);
      ghost var s1, j1 := log.Stock(), log.Jammed();
      if r != Done {
        EndsWithin(RECORD_SLOTS, RECORD_SLOTS + slots, r, false, false, s0, s1, j1);
        return;
      }
      TruncatedIs(blockSizeInBytes, Files()[inum - 1].contents, buffer, size);
      r := Write(inum, 0, Truncated(buffer, size));
      EndsThen(RECORD_SLOTS, s0, s1, j1, r, false, slots, log.Stock(), log.Jammed());
    }

    lemma ValidSizes()
      requires Valid()
      ensures Sizes() && log.Valid() && iFileSizeInINodes < 0x7FFF_FFFF
    {
      hide Log.Valid, TableOk;
    }

    /** GetINode between operations. */
    method Fetch(inum: word) returns (r: Outcome, n: INode)
      requires Valid()
      modifies log.cache
      ensures Valid() && Files() == old(Files())
      ensures if inum > iFileSizeInINodes then r == Thrown else r == Done && n == EntryOf(inum) && n.inum == inum
      ensures 1 <= inum <= iFileSizeInINodes ==>
                n.fileSize == |Files()[inum - 1].contents| && n.inUse == Files()[inum - 1].inUse
    {
      hide Log.Valid, Geometry.Ok, Geometry.BlockBytes, INodeOk, Contents, Entry, Views, IFileOk, MaxBlocks, NoHoles,
           TableOk, EntryOk;
      KnownFiles(inum);
      r, n := GetINode(inum, iFileSizeInINodes);
    }

    /** Size zero, no blocks, and the record written. */
    method Cut(n: INode) returns (r: Outcome)
      requires Valid() && 1 <= n.inum <= iFileSizeInINodes && n == EntryOf(n.inum)
      modifies log.Repr
      ensures r == Done ==> Valid()
      ensures r == Done ==> var v := old(Files()); Files() == v[n.inum - 1 := v[n.inum - 1].(contents := [])]
      ensures r == Done ==> LostBlocks(n.inum) == old(LostBlocks(n.inum)) + Behind(blockSizeInBytes, old(log.held), n)
      ensures Ends(r, false, RECORD_SLOTS, old(log.Stock()), log.Stock(), log.Jammed())
    {
      hide Log.Valid, Geometry.Ok, Geometry.BlockBytes, INodeOk, Contents, Entry, Views, IFileOk, MaxBlocks, NoHoles,
           TableOk;
      KnownFiles(n.inum);
      hide LostData, Behind, OwnPointers, OthersSame, Account, RecordTables;
      ghost var h0 := log.held;
      NoEmptyHeld();
      FreeBlocks(n);
      var empty := n.(fileSize := 0, direct := NoBlocks(), indirect := EMPTY);
      EmptyFile(blockSizeInBytes, log.held, empty);
      ghost var h1 := log.held;
      r := Update(empty, h0);
      if r == Done {
        LostAfterCut(blockSizeInBytes, h0, n, h1, empty, log.held);
      }
    }

    // ---- New files -------------------------------------------------------------------------------

    /** GetUnusedINum: the least inum whose record is free, or the next new one. */
    method GetUnusedINum() returns (r: Outcome, inum: word)
      requires Valid()
      modifies log.cache
      ensures Valid() && Files() == old(Files()) && r == Done
      ensures 1 <= inum <= iFileSizeInINodes + 1
      ensures AllInUse(Files(), inum - 1)
      ensures inum <= iFileSizeInINodes ==> !Files()[inum - 1].inUse
    {
      hide Log.Valid, Geometry.Ok, Geometry.BlockBytes, INodeOk, Contents, Entry, Views, IFileOk, MaxBlocks, NoHoles,
           TableOk;
      inum := IFILE_INUM + 1;
      while inum <= iFileSizeInINodes
        invariant 1 <= inum <= iFileSizeInINodes + 1
        invariant Valid() && Files() == old(Files())
        invariant AllInUse(Files(), inum - 1)
      {
        var n;
        r, n := Fetch(inum);
        if !n.inUse {
          return Done, inum;
        }
        inum := inum + 1;
      }
      return Done, inum;
    }

    /** File_Create: the least unused inum gets an empty file with one link; the table grows by a record if none was free. */
    method Create(fileType: FileType) returns (r: Outcome, inum: word)
      requires Valid() && Fits(blockSizeInBytes, iFileSizeInINodes + 1) && iFileSizeInINodes + 1 < 0x7FFF_FFFF
      modifies log.Repr, this`iFileSizeInINodes
      ensures r == Done ==> Valid() && 1 <= inum <= |old(Files())| + 1
      ensures r == Done ==> AllInUse(old(Files()), inum - 1)
      ensures r == Done ==> inum <= |old(Files())| ==> !old(Files())[inum - 1].inUse
      ensures r == Done ==>
                var v, f := old(Files()), FileView(true, fileType, 1, []);
                Files() == if inum <= |v| then v[inum - 1 := f] else v + [f]
      ensures Ends(r, false, RECORD_SLOTS, old(log.Stock()), log.Stock(), log.Jammed())
    {
      hide Log.Valid, Geometry.Ok, Geometry.BlockBytes, INodeOk, Contents, Entry, Views, IFileOk, MaxBlocks, NoHoles,
           TableOk;
      hide AllInUse;
      r, inum := GetUnusedINum();
      ghost var count := iFileSizeInINodes;
      KnownTable();
      var n := INode(true, inum, fileType, 0, 1, NoBlocks(), EMPTY);
      EmptyFile(blockSizeInBytes, log.held, n);
      if inum == iFileSizeInINodes + 1 {
        iFileSizeInINodes := iFileSizeInINodes + 1;
      }
      r := Install(n, count);
    }

    lemma KnownTable()
      requires Valid()
      ensures TableFile(iFileSizeInINodes) && forall i: nat :: i <= iFileSizeInINodes ==> Fits(blockSizeInBytes, i)
    {
      hide Log.Valid, Geometry.Ok, Geometry.BlockBytes, INodeOk, IFileOk, EntryOk, Fits;
      forall i: nat | i <= iFileSizeInINodes
        ensures Fits(blockSizeInBytes, i)
      {
        FitsBelow(blockSizeInBytes, log.held, log.iFileINode, iFileSizeInINodes, i);
      }
    }

    /** UpdateIFile with a record that may be the table's next. */
    method Install(n: INode, ghost count: nat) returns (r: Outcome)
      requires Sizes() && log.Valid() && 1 <= n.inum <= iFileSizeInINodes < 0x7FFF_FFFF
      requires TableOk(blockSizeInBytes, log.held, log.iFileINode, count)
      requires iFileSizeInINodes == if n.inum > count then n.inum else count
      requires n.inum <= count + 1 && Fits(blockSizeInBytes, n.inum) && EntryOk(blockSizeInBytes, log.held, n.inum, n)
      modifies log.Repr
      ensures r == Done ==> Valid()
      ensures r == Done ==>
                var v, f := old(Views(blockSizeInBytes, log.held, log.iFileINode, count)), old(ViewOf(blockSizeInBytes, log.held, n));
                Files() == if n.inum <= count then v[n.inum - 1 := f] else v + [f]
      ensures r == Done ==>
                && EntryUpdated(blockSizeInBytes, old(log.held), old(log.iFileINode), log.held, log.iFileINode, count, n.inum, n)
                && SparedKept(blockSizeInBytes, old(log.held), IFILE_INUM, old(log.iFileINode), old(log.tail.number),
                              log.held, log.iFileINode, log.tail.number)
      ensures Ends(r, false, RECORD_SLOTS, old(log.Stock()), log.Stock(), log.Jammed())
    {
      hide Log.Valid, Geometry.Ok, Geometry.BlockBytes, INodeOk, Contents, Entry, EntryUpdated, SparedKept, Views,
           EntryOk, KeepsOwned, ViewOf;
      hide IFileOk, MaxBlocks, Fits;
      ghost var bs, if0, h, t := blockSizeInBytes, log.iFileINode, log.held, log.tail.number;
      KeepsItself(h);
      r := UpdateIFile(n, count);
      if r == Done {
        UpdateSeen(bs, h, if0, count, h, t, n.inum, n, log.held, log.iFileINode, log.tail.number);
      }
    }

    // ---- The cleaner -----------------------------------------------------------------------------

    /** The part of CleanSegment that finds out where the block's owner has it now. */
    method CurrentAddress(n: INode, fileBlock: i32) returns (r: Outcome, a: Addr)
      requires Sizes() && log.Valid() && INodeOk(blockSizeInBytes, log.held, n.inum, n)
      modifies log.cache
      ensures log.Valid() && (r == Done || r == Thrown)
      ensures r == Thrown <==> fileBlock < INDIRECT_BLOCK || fileBlock > maxFileBlocks
                               || (fileBlock == maxFileBlocks && n.indirect != EMPTY)
      ensures r == Done && fileBlock >= 0 ==> a == Ptr(blockSizeInBytes, log.held, n, fileBlock)
      ensures r == Done && fileBlock < 0 ==> fileBlock == INDIRECT_BLOCK && a == n.indirect
    {
      hide Log.Valid, Geometry.Ok, Geometry.BlockBytes, INodeOkBut;
      IndirectPart(blockSizeInBytes, log.held, n);
      a := EMPTY;
      if fileBlock >= 0 {
        r, a := GetBlockAddress(n, fileBlock);
      } else if fileBlock == INDIRECT_BLOCK {
        r, a := Done, n.indirect;
      } else {
        r := Thrown;
      }
    }

    /** Writing a live block again through its inode, and the inode again through the table. */
    method Relocate(n: INode, b: nat, block: seq<byte>, ghost v: word) returns (r: Outcome)
      requires Valid() && n.inum <= iFileSizeInINodes && n == EntryOf(n.inum)
      requires b < maxFileBlocks && block == FileBlock(blockSizeInBytes, log.held, n, b)
      requires Ptr(blockSizeInBytes, log.held, n, b).seg == v && v != log.tail.number && v != UINT_MAX
      modifies log.Repr
      ensures r == Done ==> Valid() && Files() == old(Files()) && v != log.tail.number
      ensures r == Done ==> Carried(blockSizeInBytes, old(log.held), old(log.iFileINode), log.held, log.iFileINode, iFileSizeInINodes, v)
      ensures r == Done ==> PtrOf(blockSizeInBytes, log.held, log.iFileINode, n.inum, b)
                              != old(PtrOf(blockSizeInBytes, log.held, log.iFileINode, n.inum, b))
      ensures r == Done ==> Moved(blockSizeInBytes, old(log.held), old(log.iFileINode), log.held, log.iFileINode, iFileSizeInINodes, n.inum, b, v)
      ensures Ends(r, false, MOVE_SLOTS, old(log.Stock()), log.Stock(), log.Jammed())
    {
      hide Log.Valid, Geometry.Ok, Geometry.BlockBytes, INodeOk, Contents, Entry, Views, IFileOk, MaxBlocks, NoHoles,
           TableOk;
      hide Relinked, Steered, Carried, Ptr, EntryUpdated, SparedKept, KeepsOwned, FileBlock, Account, OthersSame, Moved,
           RecordTables, Log.Stock, Log.Jammed, Ends, Flowing, Log.Flows;
      ghost var bs, h, ifile, t := blockSizeInBytes, log.held, log.iFileINode, log.tail.number;
      NoEmptyHeld();
      KnownFiles(n.inum);
      EntryZero(bs, h, ifile);
      AnyBut(bs, h, n, b);
      ghost var n0 := n;
      var n1;
      r, n1 := WriteAndLink(n, b, block);
      ghost var s1, j1 := log.Stock(), log.Jammed();
      if r != Done {
        EndsWithin(2, MOVE_SLOTS, r, false, false, old(log.Stock()), s1, j1);
        return;
      }
      ghost var h1, t1 := log.held, log.tail.number;
      MovedFile(bs, h, n0, h1, n1, b, block);
      LinkedInum(bs, h, n0, h1, n1, b, block);
      if n1.inum == IFILE_INUM {
        OwnsPointers(bs, h1, IFILE_INUM, n1);
        r := UpdateIFile(n1, iFileSizeInINodes);
        EndsWithin(0, RECORD_SLOTS, r, false, false, s1, log.Stock(), log.Jammed());
        MovedTable(bs, h, ifile, iFileSizeInINodes, b, t, h1, n1, t1, block, v);
        MovedOwnBlock(bs, h, ifile, iFileSizeInINodes, b, h1, n1, block, v);
        EntryZero(bs, log.held, log.iFileINode);
      } else {
        r := Update(n1, h);
        if r == Done {
          MovedCarries(bs, h, ifile, iFileSizeInINodes, n1.inum, b, t, h1, n1, t1, log.held, log.iFileINode, log.tail.number, block, v);
          MovedBlock(bs, h, ifile, iFileSizeInINodes, n1.inum, b, h1, n1, log.held, log.iFileINode, block, v);
        }
      }
      EndsThen(2, old(log.Stock()), s1, j1, r, false, RECORD_SLOTS, log.Stock(), log.Jammed());
    }

    /**
     * One iteration of CleanSegment. A block its owner still points to is moved; any other is passed over. An indirect block
     * whose tag still says INDIRECT_BLOCK would be relinked at index -1 - 4 of its own table: no defined run gets past it.
     */
    method CleanSlot(segment: Segment, block: word, ghost h0: Held, ghost if0: INode) returns (r: Outcome)
      requires Valid() && WellFormed(log.g, segment) && 1 <= block < log.g.segmentSize
      requires segment.number != log.tail.number && segment.number != UINT_MAX
      requires TableOk(blockSizeInBytes, h0, if0, iFileSizeInINodes) && Describes(log.g, segment, h0)
      requires Carried(blockSizeInBytes, h0, if0, log.held, log.iFileINode, iFileSizeInINodes, segment.number)
      requires SlotsCleared(blockSizeInBytes, log.held, log.iFileINode, iFileSizeInINodes, segment.number, block)
      requires Tracked(blockSizeInBytes, h0, if0, log.held, log.iFileINode, iFileSizeInINodes, segment.number, block)
      modifies log.Repr
      ensures r == Done ==> Valid() && Files() == old(Files()) && segment.number != log.tail.number
      ensures r == Done ==> Carried(blockSizeInBytes, h0, if0, log.held, log.iFileINode, iFileSizeInINodes, segment.number)
      ensures r == Done ==> SlotsCleared(blockSizeInBytes, log.held, log.iFileINode, iFileSizeInINodes, segment.number, block + 1)
      ensures r == Done ==> Tracked(blockSizeInBytes, h0, if0, log.held, log.iFileINode, iFileSizeInINodes, segment.number, block + 1)
      ensures StopsAt(blockSizeInBytes, segment, h0, if0, iFileSizeInINodes, block) ==> r == Thrown && Valid() && Files() == old(Files())
      ensures Ends(r, StopsAt(blockSizeInBytes, segment, h0, if0, iFileSizeInINodes, block),
                   if Addr(segment.number, block) in h0 then MOVE_SLOTS else 0, old(log.Stock()), log.Stock(), log.Jammed())
      ensures old(NoBlockIn(segment.number)) ==> log.held == old(log.held) && log.iFileINode == old(log.iFileINode)
      ensures old(NoBlockIn(segment.number)) ==>
                log.flash.wear[..] == old(log.flash.wear[..]) && (r == Done || StopsAt(blockSizeInBytes, segment, h0, if0, iFileSizeInINodes, block))
    {
      hide Log.Valid, Geometry.Ok, Geometry.BlockBytes, INodeOk, Contents, Entry, Views, NoHoles, TableOk;
      hide Carried, Ptr, KeepsOwned, FileBlock, Describes, SlotsCleared, BlockAt, Tracked, Moved, StopsAt;
      ghost var bs, h, ifile, count, v := blockSizeInBytes, log.held, log.iFileINode, iFileSizeInINodes, segment.number;
      StopsThen(bs, segment, h0, if0, h, ifile, count, block);
      var inum, fileBlock := segment.inums[block], segment.fileBlocks[block];
      if inum == NO_INUM {
        SlotCleared(bs, log.g, segment, h0, if0, count, h, ifile, block);
        TrackedPass(bs, h0, if0, h, ifile, count, v, block);
        return Done;
      }
      if inum < 0 {
        return Thrown;
      }
      var logAddress := Addr(segment.number, block);
      var n;
      r, n := Fetch(inum);
      if r != Done {
        return;
      }
      KnownFiles(inum);
      var current;
      r, current := CurrentAddress(n, fileBlock);
      if r != Done {
        return;
      }
      if current != logAddress {
        SlotCleared(bs, log.g, segment, h0, if0, count, h, ifile, block);
        TrackedPass(bs, h0, if0, h, ifile, count, v, block);
        return Done;
      }
      if fileBlock < 0 {
        return Thrown;
      }
      TagNames(bs, log.g, segment, h0, if0, count, h, ifile, inum, fileBlock);
      CarriedHeld(bs, h0, if0, h, ifile, count, inum, fileBlock, v);
      r := Relocate(n, fileBlock, BlockAt(log.g, segment, block), v);
      if r == Done {
        CarriedOn(bs, h0, if0, h, ifile, log.held, log.iFileINode, count, v);
        StillCleared(bs, h, ifile, log.held, log.iFileINode, count, v, block);
        SlotCleared(bs, log.g, segment, h0, if0, count, log.held, log.iFileINode, block);
        TrackedMove(bs, h0, if0, h, ifile, log.held, log.iFileINode, count, v, block, inum, fileBlock);
      }
    }

    /**
     * CleanSegment: afterwards no file has a data block in the victim, nobody's bytes have changed, and an indirect block is
     * left there exactly if nothing moved took it along. But for trouble in the log it ends early exactly at a slot that
     * stops it.
     */
    method CleanSegment(segment: Segment) returns (r: Outcome)
      requires Valid() && segment.number in log.image && segment == log.image[segment.number]
      requires log.g.InLog(segment.number) && segment.number != log.tail.number
      modifies log.Repr
      ensures r == Done ==> Valid() && Files() == old(Files()) && segment.number != log.tail.number
      ensures r == Done ==> Evacuated(blockSizeInBytes, log.held, log.iFileINode, iFileSizeInINodes, segment.number)
      ensures r == Done ==>
                Carried(blockSizeInBytes, old(log.held), old(log.iFileINode), log.held, log.iFileINode, iFileSizeInINodes, segment.number)
      ensures r == Done ==> (NoIndirectIn(segment.number) <==> !old(LosesIndirectIn(segment.number)))
      ensures r == Done ==> !old(Stops(segment))
      ensures Ends(r, old(Stops(segment)), old(CleaningSlots(segment.number)), old(log.Stock()), log.Stock(), log.Jammed())
      ensures old(NoBlockIn(segment.number)) ==> log.held == old(log.held) && log.iFileINode == old(log.iFileINode)
      ensures old(NoBlockIn(segment.number)) ==> log.flash.wear[..] == old(log.flash.wear[..]) && (r == Done || old(Stops(segment)))
    {
      hide Log.Valid, Geometry.Ok, Geometry.BlockBytes, INodeOk, Contents, Entry, Views, MaxBlocks, NoHoles, TableOk;
      hide Carried, Ptr, KeepsOwned, FileBlock, Describes, SlotsCleared, BlockAt, Evacuated, WellFormed, Tracked, StopsAt,
           LosesIndirect, IndirectsElsewhere, LiveBelow, HeldIn, Ends, Log.Stock, Log.Jammed;
      ghost var bs, h0, if0, count, v := blockSizeInBytes, log.held, log.iFileINode, iFileSizeInINodes, segment.number;
      DescribedByImage(v);
      ShapeOf(log.g, segment);
      CarriedItself(bs, h0, if0, count, v);
      NothingBelowOne(bs, log.g, segment, h0, if0, count);
      TrackedStarts(bs, h0, if0, count, v);
      StopsInside(bs, segment, h0, if0, count);
      var block := 1;
      r := Done;
      NoneBelowOne(h0, v);
      NothingYet(log.Stock(), log.Jammed());
      while block < segment.numberOfBlocks
        invariant 1 <= block <= segment.numberOfBlocks && r == Done
        invariant Valid() && Files() == old(Files()) && v != log.tail.number
        invariant Ends(Done, false, MOVE_SLOTS * |LiveBelow(h0, v, block)|, old(log.Stock()), log.Stock(), log.Jammed())
        invariant TableOk(bs, h0, if0, count) && Describes(log.g, segment, h0)
        invariant Carried(bs, h0, if0, log.held, log.iFileINode, count, v)
        invariant SlotsCleared(bs, log.held, log.iFileINode, count, v, block)
        invariant Tracked(bs, h0, if0, log.held, log.iFileINode, count, v, block)
        invariant forall s: word :: 1 <= s < block ==> !StopsAt(bs, segment, h0, if0, count, s)
        invariant old(NoBlockIn(v)) ==> log.held == h0 && log.iFileINode == if0 && log.flash.wear[..] == old(log.flash.wear[..])
      {
        ghost var s1, j1 := log.Stock(), log.Jammed();
        r := CleanSlot(segment, block, h0, if0);
        LiveBelowNext(h0, v, block);
        EndsThen(MOVE_SLOTS * |LiveBelow(h0, v, block)|, old(log.Stock()), s1, j1, r, StopsAt(bs, segment, h0, if0, count, block),
                 if Addr(v, block) in h0 then MOVE_SLOTS else 0, log.Stock(), log.Jammed());
        if r != Done {
          LiveBelowAll(h0, v, block + 1);
          EndsWithin(MOVE_SLOTS * |LiveBelow(h0, v, block + 1)|, old(CleaningSlots(v)), r, StopsAt(bs, segment, h0, if0, count, block),
                     old(Stops(segment)), old(log.Stock()), log.Stock(), log.Jammed());
          return;
        }
        block := block + 1;
      }
      LiveBelowAll(h0, v, block);
      EndsWithin(MOVE_SLOTS * |LiveBelow(h0, v, block)|, old(CleaningSlots(v)), r, false, false, old(log.Stock()), log.Stock(), log.Jammed());
      AllCleared(bs, log.g, segment, h0, if0, count, log.held, log.iFileINode);
      TrackedEnds(bs, log.g, segment, h0, if0, log.held, log.iFileINode, count);
    }

    /** Slots that cleaning segment v takes at most: every live block in it may have to be moved. */
    ghost function CleaningSlots(v: word): nat
      reads log`held
    {
      MOVE_SLOTS * |HeldIn(log.held, v)|
    }

    /** No data block of any file, the table's included, lies in segment v. */
    ghost predicate NoBlockIn(v: word)
      requires blockSizeInBytes > 0
      reads this, log`held, log`iFileINode
    {
      Evacuated(blockSizeInBytes, log.held, log.iFileINode, iFileSizeInINodes, v)
    }

    /** Some slot of the segment ends a cleaning that starts now. */
    ghost predicate Stops(segment: Segment)
      requires blockSizeInBytes > 0
      reads this, log`held, log`iFileINode
    {
      StopsSomewhere(blockSizeInBytes, segment, log.held, log.iFileINode, iFileSizeInINodes)
    }

    /** Cleaning v now leaves an indirect block behind in it. */
    ghost predicate LosesIndirectIn(v: word)
      requires blockSizeInBytes > 0
      reads this, log`held, log`iFileINode
    {
      LosesIndirect(blockSizeInBytes, log.held, log.iFileINode, iFileSizeInINodes, v)
    }

    /** No inode, the table's own included, keeps its indirect block in segment v. */
    ghost predicate NoIndirectIn(v: word)
      requires blockSizeInBytes > 0
      reads this, log`held, log`iFileINode
    {
      IndirectsElsewhere(blockSizeInBytes, log.held, log.iFileINode, iFileSizeInINodes, v)
    }

    /**
     * One round of CleanLog: copy the live blocks out, erase the segment, drop it from the cache. Whether the erase loses
     * something is settled before the round: exactly if an indirect block lies in the victim and nothing moved out of it
     * rewrites that block. Otherwise nothing is lost, whatever becomes of the erase.
     */
    method CleanVictim(v: word) returns (r: Outcome, erased: Outcome)
      requires Valid() && v in log.image && log.g.InLog(v) && v != log.tail.number
      modifies log.Repr
      ensures r == Done && !old(LosesIndirectIn(v)) ==> Valid() && Files() == old(Files())
      ensures r == Done ==> log.Valid() && v != log.tail.number && !Cached(log.cache.queue, v)
      ensures r == Done && erased == Done ==> HeldIn(log.held, v) == {} && v < |log.live| && log.live[v] == 0 && v in log.unwritten
      ensures r == Done && erased == Done ==> (Valid() <==> !old(LosesIndirectIn(v)))
      ensures r == Done ==> !old(Stops(log.image[v]))
      ensures r != Done ==> Ends(r, old(Stops(log.image[v])), old(CleaningSlots(v)), old(log.Stock()), log.Stock(), log.Jammed())
      ensures old(log.Stock().room > CleaningSlots(v) || NoBlockIn(v)) ==>
                && (r == Done <==> !old(Stops(log.image[v])))
                && (r == Done && old(log.CanErase(v) && log.CanErase(log.g.usageSegment)) ==> erased == Done)
      ensures r == Done && erased != Done ==> !log.CanErase(v) || !log.CanErase(log.g.usageSegment)
    {
      hide Log.Valid, Geometry.Ok, Geometry.BlockBytes, INodeOk, Contents, Entry, Views, MaxBlocks, NoHoles, TableOk;
      hide Carried, Ptr, Evacuated, WellFormed, IndirectsElsewhere, DroppedSegment, LosesIndirect, StopsAt;
      ghost var bs, count := blockSizeInBytes, iFileSizeInINodes;
      erased := Failed;
      var segment := FetchVictim(v);
      r := CleanSegment(segment);
      if r != Done {
        return;
      }
      ghost var h, ifile := log.held, log.iFileINode;
      DroppedTable(bs, h, ifile, count, v);
      DroppedShows(bs, h, ifile, count, v);
      erased := log.EraseSegment(v);
      log.InvalidateSegment(v);
    }

    /** ReadSegment of a written segment. */
    method FetchVictim(v: word) returns (segment: Segment)
      requires log.Separate() && log.Valid() && v in log.image && log.g.InLog(v)
      ensures segment == log.image[v] && segment.number == v && v != UINT_MAX
    {
      hide LogInv, Geometry.Ok, Geometry.BlockBytes;
      GeometryFacts(log.g);
      CachedImages(log.g, log.State());
      segment := log.ReadSegment(v);
    }

    lemma DescribedByImage(v: word)
      requires log.Valid() && Sizes() && v in log.image && log.g.InLog(v) && v != log.tail.number
      ensures Describes(log.g, log.image[v], log.held) && WellFormed(log.g, log.image[v]) && log.image[v].number == v
      ensures v != UINT_MAX
    {
      hide Log.Structure, Geometry.Ok, Geometry.BlockBytes, LogInv;
      SourceStores(log.g, log.State(), v);
      CachedImages(log.g, log.State());
      GeometryFacts(log.g);
    }
  }
}
