/** The emulated flash: write-once sectors grouped in erase blocks that wear out. */
module FlashLayer {
  import opened Words

  const SECTORS_PER_BLOCK: nat := 16
  const SECTOR_SIZE: nat := 512

  /** The erase block a sector belongs to. */
  function BlockOf(sector: nat): nat {
    sector / SECTORS_PER_BLOCK
  }

  /** How many erase blocks of [block, block + count) an erase gets through before it meets a worn-out one. */
  function Erasable(wear: seq<nat>, limit: nat, block: nat, count: nat): (n: nat)
    requires block + count <= |wear|
    ensures n <= count
    ensures forall b :: block <= b < block + n ==> wear[b] < limit
    ensures n < count ==> wear[block + n] >= limit
    decreases count
  {
    if count == 0 || wear[block] >= limit then 0 else 1 + Erasable(wear, limit, block + 1, count - 1)
  }

  /** Only the wear of the blocks to be erased matters. */
  lemma {:induction false} ErasableSame(wear: seq<nat>, wear': seq<nat>, limit: nat, block: nat, count: nat)
    requires block + count <= |wear| == |wear'| && forall b :: block <= b < block + count ==> wear'[b] == wear[b]
    ensures Erasable(wear', limit, block, count) == Erasable(wear, limit, block, count)
    decreases count
  {
    if count > 0 {
      ErasableSame(wear, wear', limit, block + 1, count - 1);
    }
  }

  class Flash {
    const blocks: nat
    const wearLimit: nat
    const data: array<byte>
    const full: array<bool>
    const wear: array<nat>
    /** History: successful writes of each sector since the flash was created. */
    ghost var writes: seq<nat>

    ghost const Repr: set<object>

    ghost function Bytes(): (d: seq<byte>)
      reads data
      ensures |d| == data.Length
    {
      data[..]
    }

    /** Holds in every state: a sector is written at most once between two erases of its block. */
    ghost predicate Valid()
      reads this, Repr
    {
      && Repr == {this, data, full, wear}
      && data as object != full as object && data as object != wear as object && full as object != wear as object
      && data.Length == blocks * SECTORS_PER_BLOCK * SECTOR_SIZE
      && full.Length == blocks * SECTORS_PER_BLOCK
      && wear.Length == blocks
      && |writes| == full.Length
      && (forall b :: 0 <= b < blocks ==> wear[b] <= wearLimit)
      && (forall k :: 0 <= k < |writes| ==>
            writes[k] <= wear[BlockOf(k)] + if full[k] then 1 else 0)
    }

    constructor (wearLimit: nat, blocks: nat)
      ensures Valid() && fresh(Repr)
      ensures this.blocks == blocks && this.wearLimit == wearLimit
      ensures forall k :: 0 <= k < full.Length ==> !full[k] && writes[k] == 0
      ensures forall b :: 0 <= b < blocks ==> wear[b] == 0
      ensures forall k :: 0 <= k < data.Length ==> data[k] == 0
    {
      this.blocks := blocks;
      this.wearLimit := wearLimit;
      var sectors := blocks * SECTORS_PER_BLOCK;
      var d := new byte[sectors * SECTOR_SIZE](_ => 0);
      var f := new bool[sectors](_ => false);
      var w := new nat[blocks](_ => 0);
      data := d;
      full := f;
      wear := w;
      writes := seq(sectors, _ => 0);
      Repr := {this, d, f, w};
    }

    /** FlashIO on the read path: only the bounds are checked, never the sector states. */
    method Read(sector: nat, count: nat) returns (rc: nat, buffer: seq<byte>)
      requires Valid()
      ensures rc == 0 <==> sector + count <= full.Length
      ensures rc == 0 || rc == 1
      ensures rc == 0 ==> buffer == Bytes()[sector * SECTOR_SIZE..(sector + count) * SECTOR_SIZE]
    {
      buffer := [];
      if sector + count > blocks * SECTORS_PER_BLOCK {
        return 1, buffer;
      }
      return 0, data[sector * SECTOR_SIZE..(sector + count) * SECTOR_SIZE];
    }

    /** All or nothing: one FULL sector in the range, or a range off the end, and nothing changes. */
    method Write(sector: nat, count: nat, buffer: seq<byte>) returns (rc: nat)
      requires Valid()
      requires |buffer| == count * SECTOR_SIZE
      modifies this, data, full
      ensures Valid()
      ensures rc == 0 || rc == 1
      ensures rc == 0 <==> sector + count <= full.Length && forall k :: sector <= k < sector + count ==> !old(full[k])
      ensures rc != 0 ==> Bytes() == old(Bytes()) && full[..] == old(full[..]) && writes == old(writes)
      ensures rc == 0 ==> Bytes() == Spliced(old(Bytes()), sector * SECTOR_SIZE, buffer)
      ensures rc == 0 ==> forall k :: 0 <= k < full.Length ==> full[k] == (old(full[k]) || sector <= k < sector + count)
      ensures rc == 0 ==> forall k :: 0 <= k < full.Length ==>
          writes[k] == old(writes)[k] + if sector <= k < sector + count then 1 else 0
    {
      var i := sector;
      while i < sector + count
        invariant sector <= i <= sector + count
        invariant i <= full.Length || i == sector
        invariant forall k :: sector <= k < i ==> !full[k]
      {
        if i >= full.Length {
          // past the state array: FlashIO's bounds check rejects the call whatever is read there
          return 1;
        }
        if full[i] {
          return 1;
        }
        i := i + 1;
      }
      if sector + count > blocks * SECTORS_PER_BLOCK {
        return 1;
      }
      CopyIn(sector * SECTOR_SIZE, buffer);
      i := sector;
      while i < sector + count
        modifies full
        invariant sector <= i <= sector + count
        invariant forall k :: 0 <= k < full.Length ==> full[k] == (old(full[k]) || sector <= k < i)
        invariant Bytes() == Spliced(old(Bytes()), sector * SECTOR_SIZE, buffer)
      {
        full[i] := true;
        i := i + 1;
      }
      ghost var before := writes;
      writes := seq(|before|, k requires 0 <= k < |before| => before[k] + if sector <= k < sector + count then 1 else 0);
      return 0;
    }

    /** write(2) at a byte offset. */
    method CopyIn(at: nat, buffer: seq<byte>)
      requires at + |buffer| <= data.Length
      modifies data
      ensures Bytes() == Spliced(old(Bytes()), at, buffer)
    {
      forall k | 0 <= k < |buffer| {
        data[at + k] := buffer[k];
      }
      assert data[at..at + |buffer|] == buffer;
      assert data[..] == data[..at] + data[at..at + |buffer|] + data[at + |buffer|..];
    }

    /** Erasing clears the state of a block's sectors and leaves their bytes. */
    method MarkEmpty(block: nat)
      requires full.Length == blocks * SECTORS_PER_BLOCK && block < blocks
      modifies full
      ensures forall k :: 0 <= k < full.Length ==> full[k] == (old(full[k]) && BlockOf(k) != block)
    {
      var j := 0;
      while j < SECTORS_PER_BLOCK
        invariant 0 <= j <= SECTORS_PER_BLOCK
        invariant forall k :: 0 <= k < full.Length ==>
            full[k] == (old(full[k]) && !(block * SECTORS_PER_BLOCK <= k < block * SECTORS_PER_BLOCK + j))
      {
        full[block * SECTORS_PER_BLOCK + j] := false;
        j := j + 1;
      }
    }

    /** Erases block by block and stops at the first worn-out one; the bytes of erased sectors stay. */
    method Erase(block: nat, count: nat) returns (rc: nat)
      requires Valid()
      requires block + count <= blocks
      modifies full, wear
      ensures Valid()
      ensures rc == 0 || rc == 1
      ensures var n := Erasable(old(wear[..]), wearLimit, block, count);
              && (rc == 0 <==> n == count)
              && (forall b :: 0 <= b < blocks ==> wear[b] == old(wear[b]) + if block <= b < block + n then 1 else 0)
              && (forall k :: 0 <= k < full.Length ==>
                    full[k] == (old(full[k]) && !(block <= BlockOf(k) < block + n)))
    {
      ghost var w0 := wear[..];
      var i := block;
      while i < block + count
        invariant block <= i <= block + count
        invariant Valid()
        invariant forall b :: 0 <= b < blocks ==> wear[b] == w0[b] + if block <= b < i then 1 else 0
        invariant forall k :: 0 <= k < full.Length ==>
            full[k] == (old(full[k]) && !(block <= BlockOf(k) < i))
        invariant Erasable(w0, wearLimit, block, count) == i - block + Erasable(w0, wearLimit, i, block + count - i)
      {
        if wear[i] >= wearLimit {
          return 1;
        }
        wear[i] := wear[i] + 1;
        MarkEmpty(i);
        i := i + 1;
      }
      return 0;
    }

    /** The endurance bound every reachable state meets. */
    lemma WearBound(sector: nat)
      requires Valid() && sector < |writes|
      ensures writes[sector] <= wear[BlockOf(sector)] + if full[sector] then 1 else 0
      ensures writes[sector] <= wearLimit + 1
    {
    }
  }

  const MAX_WEAR_LIMIT: nat := 100000
  const MAX_BLOCKS: nat := 1000000

  /** Flash_Create: within both limits a flash that was never written, otherwise none. */
  method Create(wearLimit: nat, blocks: nat) returns (rc: nat, flash: Flash?)
    ensures rc == 0 <==> wearLimit <= MAX_WEAR_LIMIT && blocks <= MAX_BLOCKS
    ensures rc == 0 <==> flash != null
    ensures flash != null ==> flash.Valid() && fresh(flash) && fresh(flash.Repr) && flash.blocks == blocks && flash.wearLimit == wearLimit
    ensures flash != null ==> forall k :: 0 <= k < flash.full.Length ==> !flash.full[k] && flash.writes[k] == 0
    ensures flash != null ==> forall b :: 0 <= b < flash.wear.Length ==> flash.wear[b] == 0
    ensures flash != null ==> forall k :: 0 <= k < flash.data.Length ==> flash.data[k] == 0
  {
    if wearLimit > MAX_WEAR_LIMIT || blocks > MAX_BLOCKS {
      return 1, null;
    }
    flash := new Flash(wearLimit, blocks);
    rc := 0;
  }
}
