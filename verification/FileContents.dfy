/** The contents of a file as a plain sequence of bytes. */
module FileContents {
  import opened DiskFormat
  import opened InodeMap
  import opened Growth
  import opened FileTrim

  const MAX_BYTES := MAX_BLOCKS * BSIZE

  /** Byte i of the mapped data, whatever the file size says; holes read as zeros. */
  function ByteAt(d: Disk, addr: seq<int>, i: nat): Byte
    requires |addr| == NADDR
  {
    if i / BSIZE >= MAX_BLOCKS then 0
    else if BlockOf(d, addr, i / BSIZE) == 0 then 0
    else At(d, BlockOf(d, addr, i / BSIZE))[i % BSIZE]
  }

  /** What a reader sees. */
  function Contents(d: Disk, addr: seq<int>, size: nat): (s: seq<Byte>)
    requires |addr| == NADDR
    ensures |s| == size
  {
    seq(size, i requires 0 <= i < size => ByteAt(d, addr, i))
  }

  lemma ContentsAt(d: Disk, addr: seq<int>, size: nat, i: nat)
    requires |addr| == NADDR && i < size
    ensures Contents(d, addr, size)[i] == ByteAt(d, addr, i)
  {
    hide ByteAt;
  }

  /** Mapped bytes past the end of the file are zero, so that a later extension reads as zeros. */
  ghost predicate CleanTail(d: Disk, addr: seq<int>, size: nat)
    requires |addr| == NADDR
  {
    forall i :: i >= size ==> ByteAt(d, addr, i) == 0
  }

  ghost predicate SameBytes(d0: Disk, addr0: seq<int>, d: Disk, addr: seq<int>)
    requires |addr0| == |addr| == NADDR
  {
    forall i: nat :: ByteAt(d, addr, i) == ByteAt(d0, addr0, i)
  }

  /** A lazy allocation by bmap leaves the bytes of the other blocks alone, and those of its own block
      too when the new block was cleared. */
  lemma MappedByte(d0: Disk, addr0: seq<int>, avail0: seq<int>, d: Disk, addr: seq<int>, avail: seq<int>,
      bn: nat, i: nat)
    requires Mapped(d0, addr0, avail0, d, addr, avail, bn) && bn < MAX_BLOCKS
    requires Separate(Claims(d0, addr0, 0), avail0)
    requires i / BSIZE == bn ==>
      || (BlockOf(d, addr, bn) == 0 && BlockOf(d0, addr0, bn) == 0)
      || (d == d0 && addr == addr0)
      || (BlockOf(d0, addr0, bn) == 0 && At(d, BlockOf(d, addr, bn)) == ZeroBlock())
    ensures ByteAt(d, addr, i) == ByteAt(d0, addr0, i)
  {
    hide Claims, BlockOf, At, ZeroBlock;
    var b := i / BSIZE;
    if b < MAX_BLOCKS && b != bn && BlockOf(d0, addr0, b) != 0 {
      DataKept(d0, addr0, avail0, b);
    }
  }

  lemma DataKept(d: Disk, addr: seq<int>, avail: seq<int>, bn: nat)
    requires |addr| == NADDR && bn < MAX_BLOCKS && Separate(Claims(d, addr, 0), avail)
    requires BlockOf(d, addr, bn) != 0
    ensures var x := BlockOf(d, addr, bn);
      x !in avail && x !in Claims(d, addr, 1) && x != SUPERB && x in Claims(d, addr, 0)
  {
    hide Claims, BlockOf, At;
    SeparateOnce(Claims(d, addr, 0), avail);
    DataInClaims(d, addr, bn);
    DataNotInner(d, addr, bn);
  }

  /** Overwriting one data block changes the bytes of that block only. */
  lemma DataWritten(d: Disk, addr: seq<int>, avail: seq<int>, bn: nat, n: int, v: Block)
    requires |addr| == NADDR && bn < MAX_BLOCKS && Separate(Claims(d, addr, 0), avail)
    requires BlockOf(d, addr, bn) == n && 0 < n < |d|
    ensures forall f: nat :: Claims(d[n := v], addr, f) == Claims(d, addr, f)
    ensures forall b :: 0 <= b < MAX_BLOCKS ==> BlockOf(d[n := v], addr, b) == BlockOf(d, addr, b)
    ensures forall i: nat :: ByteAt(d[n := v], addr, i) == if i / BSIZE == bn then v[i % BSIZE] else ByteAt(d, addr, i)
  {
    hide Claims, BlockOf, At;
    var d' := d[n := v];
    DataKept(d, addr, avail, bn);
    AtWrite(d, n, v);
    SeparateOnce(Claims(d, addr, 0), avail);
    forall f: nat
      ensures Claims(d', addr, f) == Claims(d, addr, f)
    {
      ClaimsFrame(d, d', addr, f);
    }
    forall b | 0 <= b < MAX_BLOCKS
      ensures BlockOf(d', addr, b) == BlockOf(d, addr, b)
      ensures BlockOf(d, addr, b) == n ==> b == bn
    {
      BlockOfFrame(d, d', addr, b);
      if BlockOf(d, addr, b) == n {
        BlockOfUnique(d, addr, b, bn);
      }
    }
  }

  /** Logical block count of a file of the given length, less one: the last block it needs. */
  function LastBlock(length: nat): int {
    (length + BSIZE - 1) / BSIZE - 1
  }

  /** After all slots are cut down, the bytes of the kept blocks are as before and the rest are holes. */
  lemma CutBytes(d0: Disk, addr0: seq<int>, avail0: seq<int>, d: Disk, addr: seq<int>, avail: seq<int>, length: nat)
    requires CutDown(d0, addr0, avail0, d, addr, avail, 0, LastBlock(length))
    requires forall i: nat :: i >= length && i / BSIZE <= LastBlock(length) ==> ByteAt(d0, addr0, i) == 0
    ensures forall i: nat :: ByteAt(d, addr, i) == if i < length then ByteAt(d0, addr0, i) else 0
  {
    hide Claims, BlockOf, At, SlotTrees, SlotKept, SlotFor;
    var last := LastBlock(length);
    forall i: nat
      ensures ByteAt(d, addr, i) == if i < length then ByteAt(d0, addr0, i) else 0
    {
      assert i < length ==> i / BSIZE <= last;
    }
  }

  /** What any operation on one file may do to the volume: blocks move between the file and the free
      list, none is lost or shared, and nothing outside the two and the superblock is written. */
  ghost predicate Local(d0: Disk, addr0: seq<int>, avail0: seq<int>, d: Disk, addr: seq<int>, avail: seq<int>) {
    && |addr0| == |addr| == NADDR && |d| == |d0|
    && Claims(d, addr, 0) + multiset(avail) == Claims(d0, addr0, 0) + multiset(avail0)
    && (forall x :: x !in avail0 && x !in Claims(d0, addr0, 0) && x != SUPERB ==> At(d, x) == At(d0, x))
  }

  lemma LocalTwice(d0: Disk, addr0: seq<int>, avail0: seq<int>, d1: Disk, addr1: seq<int>, avail1: seq<int>,
                   d: Disk, addr: seq<int>, avail: seq<int>)
    requires Local(d0, addr0, avail0, d1, addr1, avail1) && Local(d1, addr1, avail1, d, addr, avail)
    ensures Local(d0, addr0, avail0, d, addr, avail)
  {
    hide Claims, At;
    forall x
      ensures x in avail1 || x in Claims(d1, addr1, 0) ==> x in avail0 || x in Claims(d0, addr0, 0)
    {
      assert (Claims(d1, addr1, 0) + multiset(avail1))[x] == (Claims(d0, addr0, 0) + multiset(avail0))[x];
    }
  }

  lemma MappedLocal(d0: Disk, addr0: seq<int>, avail0: seq<int>, d: Disk, addr: seq<int>, avail: seq<int>, bn: nat)
    requires Mapped(d0, addr0, avail0, d, addr, avail, bn)
    ensures Local(d0, addr0, avail0, d, addr, avail)
  {
    hide Claims, At, BlockOf;
    InnerClaims(d0, addr0);
  }

  lemma WrittenLocal(d: Disk, addr: seq<int>, avail: seq<int>, bn: nat, n: int, v: Block)
    requires |addr| == NADDR && bn < MAX_BLOCKS && Separate(Claims(d, addr, 0), avail)
    requires BlockOf(d, addr, bn) == n && 0 < n < |d|
    ensures Local(d, addr, avail, d[n := v], addr, avail)
  {
    hide Claims, At, BlockOf;
    DataWritten(d, addr, avail, bn, n, v);
    DataKept(d, addr, avail, bn);
    AtWrite(d, n, v);
  }

  lemma CutLocal(d0: Disk, addr0: seq<int>, avail0: seq<int>, d: Disk, addr: seq<int>, avail: seq<int>, last: int)
    requires CutDown(d0, addr0, avail0, d, addr, avail, 0, last)
    ensures Local(d0, addr0, avail0, d, addr, avail)
  {
    hide Claims, At, BlockOf, SlotKept, SlotTrees, SlotFor;
  }

  lemma MappedSameBytes(d0: Disk, addr0: seq<int>, avail0: seq<int>, d: Disk, addr: seq<int>, avail: seq<int>, bn: nat)
    requires |addr0| == |addr| == NADDR
    requires Mapped(d0, addr0, avail0, d, addr, avail, bn) && bn < MAX_BLOCKS
    requires Separate(Claims(d0, addr0, 0), avail0)
    requires
      || (BlockOf(d, addr, bn) == 0 && BlockOf(d0, addr0, bn) == 0)
      || (d == d0 && addr == addr0)
      || (BlockOf(d0, addr0, bn) == 0 && At(d, BlockOf(d, addr, bn)) == ZeroBlock())
    ensures SameBytes(d0, addr0, d, addr)
  {
    hide Claims, BlockOf, At, ZeroBlock, ByteAt, Mapped, Separate;
    forall i: nat
      ensures ByteAt(d, addr, i) == ByteAt(d0, addr0, i)
    {
      MappedByte(d0, addr0, avail0, d, addr, avail, bn, i);
    }
  }

  /** Where a shrinking file ends. */
  lemma ShrinkEnd(length: nat, size: nat)
    requires length < size <= MAX_BYTES
    ensures length / BSIZE < MAX_BLOCKS && LastBlock(length) < MAX_BLOCKS
    ensures length % BSIZE != 0 ==> LastBlock(length) == length / BSIZE
    ensures length % BSIZE == 0 ==> LastBlock(length) == length / BSIZE - 1
    ensures length % BSIZE == 0 ==> forall i: nat :: !(i >= length && i / BSIZE <= LastBlock(length))
  {
  }

  /** Clearing the rest of the block with the new end. */
  lemma TailZeroed(d: Disk, addr: seq<int>, avail: seq<int>, length: nat, n: int, d': Disk)
    requires |addr| == NADDR && length / BSIZE < MAX_BLOCKS && length % BSIZE != 0
    requires Separate(Claims(d, addr, 0), avail)
    requires BlockOf(d, addr, length / BSIZE) == n && 0 < n < |d| && d' == d[n := ZeroFrom(d[n], length % BSIZE)]
    ensures forall i: nat ::
      ByteAt(d', addr, i) == if i >= length && i / BSIZE == length / BSIZE then 0 else ByteAt(d, addr, i)
  {
    hide Claims, BlockOf, ByteAt, ZeroFrom;
    var v := ZeroFrom(d[n], length % BSIZE);
    DataWritten(d, addr, avail, length / BSIZE, n, v);
    forall i: nat
      ensures ByteAt(d', addr, i) == if i >= length && i / BSIZE == length / BSIZE then 0 else ByteAt(d, addr, i)
    {
      if i / BSIZE == length / BSIZE {
        ByteIn(d, addr, i, n);
        var r := i % BSIZE;
        assert i >= length <==> r >= length % BSIZE;
        assert v[r] == if r < length % BSIZE then d[n][r] else 0;
      }
    }
  }

  lemma ByteIn(d: Disk, addr: seq<int>, i: nat, n: int)
    requires |addr| == NADDR && i / BSIZE < MAX_BLOCKS && BlockOf(d, addr, i / BSIZE) == n && 0 < n < |d|
    ensures ByteAt(d, addr, i) == d[n][i % BSIZE]
  {
    hide BlockOf;
  }

  /** Block b with `chunk` copied in at byte `on`. */
  function Patched(b: Block, on: nat, chunk: seq<Byte>): (p: Block)
    requires on + |chunk| <= BSIZE
    ensures forall j :: 0 <= j < BSIZE ==> p[j] == if on <= j < on + |chunk| then chunk[j - on] else b[j]
  {
    b[..on] + chunk + b[on + |chunk|..]
  }

  /** The bytes are the old ones with `data` written over them at `offset`. */
  ghost predicate Overwritten(d0: Disk, addr0: seq<int>, d: Disk, addr: seq<int>, offset: nat, data: seq<Byte>)
    requires |addr0| == |addr| == NADDR
  {
    forall i: nat :: ByteAt(d, addr, i)
      == if offset <= i < offset + |data| then data[i - offset] else ByteAt(d0, addr0, i)
  }

  lemma OverwrittenTwice(d0: Disk, addr0: seq<int>, d1: Disk, addr1: seq<int>, d: Disk, addr: seq<int>,
      offset: nat, data: seq<Byte>, more: seq<Byte>)
    requires |addr0| == |addr1| == |addr| == NADDR
    requires Overwritten(d0, addr0, d1, addr1, offset, data)
    requires Overwritten(d1, addr1, d, addr, offset + |data|, more)
    ensures Overwritten(d0, addr0, d, addr, offset, data + more)
  {
    hide ByteAt;
  }

  lemma OverwrittenTail(d0: Disk, addr0: seq<int>, d: Disk, addr: seq<int>, offset: nat, data: seq<Byte>,
      size0: nat, size: nat)
    requires |addr0| == |addr| == NADDR
    requires Overwritten(d0, addr0, d, addr, offset, data) && CleanTail(d0, addr0, size0)
    requires size >= size0 && (data != [] ==> size >= offset + |data|)
    ensures CleanTail(d, addr, size)
  {
    hide ByteAt;
  }

  /** Mapping a block and patching it: only the patched bytes change. */
  lemma ChunkWritten(d0: Disk, addr0: seq<int>, avail0: seq<int>, d1: Disk, addr: seq<int>, avail: seq<int>,
      d: Disk, offset: nat, chunk: seq<Byte>)
    requires |addr0| == |addr| == NADDR
    requires var bn, on := offset / BSIZE, offset % BSIZE;
      && bn < MAX_BLOCKS && on + |chunk| <= BSIZE
      && Mapped(d0, addr0, avail0, d1, addr, avail, bn)
      && Separate(Claims(d0, addr0, 0), avail0) && Separate(Claims(d1, addr, 0), avail)
      && 0 < BlockOf(d1, addr, bn) < |d1|
      && d == d1[BlockOf(d1, addr, bn) := Patched(d1[BlockOf(d1, addr, bn)], on, chunk)]
    requires var bn := offset / BSIZE;
      || (d1 == d0 && addr == addr0)
      || (BlockOf(d0, addr0, bn) == 0 && (|chunk| == BSIZE || At(d1, BlockOf(d1, addr, bn)) == ZeroBlock()))
    ensures Overwritten(d0, addr0, d, addr, offset, chunk)
  {
    hide Claims, BlockOf, ByteAt, At, ZeroBlock, Separate, Patched, Mapped;
    var bn, on := offset / BSIZE, offset % BSIZE;
    var n := BlockOf(d1, addr, bn);
    var v := Patched(d1[n], on, chunk);
    DataWritten(d1, addr, avail, bn, n, v);
    forall i: nat
      ensures ByteAt(d, addr, i) == if offset <= i < offset + |chunk| then chunk[i - offset] else ByteAt(d0, addr0, i)
    {
      var r := i % BSIZE;
      if i / BSIZE == bn {
        assert offset <= i < offset + |chunk| <==> on <= r < on + |chunk|;
        assert v[r] == if on <= r < on + |chunk| then chunk[r - on] else d1[n][r];
        ByteIn(d1, addr, i, n);
        if |chunk| < BSIZE {
          MappedByte(d0, addr0, avail0, d1, addr, avail, bn, i);
        }
      } else {
        MappedByte(d0, addr0, avail0, d1, addr, avail, bn, i);
      }
    }
  }
}
