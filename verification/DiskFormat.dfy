/** Byte layout of a disk block: PDP-11 shorts and longs, blocks of pointers and free-list blocks. */
module DiskFormat {

  const BSIZE := 1024    // DEV_BSIZE
  const NINDIR := 256    // pointers in an indirect block
  const NICFREE := 50    // entries in a table of free blocks
  const SUPERB := 1      // the block with the superblock

  type Byte = x: int | 0 <= x < 0x100
  type Long = x: int | -0x8000_0000 <= x < 0x8000_0000
  type Short = x: int | -0x8000 <= x < 0x8000

  type Block = b: seq<Byte> | |b| == BSIZE witness seq(BSIZE, _ => 0)

  function ZeroBlock(): (z: Block)
    ensures forall i :: 0 <= i < BSIZE ==> z[i] == 0
  {
    seq(BSIZE, _ => 0)
  }

  // Two's complement readings of an unsigned word.

  function Unsigned(v: Long): (u: int)
    ensures 0 <= u < 0x1_0000_0000
  {
    if v < 0 then v + 0x1_0000_0000 else v
  }

  function Signed(u: int): (v: Long)
    requires 0 <= u < 0x1_0000_0000
    ensures Unsigned(v) == u
  {
    if u < 0x8000_0000 then u else u - 0x1_0000_0000
  }

  /** Exchange of the two halves of a 32-bit word: host longs are little-endian, PDP-11 longs have
      the high half first. */
  function WordSwap(u: int): (w: int)
    requires 0 <= u < 0x1_0000_0000
    ensures 0 <= w < 0x1_0000_0000
  {
    u % 0x1_0000 * 0x1_0000 + u / 0x1_0000
  }

  lemma WordSwapTwice(u: int)
    requires 0 <= u < 0x1_0000_0000
    ensures WordSwap(WordSwap(u)) == u
    ensures WordSwap(u) == u <==> u / 0x1_0000 == u % 0x1_0000
  {
    var hi, lo := u / 0x1_0000, u % 0x1_0000;
    assert WordSwap(u) / 0x1_0000 == lo && WordSwap(u) % 0x1_0000 == hi;
  }

  /** The host's little-endian word in bytes s[at..at + 4]. */
  function HostWord(s: seq<Byte>, at: nat): (u: int)
    requires at + 4 <= |s|
    ensures 0 <= u < 0x1_0000_0000
  {
    var b0: int, b1: int, b2: int, b3: int := s[at], s[at + 1], s[at + 2], s[at + 3];
    b0 + 0x100 * b1 + 0x1_0000 * b2 + 0x100_0000 * b3
  }

  function LongAt(s: seq<Byte>, at: nat): Long
    requires at + 4 <= |s|
  {
    Signed(WordSwap(HostWord(s, at)))
  }

  /** Byte i of the stored form of v. */
  function LongByte(v: Long, i: int): Byte
    requires 0 <= i < 4
  {
    var w := WordSwap(Unsigned(v));
    match i
    case 0 => w % 0x100
    case 1 => w / 0x100 % 0x100
    case 2 => w / 0x1_0000 % 0x100
    case 3 => w / 0x100_0000
  }

  lemma BytesOfWord(w: int)
    ensures w == w % 0x100 + 0x100 * (w / 0x100 % 0x100)
                 + 0x1_0000 * (w / 0x1_0000 % 0x100) + 0x100_0000 * (w / 0x100_0000)
  {
    var q1 := w / 0x100;
    var q2 := q1 / 0x100;
    assert w / 0x1_0000 == q2;
    assert w / 0x100_0000 == q2 / 0x100;
  }

  lemma LongRoundTrip(s: seq<Byte>, at: nat, v: Long)
    requires at + 4 <= |s|
    requires forall i :: 0 <= i < 4 ==> s[at + i] == LongByte(v, i)
    ensures LongAt(s, at) == v
  {
    var w := WordSwap(Unsigned(v));
    assert s[at] == LongByte(v, 0) && s[at + 1] == LongByte(v, 1);
    assert s[at + 2] == LongByte(v, 2) && s[at + 3] == LongByte(v, 3);
    BytesOfWord(w);
    assert HostWord(s, at) == w;
    WordSwapTwice(Unsigned(v));
  }

  function ShortAt(s: seq<Byte>, at: nat): Short
    requires at + 2 <= |s|
  {
    var lo: int, hi: int := s[at], s[at + 1];
    var u := lo + 0x100 * hi;
    if u < 0x8000 then u else u - 0x1_0000
  }

  function ShortByte(v: Short, i: int): Byte
    requires 0 <= i < 2
  {
    var u := if v < 0 then v + 0x1_0000 else v;
    if i == 0 then u % 0x100 else u / 0x100
  }

  // Blocks of pointers.

  function Pointers(b: Block): (p: seq<Long>)
    ensures |p| == NINDIR
  {
    seq(NINDIR, i requires 0 <= i < NINDIR => LongAt(b, 4 * i))
  }

  function PointerByte(b: Block, slot: nat, v: Long, i: int): Byte
    requires slot < NINDIR && 0 <= i < BSIZE
  {
    if 4 * slot <= i < 4 * slot + 4 then LongByte(v, i - 4 * slot) else b[i]
  }

  function SetPointer(b: Block, slot: nat, v: Long): Block
    requires slot < NINDIR
  {
    seq(BSIZE, i requires 0 <= i < BSIZE => PointerByte(b, slot, v, i))
  }

  /** The block with every byte from n on cleared: what bzero leaves. */
  function ZeroFrom(b: Block, n: nat): (z: Block)
    requires n <= BSIZE
    ensures forall i :: 0 <= i < n ==> z[i] == b[i]
    ensures forall i :: n <= i < BSIZE ==> z[i] == 0
  {
    seq<Byte>(BSIZE, i requires 0 <= i < BSIZE => if i < n then b[i] else 0)
  }

  lemma SetPointerPointers(b: Block, slot: nat, v: Long)
    requires slot < NINDIR
    ensures Pointers(SetPointer(b, slot, v)) == Pointers(b)[slot := v]
  {
    hide LongAt, LongByte;
    var b' := SetPointer(b, slot, v);
    assert forall i :: 0 <= i < BSIZE ==> b'[i] == PointerByte(b, slot, v, i);
    LongRoundTrip(b', 4 * slot, v);
    forall i | 0 <= i < NINDIR && i != slot
      ensures LongAt(b', 4 * i) == LongAt(b, 4 * i)
    {
      SameLong(b, b', 4 * i);
    }
  }

  lemma SameLong(b: Block, c: Block, at: nat)
    requires at + 4 <= BSIZE && forall i :: at <= i < at + 4 ==> c[i] == b[i]
    ensures LongAt(c, at) == LongAt(b, at)
  {
  }

  lemma ZeroFromPointers(b: Block, slot: nat)
    requires slot <= NINDIR
    ensures |Pointers(b)| == NINDIR
    ensures Pointers(ZeroFrom(b, 4 * slot)) == Pointers(b)[..slot] + seq(NINDIR - slot, _ => 0)
  {
    var z := ZeroFrom(b, 4 * slot);
    forall i | 0 <= i < NINDIR
      ensures LongAt(z, 4 * i) == if i < slot then LongAt(b, 4 * i) else 0
    {
      if i < slot {
        assert HostWord(z, 4 * i) == HostWord(b, 4 * i);
      } else {
        assert HostWord(z, 4 * i) == 0;
      }
    }
  }

  lemma ZeroBlockPointers()
    ensures forall i :: 0 <= i < NINDIR ==> Pointers(ZeroBlock())[i] == 0
  {
    forall i | 0 <= i < NINDIR ensures Pointers(ZeroBlock())[i] == 0 {
      assert HostWord(ZeroBlock(), 4 * i) == 0;
    }
  }

  // Tables of free blocks: struct fblk, and the same fields inside the superblock.

  datatype FreeTable = FreeTable(nfree: Short, free: seq<Long>) {
    predicate Sized() {
      |free| == NICFREE
    }
  }

  const TABLE_SIZE := 2 + 4 * NICFREE

  function TableAt(b: Block, at: nat): (t: FreeTable)
    requires at + TABLE_SIZE <= BSIZE
    ensures t.Sized()
  {
    FreeTable(ShortAt(b, at), seq(NICFREE, i requires 0 <= i < NICFREE => LongAt(b, at + 2 + 4 * i)))
  }

  function TableByte(b: Block, at: nat, t: FreeTable, i: int): Byte
    requires t.Sized() && at + TABLE_SIZE <= BSIZE && 0 <= i < BSIZE
  {
    if at <= i < at + 2 then ShortByte(t.nfree, i - at)
    else if at + 2 <= i < at + TABLE_SIZE then LongByte(t.free[(i - at - 2) / 4], (i - at - 2) % 4)
    else b[i]
  }

  function PutTable(b: Block, at: nat, t: FreeTable): Block
    requires at + TABLE_SIZE <= BSIZE && t.Sized()
  {
    seq(BSIZE, i requires 0 <= i < BSIZE => TableByte(b, at, t, i))
  }

  lemma TableEntryRoundTrip(b: Block, at: nat, t: FreeTable, i: nat)
    requires at + TABLE_SIZE <= BSIZE && t.Sized() && i < NICFREE
    ensures TableAt(PutTable(b, at, t), at).free[i] == t.free[i]
  {
    var b' := PutTable(b, at, t);
    var k := at + 2 + 4 * i;
    forall j | 0 <= j < 4
      ensures b'[k + j] == LongByte(t.free[i], j)
    {
      assert (k + j - at - 2) / 4 == i && (k + j - at - 2) % 4 == j;
    }
    LongRoundTrip(b', k, t.free[i]);
  }

  lemma ShortRoundTrip(s: seq<Byte>, at: nat, v: Short)
    requires at + 2 <= |s| && s[at] == ShortByte(v, 0) && s[at + 1] == ShortByte(v, 1)
    ensures ShortAt(s, at) == v
  {
  }

  lemma TableRoundTrip(b: Block, at: nat, t: FreeTable)
    requires at + TABLE_SIZE <= BSIZE && t.Sized()
    ensures TableAt(PutTable(b, at, t), at) == t
  {
    var t' := TableAt(PutTable(b, at, t), at);
    assert t'.nfree == t.nfree by {
      ShortRoundTrip(PutTable(b, at, t), at, t.nfree);
    }
    assert t'.free == t.free by {
      forall i | 0 <= i < NICFREE
        ensures t'.free[i] == t.free[i]
      {
        TableEntryRoundTrip(b, at, t, i);
      }
    }
  }

  // The device: a plain array of blocks.

  type Disk = seq<Block>

  /** Contents of block b; blocks outside the device read as zeros. */
  function At(d: Disk, b: int): Block {
    if 0 <= b < |d| then d[b] else ZeroBlock()
  }

  lemma AtIs(d: Disk, b: nat)
    requires b < |d|
    ensures At(d, b) == d[b]
  {
  }

  lemma AtWrite(d: Disk, i: nat, v: Block)
    requires i < |d|
    ensures forall b :: At(d[i := v], b) == if b == i then v else At(d, b)
  {
    hide ZeroBlock;
    forall b
      ensures At(d[i := v], b) == if b == i then v else At(d, b)
    {
    }
  }
}
