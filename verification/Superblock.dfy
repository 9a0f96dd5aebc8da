/** The superblock (struct fs in fs.h): the fields that say where the free list is, in the block that holds them. */
module Superblock {
  import opened DiskFormat
  import opened Tally
  import opened FreeChain

  const FREE_OFFSET := 6      // byte offset of fs_nfree
  const TFREE_OFFSET := 418   // byte offset of fs_tfree

  datatype Super = Super(isize: int, fsize: int, table: FreeTable, tfree: int) {
    /** The fields fit into the bytes they have. */
    predicate Fits() {
      && 0 <= isize < 0x1_0000 && table.Sized()
      && -0x8000_0000 <= fsize < 0x8000_0000 && -0x8000_0000 <= tfree < 0x8000_0000
    }
  }

  /** The low 32 bits. */
  function Low(v: int): Long {
    Signed(v % 0x1_0000_0000)
  }

  function SuperByte(b: Block, s: Super, i: int): Byte
    requires s.table.Sized() && 0 <= i < BSIZE
  {
    if i == 0 then s.isize % 0x100
    else if i == 1 then s.isize / 0x100 % 0x100
    else if i < FREE_OFFSET then LongByte(Low(s.fsize), i - 2)
    else if TFREE_OFFSET <= i < TFREE_OFFSET + 4 then LongByte(Low(s.tfree), i - TFREE_OFFSET)
    else TableByte(b, FREE_OFFSET, s.table, i)
  }

  /** The fields are copied over block b. */
  function PutSuper(b: Block, s: Super): Block
    requires s.table.Sized()
  {
    seq(BSIZE, i requires 0 <= i < BSIZE => SuperByte(b, s, i))
  }

  function SuperAt(b: Block): (s: Super)
    ensures s.table.Sized()
  {
    var lo: int, hi: int := b[0], b[1];
    Super(lo + 0x100 * hi, LongAt(b, 2), TableAt(b, FREE_OFFSET), LongAt(b, TFREE_OFFSET))
  }

  /** A superblock that was written is read back. */
  lemma SuperRoundTrip(b: Block, s: Super)
    requires s.Fits()
    ensures SuperAt(PutSuper(b, s)) == s
  {
    hide LongAt, LongByte, TableAt, TableByte, PutTable;
    var c := PutSuper(b, s);
    LowIs(s.fsize);
    LowIs(s.tfree);
    LongRoundTrip(c, 2, s.fsize);
    LongRoundTrip(c, TFREE_OFFSET, s.tfree);
    assert SuperAt(c).table == s.table by {
      TableRoundTrip(b, FREE_OFFSET, s.table);
      PutTableByte(b, s.table);
      SameTable(PutTable(b, FREE_OFFSET, s.table), c, FREE_OFFSET);
    }
  }

  lemma LowIs(v: int)
    requires -0x8000_0000 <= v < 0x8000_0000
    ensures Low(v) == v
  {
  }

  lemma PutTableByte(b: Block, t: FreeTable)
    requires t.Sized()
    ensures forall i :: 0 <= i < BSIZE ==> PutTable(b, FREE_OFFSET, t)[i] == TableByte(b, FREE_OFFSET, t, i)
  {
    hide TableByte;
  }

  lemma SameTable(b: Block, c: Block, at: nat)
    requires at + TABLE_SIZE <= BSIZE && forall i :: at <= i < at + TABLE_SIZE ==> b[i] == c[i]
    ensures TableAt(b, at) == TableAt(c, at)
  {
    assert forall k :: 0 <= k < NICFREE ==> LongAt(b, at + 2 + 4 * k) == LongAt(c, at + 2 + 4 * k);
  }

  /** The superblock on the disk, with the disk behind it, has the free list `list`. */
  ghost predicate Saved(d: Disk, list: seq<int>, isize: int, fsize: int) {
    && SUPERB < |d|
    && var s := SuperAt(d[SUPERB]);
       s.isize == isize && s.fsize == fsize && s.tfree == |list| && FreeList(d, s.table, list, isize, fsize)
  }

  lemma SavedFrame(d: Disk, d': Disk, list: seq<int>, isize: int, fsize: int)
    requires Saved(d, list, isize, fsize) && |d'| == |d| && d'[SUPERB] == d[SUPERB]
    requires forall b :: b in list ==> At(d', b) == At(d, b)
    ensures Saved(d', list, isize, fsize)
  {
    hide FreeList, At, SuperAt;
    FreeListFrame(d, d', SuperAt(d[SUPERB]).table, list, isize, fsize);
  }

  /** Writing the fields saves the list. */
  lemma SavedNow(d: Disk, image: Block, t: FreeTable, list: seq<int>, isize: int, fsize: int)
    requires SUPERB < |d| && 2 <= isize < 0x1_0000 && isize <= fsize < 0x8000_0000
    requires FreeList(d, t, list, isize, fsize)
    ensures Saved(d[SUPERB := PutSuper(image, Super(isize, fsize, t, |list|))], list, isize, fsize)
    ensures FreeList(d[SUPERB := PutSuper(image, Super(isize, fsize, t, |list|))], t, list, isize, fsize)
  {
    hide SuperAt, PutSuper, At, Chain;
    FreeListSize(d, t, list, isize, fsize);
    var s := Super(isize, fsize, t, |list|);
    ListFits(list, isize, fsize);
    SuperRoundTrip(image, s);
    AtWrite(d, SUPERB, PutSuper(image, s));
    FreeListFrame(d, d[SUPERB := PutSuper(image, s)], t, list, isize, fsize);
  }

  lemma FreeListSize(d: Disk, t: FreeTable, list: seq<int>, lo: int, hi: int)
    requires FreeList(d, t, list, lo, hi)
    ensures t.Sized()
  {
  }

  /** A list of different numbers of a range is not longer than the range. */
  lemma ListFits(list: seq<int>, lo: int, hi: int)
    requires lo <= hi && Once(multiset(list)) && forall b :: b in list ==> lo <= b < hi
    ensures |list| <= hi - lo
  {
    var all, members := Range(lo, hi), set b | b in list;
    ListSize(list);
    assert all == members + (all - members);
  }

  lemma {:induction false} ListSize(list: seq<int>)
    requires Once(multiset(list))
    ensures |set b | b in list| == |list|
  {
    if list != [] {
      var rest, top := list[..|list| - 1], list[|list| - 1];
      TopOnce(list);
      ListSize(rest);
      assert list == rest + [top];
      assert (set b | b in list) == (set b | b in rest) + {top};
    }
  }

  ghost function Range(lo: int, hi: int): (r: set<int>)
    requires lo <= hi
    ensures |r| == hi - lo && forall b :: b in r <==> lo <= b < hi
    decreases hi - lo
  {
    if lo == hi then {} else Range(lo, hi - 1) + {hi - 1}
  }
}
