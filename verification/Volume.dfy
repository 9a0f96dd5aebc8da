/** The storage engine of one mounted volume: block allocation (ufs_alloc.c) and the mapping of
    logical to physical blocks (ufs_bmap.c), on a plain array of blocks. */
module Volume {
  import opened DiskFormat
  import opened Tally
  import opened FreeChain
  import opened Superblock
  import opened BlockTree
  import opened InodeMap
  import opened Growth
  import opened Shortage
  import opened Shrink
  import opened FileTrim
  import opened FileContents

  datatype Errno = NoError | ENOSPC | EFBIG | EINVAL

  const LIMIT := 0x7fff_ffff   // the file size limit, RLIM_INFINITY
  const NONE := -1         // "no block", as bmap reports a hole

  /** Whether the last of `blocks` free blocks suffices for a write of n bytes at `start`. */
  predicate Fits(d: Disk, addr: seq<int>, blocks: nat, start: nat, n: nat)
    requires |addr| == NADDR
  {
    n == 0 || ((start + n - 1) / BSIZE < MAX_BLOCKS
               && Missing(d, addr, start / BSIZE, (start + n - 1) / BSIZE + 1) <= blocks)
  }

  /** The block behind the first n bytes at `start`. */
  function Behind(start: nat, n: nat): (next: nat)
    ensures start / BSIZE <= next
  {
    if n == 0 then start / BSIZE else (start + n - 1) / BSIZE + 1
  }

  /** The number of free blocks that a write takes for its first n bytes at `start`. */
  function Spent(d: Disk, addr: seq<int>, start: nat, n: nat): nat
    requires |addr| == NADDR
  {
    if n == 0 || Behind(start, n) > MAX_BLOCKS then 0 else Missing(d, addr, start / BSIZE, Behind(start, n))
  }

  /** Whether at least its first byte can be written. */
  predicate Starts(d: Disk, addr: seq<int>, blocks: nat, start: nat)
    requires |addr| == NADDR
  {
    start / BSIZE < MAX_BLOCKS && Need(d, addr, start / BSIZE) <= blocks
  }

  /** Whether a write leaves the file as it was unless it writes everything. */
  predicate Undivided(d: Disk, addr: seq<int>, blocks: nat, start: nat, n: nat)
    requires |addr| == NADDR
  {
    Fits(d, addr, blocks, start, n) || !Starts(d, addr, blocks, start)
  }

  /** The block that itrunc may have to map: that of the last byte of a longer file, or of the new end of a shorter
      one. */
  function EndBlock(size: nat, length: nat): nat {
    if size < length then (length - 1) / BSIZE else length / BSIZE
  }

  /** Whether a file can get the given length: the block with the new end may have to be mapped, and then
      no error may be left over from before. */
  predicate Reachable(d: Disk, addr: seq<int>, blocks: nat, error: Errno, size: nat, length: nat)
    requires |addr| == NADDR
  {
    if size == length then true
    else if size < length then error == NoError && Starts(d, addr, blocks, length - 1)
    else length % BSIZE == 0 || (error == NoError && Starts(d, addr, blocks, length))
  }

  /** The in-core inode: the fields that the storage layer reads and writes. */
  class Inode {
    var addr: seq<int>
    var size: nat
    var changed: bool      // IUPD|ICHG

    constructor ()
      ensures addr == seq(NADDR, _ => 0) && size == 0 && !changed
    {
      addr := seq(NADDR, _ => 0);
      size := 0;
      changed := false;
    }

    constructor Of(addr: seq<int>, size: nat)
      ensures this.addr == addr && this.size == size && !changed
    {
      this.addr, this.size, changed := addr, size, false;
    }
  }

  class FileSystem {
    const isize: nat       // first block after the inode list
    const fsize: nat       // size of the volume in blocks
    var disk: Disk
    var nfree: int
    var free: seq<Long>
    var tfree: int
    var fmod: bool
    var error: Errno       // u.u_error
    ghost var avail: seq<int>   // the free list as a stack, top last

    /** A new volume: the superblock that mkfs starts from, with an empty free list. */
    constructor (isize: nat, fsize: nat, image: Disk)
      requires 2 <= isize <= fsize < 0x8000_0000 && isize < 0x1_0000 && |image| == fsize
      ensures Sound() && avail == [] && this.isize == isize && this.fsize == fsize && error == NoError
      ensures disk == image
    {
      this.isize := isize;
      this.fsize := fsize;
      disk := image;
      nfree := 0;
      free := seq(NICFREE, _ => 0);
      tfree := 0;
      fmod := true;
      error := NoError;
      avail := [];
    }

    /** Mounting: the superblock is read, and marked as modified. */
    constructor Mount(image: Disk, ghost list: seq<int>)
      requires SUPERB < |image|
      requires var s := SuperAt(image[SUPERB]);
        2 <= s.isize <= s.fsize == |image| && |image| < 0x8000_0000 && Saved(image, list, s.isize, s.fsize)
      ensures Sound() && avail == list && disk == image && fmod && error == NoError
      ensures isize == SuperAt(image[SUPERB]).isize && fsize == |image|
    {
      var s := SuperAt(image[SUPERB]);
      isize := s.isize;
      fsize := s.fsize;
      disk := image;
      nfree := s.table.nfree;
      free := s.table.free;
      tfree := s.tfree;
      fmod := true;
      error := NoError;
      avail := list;
    }

    ghost predicate Shape()
      reads this
    {
      && 2 <= isize <= fsize < 0x8000_0000 && isize < 0x1_0000
      && |disk| == fsize && |free| == NICFREE && -0x8000 <= nfree < 0x8000
    }

    function Table(): FreeTable
      reads this
      requires -0x8000 <= nfree < 0x8000
    {
      FreeTable(nfree, free)
    }

    predicate InData(b: int) {
      isize <= b < fsize
    }

    /** The table in core and the chain behind it spell the stack `avail`; unless the superblock is marked as
        modified, so does the one on the disk. */
    ghost predicate Sound()
      reads this
    {
      && Shape() && FreeList(disk, Table(), avail, isize, fsize) && tfree == |avail|
      && (!fmod ==> Saved(disk, avail, isize, fsize))
    }

    predicate BadBlock(b: int) {
      b < isize || b >= fsize
    }

    /** After a write to a block that is not on the list. */
    lemma StillSound(d0: Disk, n: int, v: Block)
      requires Shape() && 0 <= n < |d0| && n != SUPERB && n !in avail && disk == d0[n := v]
      requires FreeList(d0, Table(), avail, isize, fsize) && tfree == |avail|
      requires !fmod ==> Saved(d0, avail, isize, fsize)
      ensures Sound()
    {
      hide FreeList, At, Saved;
      AtWrite(d0, n, v);
      FreeListFrame(d0, disk, Table(), avail, isize, fsize);
      if !fmod {
        SavedFrame(d0, disk, avail, isize, fsize);
      }
    }

    /** The superblock is written; `image` has the fields that are not modelled. */
    method SaveSuper(image: Block)
      requires Sound()
      modifies this`disk, this`fmod
      ensures Sound() && !fmod
      ensures disk == old(disk)[SUPERB := PutSuper(image, Super(isize, fsize, Table(), tfree))]
    {
      hide FreeList, PutSuper, Saved;
      fmod := false;
      SavedNow(disk, image, Table(), avail, isize, fsize);
      disk := disk[SUPERB := PutSuper(image, Super(isize, fsize, Table(), tfree))];
    }

    /** A block of the inode list is written. */
    method PutInodeBlock(b: int, v: Block)
      requires Sound() && 2 <= b < isize
      modifies this`disk
      ensures Sound() && disk == old(disk)[b := v]
    {
      hide FreeList, Saved;
      ListInside();
      PutBlock(b, v);
    }

    /** A block is written that is neither the superblock nor free. */
    method PutBlock(b: int, v: Block)
      requires Sound() && 2 <= b < fsize && b !in avail
      modifies this`disk
      ensures Sound() && disk == old(disk)[b := v]
    {
      hide FreeList, Saved;
      ghost var d0 := disk;
      disk := disk[b := v];
      StillSound(d0, b, v);
    }

    lemma ListInside()
      requires Sound()
      ensures forall b :: b in avail ==> isize <= b < fsize
    {
      hide Chain, Saved;
    }

    lemma ListOnce()
      requires Sound()
      ensures Once(multiset(avail)) && (avail != [] ==> avail[|avail| - 1] !in avail[..|avail| - 1])
    {
      hide Chain, Saved;
      if avail != [] {
        TopOnce(avail);
      }
    }

    /** u_error is cleared at the start of a system call. */
    method StartCall()
      modifies this`error
      ensures error == NoError && (old(Sound()) ==> Sound())
    {
      hide FreeList, Saved;
      error := NoError;
    }

    method NoSpace()
      requires Shape()
      modifies this`nfree, this`tfree, this`error, this`avail
      ensures Shape() && avail == [] && nfree == 0 && tfree == 0 && error == ENOSPC
      ensures old(avail) == [] && (!fmod ==> Saved(disk, [], isize, fsize)) ==> Sound()
    {
      hide Saved;
      nfree := 0;
      tfree := 0;
      error := ENOSPC;
      avail := [];
    }

    /** The first loop of balloc: takes table entries until one is in range. */
    method TakeEntry() returns (bno: int)
      requires Shape()
      modifies this`nfree
      ensures Shape() && nfree <= old(nfree)
      ensures bno != NONE ==> InData(bno) && 0 <= nfree < NICFREE && bno == free[nfree]
      ensures old(Sound()) ==> if avail == [] then bno == NONE else bno == avail[|avail| - 1] && nfree == old(nfree) - 1
    {
      hide FreeList, Saved;
      ghost var sound := Sound();
      if sound {
        FreeListTop(disk, Table(), avail, isize, fsize);
      }
      bno := 0;
      var found := false;
      while !found
        invariant Shape() && nfree <= old(nfree)
        invariant !found && sound ==> nfree == old(nfree)
        invariant found ==> InData(bno) && 0 <= nfree < NICFREE && bno == free[nfree]
        invariant found && sound ==> nfree == old(nfree) - 1 && avail != []
        decreases !found, nfree + 1
      {
        if nfree <= 0 || nfree > NICFREE {
          return NONE;
        }
        nfree := nfree - 1;
        bno := free[nfree];
        if bno == 0 {
          return NONE;
        }
        found := !BadBlock(bno);
      }
    }

    /** Allocates a block, cleared on request and otherwise with any contents; NONE when the volume is full.
        Works on any volume; on a sound one it pops the free list. */
    method Balloc(clear: bool) returns (bno: int)
      requires Shape()
      modifies this
      ensures Shape()
      ensures bno != NONE ==> InData(bno) && fmod && (clear ==> At(disk, bno) == ZeroBlock())
      ensures old(Sound()) ==> Sound() && (bno == NONE <==> old(avail) == [])
      ensures old(Sound()) && old(avail) == [] ==>
        avail == [] && nfree == 0 && disk == old(disk) && error == ENOSPC
      ensures old(Sound()) && old(avail) != [] ==>
        && bno == old(avail)[|old(avail)| - 1] && avail == old(avail)[..|old(avail)| - 1]
        && error == old(error)
        && forall b :: b != bno && b != SUPERB ==> At(disk, b) == At(old(disk), b)
    {
      hide FreeList, TableAt, PutSuper, ZeroBlock, At, Saved;
      ghost var sound, before := Sound() && avail != [], Table();
      if sound {
        FreeListTop(disk, Table(), avail, isize, fsize);
      }
      bno := TakeEntry();
      if bno == NONE {
        NoSpace();
        return;
      }
      AtIs(disk, bno);
      if nfree <= 0 {
        var next := TableAt(disk[bno], 0);
        nfree, free := next.nfree, next.free;
        fmod := false;
        AtWrite(disk, SUPERB, PutSuper(disk[SUPERB], Super(isize, fsize, next, tfree)));
        disk := disk[SUPERB := PutSuper(disk[SUPERB], Super(isize, fsize, next, tfree))];
        if nfree <= 0 {
          NoSpace();
          return NONE;
        }
      }
      AtIs(disk, bno);
      var contents: Block := *;
      if clear {
        contents := ZeroBlock();
      }
      AtWrite(disk, bno, contents);
      disk := disk[bno := contents];
      fmod := true;
      tfree := tfree - 1;
      if sound {
        PoppedSound(old(disk), before, disk, bno);
        avail := avail[..|avail| - 1];
      }
    }

    lemma PoppedSound(d0: Disk, t0: FreeTable, d: Disk, bno: int)
      requires Shape() && FreeList(d0, t0, avail, isize, fsize) && avail != [] && bno == avail[|avail| - 1]
      requires Table() == if t0.nfree > 1 then t0.(nfree := t0.nfree - 1) else NextTable(d0, t0)
      requires forall b :: b != bno && b != SUPERB ==> At(d, b) == At(d0, b)
      ensures FreeList(d, Table(), avail[..|avail| - 1], isize, fsize)
    {
      hide Chain, At, NextTable;
      TopOnce(avail);
      forall b | b in avail[..|avail| - 1]
        ensures At(d, b) == At(d0, b)
      {
        assert b in avail;
      }
      FreeListPop(d0, t0, avail, isize, fsize, d, Table());
    }

    /** Gives a block back; out-of-range numbers are ignored. */
    method Free(bno: int)
      requires Shape()
      modifies this
      ensures Shape() && error == old(error)
      ensures BadBlock(bno) ==>
        disk == old(disk) && Table() == old(Table()) && avail == old(avail) && tfree == old(tfree) && fmod == old(fmod)
      ensures old(Sound()) && InData(bno) && bno !in old(avail) ==>
        Sound() && avail == old(avail) + [bno]
      ensures forall b :: b != bno ==> At(disk, b) == At(old(disk), b)
    {
      hide FreeList, PutTable, At, Saved;
      if BadBlock(bno) {
        return;
      }
      if Sound() && bno !in avail {
        FreeListPush(disk, Table(), avail, isize, fsize, bno);
      }
      if nfree <= 0 {
        nfree := 1;
        free := free[0 := 0];
      }
      if nfree >= NICFREE {
        AtWrite(disk, bno, PutTable(disk[bno], 0, Table()));
        disk := disk[bno := PutTable(disk[bno], 0, Table())];
        nfree := 0;
      }
      free := free[nfree := bno];
      nfree := nfree + 1;
      tfree := tfree + 1;
      fmod := true;
      avail := avail + [bno];
    }

    /** The inode's blocks and the free list are disjoint, without repetitions, and in the data area. */
    ghost predicate Owns(ip: Inode)
      reads this, ip
    {
      && |ip.addr| == NADDR
      && Separate(Claims(disk, ip.addr, 0), avail)
      && Inside(Claims(disk, ip.addr, 0), avail, isize, fsize)
    }

    /** The direct blocks of bmap. */
    method BmapDirect(ip: Inode, bn: nat, write: bool, clear: bool) returns (nb: int)
      requires Sound() && Owns(ip) && bn < NDADDR
      modifies this, ip
      ensures Sound() && Owns(ip) && ip.size == old(ip.size)
      ensures ip.changed == (old(ip.changed) || ip.addr != old(ip.addr))
      ensures Mapped(old(disk), old(ip.addr), old(avail), disk, ip.addr, avail, bn)
      ensures BlockOf(old(disk), old(ip.addr), bn) != 0 || !write ==>
        && disk == old(disk) && avail == old(avail) && ip.addr == old(ip.addr) && error == old(error)
        && nb == (if BlockOf(disk, ip.addr, bn) == 0 then NONE else BlockOf(disk, ip.addr, bn))
      ensures BlockOf(old(disk), old(ip.addr), bn) == 0 && write ==>
        if BlockOf(disk, ip.addr, bn) == 0 then
          nb == NONE && error == ENOSPC && avail == []
        else
          && nb == BlockOf(disk, ip.addr, bn) && nb in old(avail) && error == old(error)
          && (clear ==> At(disk, nb) == ZeroBlock())
      ensures write ==> (BlockOf(disk, ip.addr, bn) != 0 <==> Need(old(disk), old(ip.addr), bn) <= |old(avail)|)
      ensures write && BlockOf(disk, ip.addr, bn) != 0 ==> |avail| + Need(old(disk), old(ip.addr), bn) == |old(avail)|
    {
      hide FreeList, Claims, BlockOf, Nodes, NodeAt, Once, At, ZeroBlock, Span, Mapped, Grown, Separate, Inside,
        Saved, Need;
      ghost var d0, addr0, avail0 := disk, ip.addr, avail;
      MappedNot(disk, ip.addr, avail, bn);
      DirectBlock(disk, ip.addr, bn);
      DirectNeed(disk, ip.addr, bn);
      nb := ip.addr[bn];
      if nb == 0 {
        if !write {
          return NONE;
        }
        nb := Balloc(clear);
        if nb == NONE {
          return;
        }
        SeparateFree(Claims(d0, addr0, 0), avail0);
        GrownDirect(d0, avail0, disk, nb, 0);
        MappedByTree(d0, addr0, avail0, disk, nb, avail, bn);
        ip.addr := ip.addr[bn := nb];
        ip.changed := true;
        DirectBlock(disk, ip.addr, bn);
        OwnsAfter(ip, d0, addr0, avail0, bn);
      }
    }

    lemma DirectNeed(d: Disk, addr: seq<int>, bn: nat)
      requires |addr| == NADDR && bn < NDADDR
      ensures Need(d, addr, bn) == if addr[bn] == 0 then 1 else 0
    {
      hide Nodes, NodeAt, Need;
      DirectBlock(d, addr, bn);
      NodeAtStep(d, 0, addr[bn], 0, 0);
      NeedIs(d, addr, bn, if addr[bn] == 0 then 1 else 0);
    }

    lemma OwnsAfter(ip: Inode, d0: Disk, addr0: seq<int>, avail0: seq<int>, bn: nat)
      requires Mapped(d0, addr0, avail0, disk, ip.addr, avail, bn)
      requires Separate(Claims(d0, addr0, 0), avail0) && Inside(Claims(d0, addr0, 0), avail0, isize, fsize)
      ensures Owns(ip)
    {
      hide Claims, BlockOf, At, Separate, Inside;
      SameUnion(Claims(d0, addr0, 0), avail0, Claims(disk, ip.addr, 0), avail, isize, fsize);
    }

    /** What is known while bmap works on the tree of slot s: it has only grown. */
    ghost predicate Growing(ip: Inode, d0: Disk, addr0: seq<int>, avail0: seq<int>, bn: nat, root: int)
      reads this, ip
      requires bn < MAX_BLOCKS
    {
      && |addr0| == NADDR
      && ip.addr == addr0[SlotFor(bn) := root]
      && Separate(Claims(d0, addr0, 0), avail0) && Inside(Claims(d0, addr0, 0), avail0, isize, fsize)
      && Grown(d0, addr0[SlotFor(bn)], avail0, disk, root, avail, LevelOf(SlotFor(bn)), IndexIn(bn))
    }

    lemma GrowingMapped(ip: Inode, d0: Disk, addr0: seq<int>, avail0: seq<int>, bn: nat, root: int)
      requires bn < MAX_BLOCKS && Growing(ip, d0, addr0, avail0, bn, root)
      ensures Mapped(d0, addr0, avail0, disk, ip.addr, avail, bn) && Owns(ip)
      ensures BlockOf(disk, ip.addr, bn) == NodeAt(disk, LevelOf(SlotFor(bn)), root, IndexIn(bn), 0)
    {
      hide Claims, BlockOf, Nodes, NodeAt, Once, At, Span, SlotFor, IndexIn, Mapped, Grown, Separate, Inside;
      MappedByTree(d0, addr0, avail0, disk, root, avail, bn);
      OwnsAfter(ip, d0, addr0, avail0, bn);
      BlockOfBy(disk, ip.addr, bn);
    }

    lemma GrowingWay(ip: Inode, d0: Disk, addr0: seq<int>, avail0: seq<int>, bn: nat, root: int, t: nat)
      requires bn < MAX_BLOCKS && Growing(ip, d0, addr0, avail0, bn, root)
      requires var level, k := LevelOf(SlotFor(bn)), IndexIn(bn); t <= level && NodeAt(disk, level, root, k, t) != 0
      ensures var x := NodeAt(disk, LevelOf(SlotFor(bn)), root, IndexIn(bn), t);
        InData(x) && x !in avail && avail <= avail0
    {
      hide Claims, BlockOf, Nodes, NodeAt, At, Span, SlotFor, IndexIn, Separate, Inside;
      var s := SlotFor(bn);
      TreeOfInode(d0, addr0, avail0, s, isize, fsize);
      WayInside(d0, addr0[s], avail0, disk, root, avail, LevelOf(s), IndexIn(bn), t, isize, fsize);
    }

    /** A hole on the way at height t: a cleared block is entered into the indirect block above it. */
    method Hang(ip: Inode, ghost bn: nat, parent: int, i: nat, ghost t: nat, ghost d0: Disk, ghost addr0: seq<int>,
        ghost avail0: seq<int>, ghost root: int) returns (nb: int)
      requires Sound() && bn < MAX_BLOCKS && Growing(ip, d0, addr0, avail0, bn, root) && t < LevelOf(SlotFor(bn))
      requires parent == NodeAt(disk, LevelOf(SlotFor(bn)), root, IndexIn(bn), t + 1) && InData(parent)
      requires i == SlotOf(IndexIn(bn), t)
      requires NodeAt(disk, LevelOf(SlotFor(bn)), root, IndexIn(bn), t) == 0
      modifies this
      ensures Sound() && Growing(ip, d0, addr0, avail0, bn, root)
      ensures nb == NONE <==> old(avail) == []
      ensures nb == NONE ==> disk == old(disk) && avail == [] && error == ENOSPC
      ensures nb != NONE ==>
        && error == old(error) && |avail| + 1 == |old(avail)| && InData(nb) && nb in avail0
        && nb == NodeAt(disk, LevelOf(SlotFor(bn)), root, IndexIn(bn), t) && At(disk, nb) == ZeroBlock()
    {
      hide FreeList, Claims, BlockOf, Nodes, NodeAt, Once, At, ZeroBlock, Span, SlotOf, SlotFor, IndexIn, Mapped,
        Grown, Separate, Inside, Taken, Pointers, SetPointer, Hangable, Hung, Saved;
      ghost var level, b, d1, avail1 := LevelOf(SlotFor(bn)), IndexIn(bn), disk, avail;
      GrowingWay(ip, d0, addr0, avail0, bn, root, t + 1);
      nb := Balloc(true);
      if nb == NONE {
        return;
      }
      TreeOfInode(d0, addr0, avail0, SlotFor(bn), isize, fsize);
      AtIs(disk, nb);
      TakenIs(d1, avail1, disk, nb);
      GrownHang(d0, addr0[SlotFor(bn)], avail0, d1, root, avail1, disk, nb, level, b, t);
      HungIs(disk, level, root, b, t, nb, parent, i);
      HungZero(disk, level, root, b, t, nb);
      AtIs(disk, parent);
      AtWrite(disk, parent, SetPointer(disk[parent], i, nb));
      ghost var d2 := disk;
      disk := disk[parent := SetPointer(disk[parent], i, nb)];
      StillSound(d2, parent, disk[parent]);
    }

    /** The indirect blocks of bmap: slot NADDR - start holds the root, b is the index in its tree, and
        span is the number of data blocks the tree can hold. */
    method BmapIndirect(ip: Inode, bn: nat, write: bool, start: int, b: nat, span: int) returns (nb: int)
      requires Sound() && Owns(ip) && bn < MAX_BLOCKS && 1 <= start <= 3
      requires SlotFor(bn) == NADDR - start && IndexIn(bn) == b && span == Span(4 - start)
      modifies this, ip
      ensures Sound() && Owns(ip) && ip.size == old(ip.size)
      ensures ip.changed == (old(ip.changed) || ip.addr != old(ip.addr))
      ensures Mapped(old(disk), old(ip.addr), old(avail), disk, ip.addr, avail, bn)
      ensures BlockOf(old(disk), old(ip.addr), bn) != 0 || !write ==>
        && disk == old(disk) && avail == old(avail) && ip.addr == old(ip.addr) && error == old(error)
        && nb == (if BlockOf(disk, ip.addr, bn) == 0 then NONE else BlockOf(disk, ip.addr, bn))
      ensures BlockOf(old(disk), old(ip.addr), bn) == 0 && write ==>
        if BlockOf(disk, ip.addr, bn) == 0 then
          nb == NONE && error == ENOSPC && avail == []
        else
          && nb == BlockOf(disk, ip.addr, bn) && nb in old(avail) && error == old(error)
          && At(disk, nb) == ZeroBlock()
      ensures write ==> (BlockOf(disk, ip.addr, bn) != 0 <==> Need(old(disk), old(ip.addr), bn) <= |old(avail)|)
      ensures write && BlockOf(disk, ip.addr, bn) != 0 ==> |avail| + Need(old(disk), old(ip.addr), bn) == |old(avail)|
    {
      hide FreeList, Claims, BlockOf, Nodes, NodeAt, Once, At, ZeroBlock, Span, SlotOf, SlotFor, IndexIn, Mapped,
        Grown, Separate, Inside, Taken, Pointers, SetPointer, Hangable, Hung, Saved, Need;
      ghost var d0, addr0, avail0, level, s := disk, ip.addr, avail, 4 - start, NADDR - start;
      TreeOfInode(d0, addr0, avail0, s, isize, fsize);
      BlockOfBy(d0, addr0, bn);
      ghost var need := Need(d0, addr0, bn);
      var j, unit := start, span;
      nb := ip.addr[NADDR - j];
      ghost var root, grown := nb, false;
      GrownNot(disk, root, avail, level, b);
      assert ip.addr == addr0[s := root];
      if nb == 0 {
        GrowingMapped(ip, d0, addr0, avail0, bn, root);
        NodeAtStep(disk, level, 0, b, 0);
        NodeAtStep(disk, level, 0, b, level);
        NeedIs(d0, addr0, bn, level + 1);
        if !write {
          return NONE;
        }
        nb := Balloc(true);
        if nb == NONE {
          GrowingMapped(ip, d0, addr0, avail0, bn, root);
          return;
        }
        AtIs(disk, nb);
        TakenIs(d0, avail0, disk, nb);
        SeparateFree(Claims(d0, addr0, 0), avail0);
        GrownRoot(d0, avail0, disk, nb, level, b);
        ip.addr := ip.addr[NADDR - j := nb];
        ip.changed := true;
        root, grown := nb, true;
      } else {
        NodeAtStep(disk, level, root, b, level);
        GrowingWay(ip, d0, addr0, avail0, bn, root, level);
      }
      while j <= 3
        invariant start <= j <= 4 && unit == Span(4 - j)
        invariant Sound() && ip.size == old(ip.size) && error == old(error)
        invariant ip.changed == (old(ip.changed) || ip.addr != addr0)
        invariant Growing(ip, d0, addr0, avail0, bn, root)
        invariant nb == NodeAt(disk, level, root, b, 4 - j) && InData(nb)
        invariant !grown ==> disk == d0 && avail == avail0 && ip.addr == addr0
        invariant grown ==> write && BlockOf(d0, addr0, bn) == 0 && At(disk, nb) == ZeroBlock() && nb in avail0
        invariant grown ==> |avail0| - |avail| == need - (4 - j)
      {
        var parent := nb;
        var bap := Pointers(disk[parent]);
        AtIs(disk, parent);
        PathStep(disk, level, root, b, 3 - j);
        ZeroBlockPointers();
        UnitStep(3 - j, b);
        unit := unit / NINDIR;
        var i := b / unit % NINDIR;
        nb := bap[i];
        if nb == 0 {
          HoleBelow(disk, level, root, b, 3 - j, 0);
          GrowingMapped(ip, d0, addr0, avail0, bn, root);
          if !grown {
            NeedIs(d0, addr0, bn, 4 - j);
          }
          if !write {
            return NONE;
          }
          nb := Hang(ip, bn, parent, i, 3 - j, d0, addr0, avail0, root);
          if nb == NONE {
            return;
          }
          grown := true;
        } else {
          GrowingWay(ip, d0, addr0, avail0, bn, root, 3 - j);
        }
        j := j + 1;
      }
      GrowingMapped(ip, d0, addr0, avail0, bn, root);
      if !grown {
        NeedNothing(d0, addr0, bn);
      }
    }

    /** bmap: the physical block of logical block bn, NONE for a hole; in write mode a hole is filled from
        the free list, together with any indirect blocks on the way. */
    method Bmap(ip: Inode, bn: int, write: bool, clear: bool) returns (nb: int)
      requires Sound() && Owns(ip)
      modifies this, ip
      ensures Sound() && Owns(ip) && ip.size == old(ip.size)
      ensures ip.changed == (old(ip.changed) || ip.addr != old(ip.addr))
      ensures !(0 <= bn < MAX_BLOCKS) ==>
        nb == 0 && error == EFBIG && disk == old(disk) && avail == old(avail) && ip.addr == old(ip.addr)
      ensures 0 <= bn < MAX_BLOCKS ==>
        Mapped(old(disk), old(ip.addr), old(avail), disk, ip.addr, avail, bn)
      ensures 0 <= bn < MAX_BLOCKS && (BlockOf(old(disk), old(ip.addr), bn) != 0 || !write) ==>
        && disk == old(disk) && avail == old(avail) && ip.addr == old(ip.addr) && error == old(error)
        && nb == (if BlockOf(disk, ip.addr, bn) == 0 then NONE else BlockOf(disk, ip.addr, bn))
      ensures 0 <= bn < MAX_BLOCKS && BlockOf(old(disk), old(ip.addr), bn) == 0 && write ==>
        if BlockOf(disk, ip.addr, bn) == 0 then
          nb == NONE && error == ENOSPC && avail == []
        else
          && nb == BlockOf(disk, ip.addr, bn) && nb in old(avail) && error == old(error)
          && (clear || bn >= NDADDR ==> At(disk, nb) == ZeroBlock())
      ensures 0 <= bn < MAX_BLOCKS && write ==>
        && (BlockOf(disk, ip.addr, bn) != 0 <==> Need(old(disk), old(ip.addr), bn) <= |old(avail)|)
        && (BlockOf(disk, ip.addr, bn) != 0 ==> |avail| + Need(old(disk), old(ip.addr), bn) == |old(avail)|)
    {
      hide FreeList, Claims, BlockOf, Nodes, NodeAt, Once, At, ZeroBlock, SlotFor, IndexIn, Span, Mapped, Separate,
        Inside, Saved, Need;
      if bn < 0 {
        error := EFBIG;
        return 0;
      }
      if bn < NADDR - 3 {
        nb := BmapDirect(ip, bn, write, clear);
        return;
      }
      // how many levels of indirection
      var j, b, unit, limit := 3, bn - (NADDR - 3), 1, 1;
      while j > 0
        invariant unit == limit
        invariant
          || (j == 3 && unit == 1 && b == bn - 4)
          || (j == 2 && unit == 256 && b == bn - 4 - 256 >= 0)
          || (j == 1 && unit == 65536 && b == bn - 4 - 256 - 65536 >= 0)
          || (j == 0 && bn >= MAX_BLOCKS)
      {
        unit := unit * NINDIR;
        limit := limit * NINDIR;
        if b < limit {
          break;
        }
        b := b - limit;
        j := j - 1;
      }
      if j == 0 {
        error := EFBIG;
        return 0;
      }
      Located(bn, j, b);
      nb := BmapIndirect(ip, bn, write, j, b, unit);
    }

    /** A tree whose blocks are in the data area and off the free list. */
    ghost predicate OwnsTree(level: nat, b: int)
      reads this
    {
      Separate(Nodes(disk, level, b, 0), avail) && Inside(Nodes(disk, level, b, 0), avail, isize, fsize)
    }

    /** trsingle: frees the data blocks behind entries NINDIR - 1 down to last + 1 of a copy of block bn. */
    method TrSingle(copy: Block, last: int, ghost d0: Disk, ghost avail0: seq<int>, ghost bn: int, ghost z: Block)
      requires Sound() && -1 <= last < NINDIR
      requires bn != 0 && copy == At(d0, bn)
      requires Separate(Nodes(d0, 1, bn, 0), avail0) && Inside(Nodes(d0, 1, bn, 0), avail0, isize, fsize)
      requires Cutting(d0, avail0, disk, avail, 1, bn, z, NINDIR)
      modifies this
      ensures Sound() && error == old(error)
      ensures Cutting(d0, avail0, disk, avail, 1, bn, z, last + 1)
    {
      hide FreeList, Saved, Nodes, NodeAt, Span, Once, At, Separate, Inside, Pointers, Cutting, SameTree;
      var i := NINDIR - 1;
      while i > last
        invariant last <= i < NINDIR
        invariant Sound() && error == old(error)
        invariant Cutting(d0, avail0, disk, avail, 1, bn, z, i + 1)
      {
        var nb := Pointers(copy)[i];
        ghost var d, av := disk, avail;
        CutChild(d0, avail0, disk, avail, 1, bn, z, i, isize, fsize);
        if nb != 0 {
          SeparateMember(Nodes(disk, 0, nb, 0), avail, nb, isize, fsize);
          Free(nb);
          GoneLeaf(d, av, disk, nb);
        } else {
          GoneHole(disk, avail, 0);
        }
        TreeNodes(d0, d, 0, nb);
        CutStep(d0, avail0, d, av, disk, avail, 1, bn, z, i);
        i := i - 1;
      }
    }

    /** indirtrunc: cuts the tree under indirect block bn back to data blocks 0..lastbn. The pointers to
        follow come from a copy taken before the block is shortened. */
    method IndirTrunc(bn: int, lastbn: int, level: nat)
      requires Sound() && 1 <= level <= 3 && -1 <= lastbn < Span(level)
      requires bn != 0 && OwnsTree(level, bn)
      modifies this
      ensures Sound() && error == old(error)
      ensures Trimmed(old(disk), old(avail), disk, avail, level, bn, lastbn)
      decreases level
    {
      hide FreeList, Saved, Nodes, NodeAt, Span, Once, At, Separate, Inside, Pointers, Cutting, SameTree, Trimmed,
        ZeroFrom, Slot, Rest;
      ghost var d0, avail0 := disk, avail;
      RootMember(disk, level, bn);
      SeparateMember(Nodes(disk, level, bn, 0), avail, bn, isize, fsize);
      var factor := Span(level - 1);
      var last := lastbn;
      if lastbn > 0 {
        last := last / factor;
      }
      LastSlot(level, lastbn, last);
      var copy := disk[bn];
      AtIs(disk, bn);
      ghost var z := ZeroFrom(copy, 4 * (last + 1));
      ZeroFromPointers(copy, last + 1);
      CutStart(disk, avail, level, bn, z);
      disk := disk[bn := ZeroFrom(copy, 4 * (last + 1))];
      StillSound(d0, bn, ZeroFrom(copy, 4 * (last + 1)));
      if level == 1 {
        TrSingle(copy, last, d0, avail0, bn, z);
        if lastbn >= 0 {
          CutChild(d0, avail0, disk, avail, 1, bn, z, last, isize, fsize);
          TrimmedNot(disk, avail, 0, Pointers(copy)[last], 0);
          CutPartial(d0, avail0, disk, avail, disk, avail, 1, bn, z, lastbn, last, 0);
        }
      } else {
        var i := NINDIR - 1;
        while i > last
          invariant last <= i < NINDIR
          invariant Sound() && error == old(error)
          invariant Cutting(d0, avail0, disk, avail, level, bn, z, i + 1)
        {
          var nb := Pointers(copy)[i];
          ghost var d, av := disk, avail;
          CutChild(d0, avail0, disk, avail, level, bn, z, i, isize, fsize);
          if nb != 0 {
            IndirTrunc(nb, -1, level - 1);
            ghost var d1, av1 := disk, avail;
            LastToGo(d, av, d1, av1, level - 1, nb, isize, fsize);
            Free(nb);
            GoneWithRoot(d, av, d1, av1, disk, level - 1, nb);
          } else {
            GoneHole(disk, avail, level - 1);
          }
          TreeNodes(d0, d, level - 1, nb);
          CutStep(d0, avail0, d, av, disk, avail, level, bn, z, i);
          i := i - 1;
        }
        if lastbn >= 0 {
          var nb := Pointers(copy)[last];
          ghost var d1, av1 := disk, avail;
          CutChild(d0, avail0, disk, avail, level, bn, z, last, isize, fsize);
          if nb != 0 {
            IndirTrunc(nb, lastbn % factor, level - 1);
          } else {
            TrimmedNot(disk, avail, level - 1, nb, lastbn % factor);
          }
          CutPartial(d0, avail0, d1, av1, disk, avail, level, bn, z, lastbn, last, lastbn % factor);
        }
      }
      if lastbn < 0 {
        CutAll(d0, avail0, disk, avail, level, bn, z);
      }
    }

    /** One indirect slot of itrunc: trims its tree, or frees it altogether when r < 0. */
    method CutSlot(tip: seq<int>, s: nat, r: int) returns (tip': seq<int>)
      requires Sound() && |tip| == NADDR && NDADDR <= s < NADDR && -1 <= r < Span(LevelOf(s))
      requires Separate(Claims(disk, tip, 0), avail) && OwnsTree(LevelOf(s), tip[s])
      modifies this
      ensures Sound() && error == old(error)
      ensures SlotCut(old(disk), tip, old(avail), disk, tip', avail, s, r)
      ensures |tip'| == NADDR && tip'[s] == if r < 0 then 0 else tip[s]
      ensures Nodes(disk, LevelOf(s), tip'[s], 0)
        == if r < 0 then multiset{} else Kept(old(disk), LevelOf(s), tip[s], r)
      ensures r >= 0 ==> Nodes(disk, LevelOf(s), tip[s], 0) == Kept(disk, LevelOf(s), tip[s], r)
    {
      hide FreeList, Saved, Nodes, NodeAt, Span, Once, At, Separate, Inside, Kept, Trimmed, Gone, TreeCut, SlotCut,
        Claims;
      ghost var d0, avail0, level := disk, avail, LevelOf(s);
      tip' := tip;
      var bn := tip[s];
      if bn != 0 {
        IndirTrunc(bn, r, s - NDADDR + 1);
        TrimmedIsCut(d0, avail0, disk, avail, level, bn, r);
        if r < 0 {
          tip' := tip[s := 0];
          ghost var d1, avail1 := disk, avail;
          LastToGo(d0, avail0, d1, avail1, level, bn, isize, fsize);
          Free(bn);
          GoneWithRoot(d0, avail0, d1, avail1, disk, level, bn);
          GoneIsCut(d0, avail0, disk, avail, level, bn);
        }
      } else {
        TrimmedNot(disk, avail, level, 0, r);
        TrimmedIsCut(disk, avail, disk, avail, level, 0, r);
        NodesStep(disk, level, 0, 0);
      }
      assert tip' == tip[s := tip'[s]];
      SlotCutBy(d0, tip, avail0, disk, avail, s, tip'[s], r);
    }

    /** One whole direct block of itrunc. */
    method CutDirect(tip: seq<int>, s: nat) returns (tip': seq<int>)
      requires Sound() && |tip| == NADDR && s < NDADDR
      requires Separate(Claims(disk, tip, 0), avail) && OwnsTree(0, tip[s])
      modifies this
      ensures Sound() && error == old(error)
      ensures SlotCut(old(disk), tip, old(avail), disk, tip', avail, s, -1)
      ensures |tip'| == NADDR && tip'[s] == 0 && Nodes(disk, 0, tip'[s], 0) == multiset{}
    {
      hide FreeList, Saved, Nodes, NodeAt, Span, Once, At, Separate, Inside, Kept, Trimmed, Gone, TreeCut, SlotCut,
        Claims;
      ghost var d0, avail0 := disk, avail;
      var bn := tip[s];
      tip' := tip[s := 0];
      if bn != 0 {
        RootMember(disk, 0, bn);
        SeparateMember(Nodes(disk, 0, bn, 0), avail, bn, isize, fsize);
        Free(bn);
        GoneLeaf(d0, avail0, disk, bn);
      } else {
        GoneHole(disk, avail, 0);
      }
      GoneIsCut(d0, avail0, disk, avail, 0, bn);
      SlotCutBy(d0, tip, avail0, disk, avail, s, 0, -1);
    }

    /** The freeing phase of itrunc, on a copy of the addresses: last block first. */
    method CutBlocks(addr: seq<int>, last: int, lastiblock: seq<int>) returns (tip: seq<int>)
      requires Sound() && |addr| == NADDR && -1 <= last < MAX_BLOCKS
      requires Separate(Claims(disk, addr, 0), avail) && Inside(Claims(disk, addr, 0), avail, isize, fsize)
      requires |lastiblock| == 3 && forall i :: 0 <= i < 3 ==> lastiblock[i] == LastIn(last, NDADDR + i)
      modifies this
      ensures Sound() && error == old(error)
      ensures CutDown(old(disk), addr, old(avail), disk, tip, avail, 0, last)
    {
      hide FreeList, Saved, Nodes, NodeAt, Span, Once, At, Separate, Inside, Kept, SlotCut, Claims, CutDown, SlotKept;
      ghost var d0, avail0 := disk, avail;
      tip := addr;
      CutDownStart(disk, addr, avail, last);
      var level, done := 2, false;
      while level >= 0 && !done
        invariant -1 <= level <= 2 && |tip| == NADDR
        invariant Sound() && error == old(error)
        invariant CutDown(d0, addr, avail0, disk, tip, avail, NDADDR + level + 1, last)
        invariant !done && level < 2 ==> last < FirstOf(NDADDR + level + 1)
        invariant done ==> level < 2 && last >= FirstOf(NDADDR + level + 1)
      {
        var s := NDADDR + level;
        ghost var d, av, t := disk, avail, tip;
        CutDownTree(d0, addr, avail0, disk, tip, avail, s + 1, last, s, isize, fsize);
        LastInSlot(last, s);
        tip := CutSlot(tip, s, lastiblock[level]);
        CutDownStep(d0, addr, avail0, d, t, av, disk, tip, avail, s, last, lastiblock[level]);
        done := lastiblock[level] >= 0;
        level := level - 1;
      }
      if !done {
        var i := NDADDR - 1;
        while i > last
          invariant -1 <= i < NDADDR && |tip| == NADDR && last < FirstOf(i + 1)
          invariant Sound() && error == old(error)
          invariant CutDown(d0, addr, avail0, disk, tip, avail, i + 1, last)
        {
          ghost var d, av, t := disk, avail, tip;
          CutDownTree(d0, addr, avail0, disk, tip, avail, i + 1, last, i, isize, fsize);
          LastInSlot(last, i);
          tip := CutDirect(tip, i);
          CutDownStep(d0, addr, avail0, d, t, av, disk, tip, avail, i, last, -1);
          i := i - 1;
        }
        WholeBelow(i + 1, last);
        CutDownDone(d0, addr, avail0, disk, tip, avail, i + 1, last);
      } else {
        WholeBelow(NDADDR + level + 1, last);
        CutDownDone(d0, addr, avail0, disk, tip, avail, NDADDR + level + 1, last);
      }
    }

    /** A file in order: it owns its blocks, its size can be mapped, and nothing lies behind its end. */
    ghost predicate FileOk(ip: Inode)
      reads this, ip
    {
      Owns(ip) && ip.size <= MAX_BYTES && CleanTail(disk, ip.addr, ip.size)
    }

    lemma Addresses(ip: Inode)
      requires FileOk(ip)
      ensures |ip.addr| == NADDR
    {
    }

    lemma DataInside(ip: Inode, bn: nat)
      requires Owns(ip) && bn < MAX_BLOCKS && BlockOf(disk, ip.addr, bn) != 0
      ensures InData(BlockOf(disk, ip.addr, bn)) && BlockOf(disk, ip.addr, bn) !in avail
    {
      hide Claims, BlockOf, Once;
      DataKept(disk, ip.addr, avail, bn);
    }

    /** Puts new contents into data block n of a file. */
    method PutData(ghost ip: Inode, ghost bn: nat, n: int, v: Block)
      requires Sound() && Owns(ip) && bn < MAX_BLOCKS && n == BlockOf(disk, ip.addr, bn) != 0
      modifies this`disk
      ensures 0 <= n < |old(disk)| && disk == old(disk)[n := v]
      ensures Sound() && Owns(ip) && Local(old(disk), ip.addr, avail, disk, ip.addr, avail)
      ensures SameOn(old(disk), disk, Claims(old(disk), ip.addr, 1))
      ensures forall b :: 0 <= b < MAX_BLOCKS ==> BlockOf(disk, ip.addr, b) == BlockOf(old(disk), ip.addr, b)
    {
      hide FreeList, Saved, Once, At, Separate, Inside, Claims, BlockOf;
      DataInside(ip, bn);
      DataWritten(disk, ip.addr, avail, bn, n, v);
      WrittenLocal(disk, ip.addr, avail, bn, n, v);
      DataKept(disk, ip.addr, avail, bn);
      AtWrite(disk, n, v);
      disk := disk[n := v];
      StillSound(old(disk), n, v);
    }

    /** The partial block of a shrinking file: the block that will hold the new end is mapped, and its
        bytes from the new end on are cleared. False when that block could not be had. */
    method ClearTail(ip: Inode, length: nat) returns (ok: bool)
      requires Sound() && FileOk(ip) && length < ip.size
      modifies this, ip
      ensures Sound() && Owns(ip) && ip.size == old(ip.size)
      ensures Local(old(disk), old(ip.addr), old(avail), disk, ip.addr, avail)
      ensures length % BSIZE == 0 ==>
        ok && disk == old(disk) && avail == old(avail) && ip.addr == old(ip.addr) && error == old(error)
      ensures length % BSIZE != 0 ==>
        (ok <==> old(error) == NoError && Starts(old(disk), old(ip.addr), |old(avail)|, length))
      ensures !ok && old(error) == NoError ==> error == ENOSPC && avail == []
      ensures !ok ==> SameBytes(old(disk), old(ip.addr), disk, ip.addr)
      ensures ip.changed == (old(ip.changed) || ip.addr != old(ip.addr))
      ensures MapsOnly(old(disk), old(ip.addr), disk, ip.addr, length / BSIZE,
        if length % BSIZE != 0 && BlockOf(disk, ip.addr, length / BSIZE) != 0 then length / BSIZE + 1
        else length / BSIZE)
      ensures ok ==> forall i: nat ::
        ByteAt(disk, ip.addr, i)
          == if i >= length && i / BSIZE <= LastBlock(length) then 0 else ByteAt(old(disk), old(ip.addr), i)
      ensures ok ==> forall b :: 0 <= b < MAX_BLOCKS && b != LastBlock(length) ==>
        BlockOf(disk, ip.addr, b) == BlockOf(old(disk), old(ip.addr), b)
      ensures old(error) == NoError && BlockOf(old(disk), old(ip.addr), length / BSIZE) != 0 ==>
        ok && avail == old(avail) && ip.addr == old(ip.addr) && SameOn(old(disk), disk, Claims(old(disk), ip.addr, 1))
    {
      hide FreeList, Saved, Once, At, Separate, Inside, Claims, BlockOf, ByteAt, ZeroBlock, ZeroFrom, Mapped, Local,
        CleanTail, MapsOnly;
      ghost var d0, addr0, avail0, b := disk, ip.addr, avail, length / BSIZE;
      ShrinkEnd(length, ip.size);
      LocalNot(disk, ip.addr, avail);
      var offset := length % BSIZE;
      if offset == 0 {
        MapsNone(disk, ip.addr, b);
        return true;
      }
      var bn := Bmap(ip, length / BSIZE, true, true);
      MapsOne(d0, addr0, avail0, disk, ip.addr, avail, b);
      MappedSameBytes(d0, addr0, avail0, disk, ip.addr, avail, b);
      MappedLocal(d0, addr0, avail0, disk, ip.addr, avail, b);
      if BlockOf(disk, ip.addr, b) != 0 {
        DataInside(ip, b);
      }
      if error != NoError || bn < 0 {
        return false;
      }
      MappedOthers(d0, addr0, avail0, disk, ip.addr, avail, b);
      TailZeroed(disk, ip.addr, avail, length, bn, disk[bn := ZeroFrom(disk[bn], offset)]);
      DataWritten(disk, ip.addr, avail, b, bn, ZeroFrom(disk[bn], offset));
      ghost var d1 := disk;
      PutData(ip, b, bn, ZeroFrom(disk[bn], offset));
      MapsFrame(d0, addr0, d1, disk, ip.addr, b, b + 1);
      LocalTwice(d0, addr0, avail0, d1, ip.addr, avail, disk, ip.addr, avail);
      ok := true;
    }

    /** The addresses itrunc leaves in the inode, cleared before any block is freed. */
    method ClearAddresses(addr: seq<int>, last: int) returns (addr': seq<int>, lastiblock: seq<int>)
      requires |addr| == NADDR && -1 <= last
      ensures |addr'| == NADDR && forall i :: 0 <= i < NADDR ==> addr'[i] == if FirstOf(i) > last then 0 else addr[i]
      ensures |lastiblock| == 3 && forall i :: 0 <= i < 3 ==> lastiblock[i] == LastIn(last, NDADDR + i)
    {
      addr' := addr;
      lastiblock := [last - NDADDR, last - NDADDR - NINDIR, last - NDADDR - NINDIR - NINDIR * NINDIR];
      var level := 2;
      while level >= 0
        invariant -1 <= level <= 2 && |addr'| == NADDR && |lastiblock| == 3
        invariant forall i :: 0 <= i < 3 ==>
          lastiblock[i] == if i > level then LastIn(last, NDADDR + i) else last - FirstOf(NDADDR + i)
        invariant forall i :: 0 <= i < NADDR ==>
          addr'[i] == if i > NDADDR + level && FirstOf(i) > last then 0 else addr[i]
      {
        if lastiblock[level] < 0 {
          addr' := addr'[NDADDR + level := 0];
          lastiblock := lastiblock[level := -1];
        }
        level := level - 1;
      }
      var i := NDADDR - 1;
      while i > last
        invariant -1 <= i < NDADDR && |addr'| == NADDR
        invariant forall j :: 0 <= j < NADDR ==> addr'[j] == if j > i && FirstOf(j) > last then 0 else addr[j]
      {
        addr' := addr'[i := 0];
        i := i - 1;
      }
    }

    /** itrunc: sets the length of a file. A longer file gets its last block; a shorter one gives every
        block it no longer needs back to the free list. Nothing happens when a block that has to be
        mapped cannot be had. */
    method Itrunc(ip: Inode, length: nat)
      requires Sound() && FileOk(ip)
      modifies this, ip
      ensures Sound() && FileOk(ip)
      ensures Local(old(disk), old(ip.addr), old(avail), disk, ip.addr, avail)
      ensures ip.size == length ==>
        forall i: nat :: ByteAt(disk, ip.addr, i) == if i < length then ByteAt(old(disk), old(ip.addr), i) else 0
      ensures ip.size == length <==>
        Reachable(old(disk), old(ip.addr), |old(avail)|, old(error), old(ip.size), length)
      ensures old(ip.size) == length ==> disk == old(disk) && avail == old(avail) && ip.addr == old(ip.addr)
      ensures ip.size != length ==> ip.size == old(ip.size) && SameBytes(old(disk), old(ip.addr), disk, ip.addr)
      ensures ip.size != length && old(error) == NoError ==>
        if length > MAX_BYTES then error == EFBIG else error == ENOSPC && avail == []
      ensures ip.size == old(ip.size) == 0 && old(error) == NoError ==> ip.addr[0] == old(ip.addr[0])
      ensures ip.changed == (old(ip.changed) || ip.size == length || ip.addr != old(ip.addr))
      ensures length > old(ip.size) || ip.size != length ==>
        var bn := EndBlock(old(ip.size), length);
        MapsOnly(old(disk), old(ip.addr), disk, ip.addr, bn,
          if bn < MAX_BLOCKS && BlockOf(disk, ip.addr, bn) != 0 then bn + 1 else bn)
      ensures length > old(ip.size) && ip.size == length ==>
        && EndBlock(old(ip.size), length) < MAX_BLOCKS
        && BlockOf(disk, ip.addr, EndBlock(old(ip.size), length)) != 0
        && |avail| + Need(old(disk), old(ip.addr), EndBlock(old(ip.size), length)) == |old(avail)|
      ensures length < old(ip.size) && ip.size == length ==> forall s :: 0 <= s < NADDR ==>
        SlotTrees(disk, ip.addr, 0)[s] == SlotKept(disk, ip.addr, s, LastBlock(length))
      ensures length < old(ip.size) && ip.size == length ==>
        forall b :: 0 <= b < MAX_BLOCKS && b != LastBlock(length) ==>
        BlockOf(disk, ip.addr, b) == if b > LastBlock(length) then 0 else BlockOf(old(disk), old(ip.addr), b)
      ensures length < old(ip.size) ==>
        (length % BSIZE == 0 || (old(error) == NoError && BlockOf(old(disk), old(ip.addr), length / BSIZE) != 0)) ==>
        && ip.size == length
        && forall s :: 0 <= s < NADDR ==>
          SlotTrees(disk, ip.addr, 0)[s] == SlotKept(old(disk), old(ip.addr), s, LastBlock(length))
    {
      hide FreeList, Saved, Once, At, Separate, Inside, Claims, BlockOf, ByteAt, ZeroBlock, Mapped, Local, CutDown,
        SlotKept, SlotTrees, SlotFor, MapsOnly, Need;
      ghost var d0, addr0, avail0, error0 := disk, ip.addr, avail, error;
      LocalNot(disk, ip.addr, avail);
      if ip.size == length {
        ip.changed := true;
        return;
      }
      if ip.size < length {
        var bn := Bmap(ip, (length - 1) / BSIZE, true, true);
        MapsNone(disk, ip.addr, (length - 1) / BSIZE);
        if (length - 1) / BSIZE < MAX_BLOCKS {
          MapsOne(d0, addr0, avail0, disk, ip.addr, avail, (length - 1) / BSIZE);
          MappedSameBytes(d0, addr0, avail0, disk, ip.addr, avail, (length - 1) / BSIZE);
          MappedLocal(d0, addr0, avail0, disk, ip.addr, avail, (length - 1) / BSIZE);
          if BlockOf(disk, ip.addr, (length - 1) / BSIZE) != 0 {
            DataInside(ip, (length - 1) / BSIZE);
          } else {
            FirstKept(d0, addr0, avail0, disk, ip.addr, avail, (length - 1) / BSIZE);
          }
        }
        if error != NoError || bn < 0 {
          return;
        }
        ip.size := length;
        ip.changed := true;
        return;
      }
      ShrinkEnd(length, ip.size);
      var last := (length + BSIZE - 1) / BSIZE - 1;
      var ok := ClearTail(ip, length);
      if !ok {
        return;
      }
      ghost var d1, avail1 := disk, avail;
      var tip := ip.addr;
      ghost var addr1 := tip;
      ip.size := length;
      var lastiblock;
      ip.addr, lastiblock := ClearAddresses(tip, last);
      tip := CutBlocks(tip, last, lastiblock);
      CutAddresses(d1, addr1, avail1, disk, tip, avail, last);
      assert tip == ip.addr;   // the two paranoia checks at the end of itrunc
      ip.changed := true;
      CutLocal(d1, addr1, avail1, disk, tip, avail, last);
      LocalTwice(d0, addr0, avail0, d1, addr1, avail1, disk, tip, avail);
      CutBytes(d1, addr1, avail1, disk, tip, avail, length);
      CutOwned(d1, addr1, avail1, disk, tip, avail, last, isize, fsize);
      CutMapping(d1, addr1, avail1, disk, tip, avail, last);
      CutNothingLeft(d1, addr1, avail1, disk, tip, avail, last);
      if length % BSIZE == 0 || (error0 == NoError && BlockOf(d0, addr0, length / BSIZE) != 0) {
        SameInner(d0, d1, addr0);
        CutExactly(d0, d1, addr0, avail1, disk, tip, avail, last);
      }
    }

    /** rwip, reading: copies out up to `count` bytes from `offset`, block by block; holes read as zeros. */
    method RwipRead(ip: Inode, offset: int, count: nat) returns (data: seq<Byte>, err: Errno)
      requires Sound() && FileOk(ip) && error == NoError
      modifies this, ip
      ensures Sound() && FileOk(ip) && error == NoError
      ensures disk == old(disk) && avail == old(avail) && ip.addr == old(ip.addr) && ip.size == old(ip.size)
      ensures offset < 0 ==> err == EINVAL && data == []
      ensures offset >= 0 ==>
        && err == NoError
        && |data| == (if offset >= ip.size then 0 else if count < ip.size - offset then count else ip.size - offset)
        && forall i :: 0 <= i < |data| ==> data[i] == ByteAt(disk, ip.addr, offset + i)
    {
      hide FreeList, Saved, Once, At, Separate, Inside, Claims, BlockOf, ZeroBlock, Mapped, Local;
      data := [];
      if offset < 0 {
        return data, EINVAL;
      }
      if count == 0 {
        return data, NoError;
      }
      var at, resid, n := offset, count, 1;
      while resid > 0 && n != 0
        invariant at == offset + |data| && resid == count - |data| && resid >= 0 && n > 0
        invariant offset < ip.size ==> at <= ip.size
        invariant offset >= ip.size ==> data == []
        invariant Sound() && FileOk(ip) && error == NoError
        invariant disk == old(disk) && avail == old(avail) && ip.addr == old(ip.addr) && ip.size == old(ip.size)
        invariant forall i :: 0 <= i < |data| ==> data[i] == ByteAt(disk, ip.addr, offset + i)
      {
        var lbn, on := at / BSIZE, at % BSIZE;
        n := if BSIZE - on < resid then BSIZE - on else resid;
        var diff := ip.size - at;
        if diff <= 0 {
          return data, NoError;
        }
        if diff < n {
          n := diff;
        }
        var bn := Bmap(ip, lbn, false, false);
        if BlockOf(disk, ip.addr, lbn) != 0 {
          DataInside(ip, lbn);
        }
        var chunk: seq<Byte>;
        if bn < 0 {
          chunk := ZeroBlock()[on..on + n];
        } else {
          AtIs(disk, bn);
          chunk := disk[bn][on..on + n];
        }
        ChunkRead(disk, ip.addr, at, n, bn, chunk);
        data := data + chunk;
        at := at + n;
        resid := resid - n;
      }
      err := NoError;
    }

    /** One round of rwip, writing: the bytes of `chunk` go into one block, which is mapped first. The
        block is not cleared when it is overwritten as a whole. */
    method WriteChunk(ip: Inode, offset: nat, chunk: seq<Byte>) returns (ok: bool)
      requires Sound() && FileOk(ip) && error == NoError
      requires 0 < |chunk| <= BSIZE - offset % BSIZE
      modifies this, ip
      ensures Sound() && FileOk(ip)
      ensures Local(old(disk), old(ip.addr), old(avail), disk, ip.addr, avail)
      ensures ok ==> error == NoError && offset + |chunk| <= ip.size
      ensures ok ==> ip.size == if offset + |chunk| > old(ip.size) then offset + |chunk| else old(ip.size)
      ensures ok ==> Overwritten(old(disk), old(ip.addr), disk, ip.addr, offset, chunk)
      ensures !ok ==> ip.size == old(ip.size) && SameBytes(old(disk), old(ip.addr), disk, ip.addr)
      ensures !ok ==> ip.addr[0] == old(ip.addr[0])
      ensures !ok && error == EFBIG ==> disk == old(disk) && avail == old(avail) && ip.addr == old(ip.addr)
      ensures ip.changed == (old(ip.changed) || ok || ip.addr != old(ip.addr))
      ensures MapsOnly(old(disk), old(ip.addr), disk, ip.addr, offset / BSIZE,
        if ok then offset / BSIZE + 1 else offset / BSIZE)
      ensures !ok ==> if offset / BSIZE >= MAX_BLOCKS then error == EFBIG else error == ENOSPC && avail == []
      ensures ok <==> Starts(old(disk), old(ip.addr), |old(avail)|, offset)
      ensures ok ==> |avail| + Need(old(disk), old(ip.addr), offset / BSIZE) == |old(avail)|
      ensures ok ==> Filled(old(disk), old(ip.addr), disk, ip.addr, offset / BSIZE, offset / BSIZE + 1)
    {
      hide FreeList, Saved, Once, At, Separate, Inside, Claims, BlockOf, ByteAt, ZeroBlock, Mapped, Local, Patched,
        MapsOnly;
      ghost var d0, addr0, avail0, size0 := disk, ip.addr, avail, ip.size;
      var lbn, on, n := offset / BSIZE, offset % BSIZE, |chunk|;
      LocalNot(disk, ip.addr, avail);
      var bn := Bmap(ip, lbn, true, n != BSIZE);
      MapsNone(disk, ip.addr, lbn);
      if lbn < MAX_BLOCKS {
        MapsOne(d0, addr0, avail0, disk, ip.addr, avail, lbn);
        MappedLocal(d0, addr0, avail0, disk, ip.addr, avail, lbn);
        if BlockOf(disk, ip.addr, lbn) != 0 {
          DataInside(ip, lbn);
        } else {
          MappedSameBytes(d0, addr0, avail0, disk, ip.addr, avail, lbn);
          FirstKept(d0, addr0, avail0, disk, ip.addr, avail, lbn);
        }
      }
      if error != NoError || bn < 0 {
        return false;
      }
      if offset + n > ip.size {
        ip.size := offset + n;
      }
      ghost var d1 := disk;
      AtIs(disk, bn);
      PutData(ip, lbn, bn, Patched(disk[bn], on, chunk));
      MapsFrame(d0, addr0, d1, disk, ip.addr, lbn, lbn + 1);
      MappedOffWay(d0, addr0, avail0, d1, ip.addr, avail, lbn);
      FilledOne(d0, addr0, d1, disk, ip.addr, lbn);
      ChunkWritten(d0, addr0, avail0, d1, ip.addr, avail, disk, offset, chunk);
      OverwrittenTail(d0, addr0, disk, ip.addr, offset, chunk, size0, ip.size);
      LocalTwice(d0, addr0, avail0, d1, ip.addr, avail, disk, ip.addr, avail);
      ip.changed := true;
      ok := true;
    }

    /** The first `done` bytes of `data` have been written, into all blocks before `next`. */
    ghost predicate Progress(ip: Inode, d0: Disk, addr0: seq<int>, avail0: seq<int>, size0: nat, start: nat,
        data: seq<Byte>, done: nat, next: nat)
      reads this, ip
    {
      && |ip.addr| == |addr0| == NADDR && AtBlock(start, done, |data|, next)
      && Local(d0, addr0, avail0, disk, ip.addr, avail)
      && ip.size == (if done > 0 && start + done > size0 then start + done else size0)
      && Overwritten(d0, addr0, disk, ip.addr, start, data[..done])
      && Supplied(d0, addr0, avail0, disk, ip.addr, avail, start / BSIZE, next)
      && MapsOnly(d0, addr0, disk, ip.addr, start / BSIZE, next)
      && if done > 0 then Starts(d0, addr0, |avail0|, start) else disk == d0 && ip.addr == addr0 && avail == avail0
    }

    lemma ProgressMore(ip: Inode, d0: Disk, addr0: seq<int>, avail0: seq<int>, size0: nat, start: nat,
        data: seq<Byte>, done: nat, next: nat, d: Disk, addr: seq<int>, av: seq<int>, n: nat)
      requires |ip.addr| == |addr| == |addr0| == NADDR && done + n <= |data| && n > 0
      requires AtBlock(start, done + n, |data|, next + 1) && next == (start + done) / BSIZE
      requires start / BSIZE <= next < MAX_BLOCKS && (done == 0 ==> next == start / BSIZE)
      requires Local(d0, addr0, avail0, d, addr, av) && Local(d, addr, av, disk, ip.addr, avail)
      requires Overwritten(d0, addr0, d, addr, start, data[..done])
      requires Overwritten(d, addr, disk, ip.addr, start + done, data[done..done + n])
      requires Supplied(d0, addr0, avail0, d, addr, av, start / BSIZE, next)
      requires Filled(d, addr, disk, ip.addr, next, next + 1) && |avail| + Need(d, addr, next) == |av|
      requires MapsOnly(d0, addr0, d, addr, start / BSIZE, next) && MapsOnly(d, addr, disk, ip.addr, next, next + 1)
      requires if done > 0 then Starts(d0, addr0, |avail0|, start) else d == d0 && addr == addr0 && av == avail0
      requires ip.size == if start + done + n > size0 then start + done + n else size0
      ensures Progress(ip, d0, addr0, avail0, size0, start, data, done + n, next + 1)
    {
      hide Overwritten, Filled, Local, Supplied, MapsOnly, Need, AtBlock;
      MapsTwice(d0, addr0, d, addr, disk, ip.addr, start / BSIZE, next, next + 1);
      LocalTwice(d0, addr0, avail0, d, addr, av, disk, ip.addr, avail);
      assert data[..done] + data[done..done + n] == data[..done + n];
      OverwrittenTwice(d0, addr0, d, addr, disk, ip.addr, start, data[..done], data[done..done + n]);
      SuppliedMore(d0, addr0, avail0, d, addr, av, disk, ip.addr, avail, start / BSIZE, next);
    }

    /** The loop of rwip, writing: the data goes out block by block until a block cannot be had. */
    method WriteBlocks(ip: Inode, start: nat, data: seq<Byte>) returns (done: nat, err: Errno)
      requires Sound() && FileOk(ip) && error == NoError && data != []
      modifies this, ip
      ensures Sound() && FileOk(ip)
      ensures Local(old(disk), old(ip.addr), old(avail), disk, ip.addr, avail)
      ensures done <= |data| && err == error
      ensures ip.size == (if done > 0 && start + done > old(ip.size) then start + done else old(ip.size))
      ensures Overwritten(old(disk), old(ip.addr), disk, ip.addr, start, data[..done])
      ensures err == NoError <==> done == |data|
      ensures err == NoError <==> Fits(old(disk), old(ip.addr), |old(avail)|, start, |data|)
      ensures done > 0 <==> Starts(old(disk), old(ip.addr), |old(avail)|, start)
      ensures done == 0 ==> |ip.addr| == |old(ip.addr)| == NADDR && ip.addr[0] == old(ip.addr[0])
      ensures err != NoError ==>
        if (start + done) / BSIZE >= MAX_BLOCKS then err == EFBIG else err == ENOSPC && avail == []
      ensures MapsOnly(old(disk), old(ip.addr), disk, ip.addr, start / BSIZE, Behind(start, done))
      ensures err != ENOSPC ==> |avail| + Spent(old(disk), old(ip.addr), start, done) == |old(avail)|
      ensures ip.changed == (old(ip.changed) || done > 0 || ip.addr != old(ip.addr))
    {
      hide FreeList, Saved, Once, At, Separate, Inside, Claims, BlockOf, ByteAt, ZeroBlock, Mapped, Local, CleanTail,
        Missing, Need, Filled, Supplied, Overwritten, SameBytes, Sound, FileOk, Owns, AtBlock, Fits, Starts, MapsOnly,
        Spent, Behind;
      Addresses(ip);
      done := 0;
      ghost var d0, addr0, avail0, size0 := disk, ip.addr, avail, ip.size;
      ghost var next: nat := start / BSIZE;
      ProgressNone(ip, start, data);
      while done < |data|
        invariant done <= |data| && |ip.addr| == NADDR
        invariant Sound() && FileOk(ip) && error == NoError
        invariant Progress(ip, d0, addr0, avail0, size0, start, data, done, next)
        invariant ip.changed == (old(ip.changed) || done > 0 || ip.addr != addr0)
      {
        var on := (start + done) % BSIZE;
        var n := if BSIZE - on < |data| - done then BSIZE - on else |data| - done;
        AtBlockNext(start, done, n, |data|, next);
        ghost var d, a, av, size := disk, ip.addr, avail, ip.size;
        var ok := WriteChunk(ip, start + done, data[done..done + n]);
        Addresses(ip);
        if !ok {
          WriteEnds(d0, addr0, avail0, d, a, av, disk, ip.addr, avail, start, data, done, next);
          return done, error;
        }
        StartsIs(d, a, |av|, start + done, next);
        StartsIs(d0, addr0, |avail0|, start, next);
        ProgressMore(ip, d0, addr0, avail0, size0, start, data, done, next, d, a, av, n);
        next := next + 1;
        done := done + n;
      }
      assert data[..done] == data;
      SuppliedFits(d0, addr0, avail0, disk, ip.addr, avail, start, |data|, next);
      SpentSoFar(d0, addr0, avail0, disk, ip.addr, avail, start, |data|, done, next);
      err := NoError;
    }

    lemma ProgressNone(ip: Inode, start: nat, data: seq<Byte>)
      requires |ip.addr| == NADDR
      ensures Progress(ip, disk, ip.addr, avail, ip.size, start, data, 0, start / BSIZE)
    {
      hide Overwritten, Local, Supplied, MapsOnly;
      MapsNone(disk, ip.addr, start / BSIZE);
      LocalNot(disk, ip.addr, avail);
      OverwrittenNot(disk, ip.addr, start);
      SuppliedNot(disk, ip.addr, avail, start / BSIZE);
      assert data[..0] == [];
    }

    /** rwip, writing. With IO_UNIT the whole write was to be taken back on an error; but a block that cannot be
        had leaves by a return in the loop, and behind the loop there is no error. */
    method RwipWrite(ip: Inode, offset: int, data: seq<Byte>, regular: bool, append: bool,
        unit: bool) returns (done: nat, err: Errno)
      requires Sound() && FileOk(ip) && error == NoError
      modifies this, ip
      ensures Sound() && FileOk(ip)
      ensures Local(old(disk), old(ip.addr), old(avail), disk, ip.addr, avail)
      ensures done <= |data| && (offset >= 0 ==> (err == NoError <==> done == |data|))
      ensures offset >= 0 ==>
        var start := if regular && append then old(ip.size) else offset;
        && (err != NoError ==> if (regular && start + |data| > LIMIT) || (start + done) / BSIZE >= MAX_BLOCKS
                                then err == EFBIG else err == ENOSPC && avail == [])
        && ip.size == (if done > 0 && start + done > old(ip.size) then start + done else old(ip.size))
        && Overwritten(old(disk), old(ip.addr), disk, ip.addr, start, data[..done])
      ensures ip.size == 0 ==> ip.addr[0] == old(ip.addr[0])
      ensures offset < 0 ==>
        err == EINVAL && done == 0 && ip.size == old(ip.size) && disk == old(disk) && ip.addr == old(ip.addr)
          && avail == old(avail)
      ensures offset >= 0 ==>
        var start := if regular && append then old(ip.size) else offset;
        && MapsOnly(old(disk), old(ip.addr), disk, ip.addr, start / BSIZE, Behind(start, done))
        && (err != ENOSPC ==> |avail| + Spent(old(disk), old(ip.addr), start, done) == |old(avail)|)
      ensures ip.changed == (old(ip.changed) || done > 0 || ip.addr != old(ip.addr))
      ensures offset >= 0 ==>
        var start := if regular && append then old(ip.size) else offset;
        err == NoError <==> data == [] || (!(regular && start + |data| > LIMIT)
                                           && Fits(old(disk), old(ip.addr), |old(avail)|, start, |data|))
      ensures offset >= 0 ==>
        var start := if regular && append then old(ip.size) else offset;
        (err == NoError || done == 0) <==>
          (regular && start + |data| > LIMIT) || Undivided(old(disk), old(ip.addr), |old(avail)|, start, |data|)
    {
      hide FreeList, Saved, Once, At, Separate, Inside, Claims, BlockOf, ByteAt, ZeroBlock, Mapped, Local, CleanTail,
        Missing, Need;
      done := 0;
      LocalNot(disk, ip.addr, avail);
      if offset < 0 {
        return 0, EINVAL;
      }
      var start := if regular && append then ip.size else offset;
      MapsNone(disk, ip.addr, start / BSIZE);
      assert data[..0] == [];
      if |data| == 0 {
        return 0, NoError;
      }
      if regular && start + |data| > LIMIT {
        return 0, EFBIG;
      }
      done, err := WriteBlocks(ip, start, data);
      if err != NoError {
        return;
      }
      if error != NoError && unit {
        assert false;
      }
    }
  }

  lemma OverwrittenNot(d: Disk, addr: seq<int>, offset: nat)
    requires |addr| == NADDR
    ensures Overwritten(d, addr, d, addr, offset, [])
  {
    hide ByteAt;
  }

  /** After `done` of `total` bytes, all blocks before `next` have been written. */
  ghost predicate AtBlock(start: nat, done: nat, total: nat, next: nat) {
    && done <= total
    && next == (if done == 0 then start / BSIZE else (start + done - 1) / BSIZE + 1)
    && (0 < done < total ==> (start + done) % BSIZE == 0)
  }

  lemma AtBlockNext(start: nat, done: nat, n: nat, total: nat, next: nat)
    requires done < total && AtBlock(start, done, total, next)
    requires var on := (start + done) % BSIZE; n == if BSIZE - on < total - done then BSIZE - on else total - done
    ensures start / BSIZE <= next == (start + done) / BSIZE <= (start + total - 1) / BSIZE
    ensures 0 < n <= BSIZE - (start + done) % BSIZE && AtBlock(start, done + n, total, next + 1)
    ensures done == 0 ==> next == start / BSIZE
  {
  }

  lemma StartsIs(d: Disk, addr: seq<int>, blocks: nat, start: nat, bn: nat)
    requires |addr| == NADDR
    ensures bn == start / BSIZE ==> (Starts(d, addr, blocks, start) <==> bn < MAX_BLOCKS && Need(d, addr, bn) <= blocks)
  {
    hide Need;
  }

  lemma NotFits(d: Disk, addr: seq<int>, blocks: nat, start: nat, n: nat)
    requires |addr| == NADDR && n > 0
    requires var last := (start + n - 1) / BSIZE;
      last >= MAX_BLOCKS || (start / BSIZE <= last && Missing(d, addr, start / BSIZE, last + 1) > blocks)
    ensures !Fits(d, addr, blocks, start, n)
  {
    hide Missing;
  }

  lemma SuppliedFits(d0: Disk, addr0: seq<int>, avail0: seq<int>, d: Disk, addr: seq<int>, avail: seq<int>,
      start: nat, n: nat, next: nat)
    requires |addr0| == |addr| == NADDR && n > 0 && AtBlock(start, n, n, next)
    requires Supplied(d0, addr0, avail0, d, addr, avail, start / BSIZE, next) && Starts(d0, addr0, |avail0|, start)
    ensures Fits(d0, addr0, |avail0|, start, n)
  {
    hide Missing, Filled, Need;
  }

  lemma SpentSoFar(d0: Disk, addr0: seq<int>, avail0: seq<int>, d: Disk, addr: seq<int>, avail: seq<int>, start: nat,
      total: nat, done: nat, next: nat)
    requires |addr0| == |addr| == NADDR && AtBlock(start, done, total, next) && (done == 0 ==> avail == avail0)
    requires Supplied(d0, addr0, avail0, d, addr, avail, start / BSIZE, next)
    requires done > 0 ==> Starts(d0, addr0, |avail0|, start)
    ensures next == Behind(start, done) && |avail| + Spent(d0, addr0, start, done) == |avail0|
  {
    hide Missing, Filled, Need;
  }

  /** A block cannot be had for the rest of a write. */
  lemma WriteEnds(d0: Disk, addr0: seq<int>, avail0: seq<int>, d1: Disk, addr1: seq<int>, avail1: seq<int>, d: Disk,
      addr: seq<int>, avail: seq<int>, start: nat, data: seq<Byte>, done: nat, next: nat)
    requires |addr0| == |addr1| == |addr| == NADDR && done < |data| && AtBlock(start, done, |data|, next)
    requires start / BSIZE <= next == (start + done) / BSIZE <= (start + |data| - 1) / BSIZE
    requires Local(d0, addr0, avail0, d1, addr1, avail1) && Local(d1, addr1, avail1, d, addr, avail)
    requires Overwritten(d0, addr0, d1, addr1, start, data[..done]) && SameBytes(d1, addr1, d, addr)
    requires Supplied(d0, addr0, avail0, d1, addr1, avail1, start / BSIZE, next)
    requires MapsOnly(d0, addr0, d1, addr1, start / BSIZE, next) && MapsOnly(d1, addr1, d, addr, next, next)
    requires if done > 0 then Starts(d0, addr0, |avail0|, start) else d1 == d0 && addr1 == addr0 && avail1 == avail0
    requires !Starts(d1, addr1, |avail1|, start + done)
    ensures Local(d0, addr0, avail0, d, addr, avail) && Overwritten(d0, addr0, d, addr, start, data[..done])
    ensures !Fits(d0, addr0, |avail0|, start, |data|) && (done > 0 <==> Starts(d0, addr0, |avail0|, start))
    ensures MapsOnly(d0, addr0, d, addr, start / BSIZE, Behind(start, done))
    ensures |avail1| + Spent(d0, addr0, start, done) == |avail0|
  {
    hide Local, Overwritten, SameBytes, Supplied, MapsOnly, Starts, Fits, Spent, Missing, Need, BlockOf, AtBlock,
      Filled, Behind;
    StartsIs(d1, addr1, |avail1|, start + done, next);
    LocalTwice(d0, addr0, avail0, d1, addr1, avail1, d, addr, avail);
    OverwrittenSame(d0, addr0, d1, addr1, d, addr, start, data[..done]);
    SuppliedNoMore(d0, addr0, avail0, d1, addr1, avail1, start / BSIZE, next, (start + |data| - 1) / BSIZE);
    NotFits(d0, addr0, |avail0|, start, |data|);
    SpentSoFar(d0, addr0, avail0, d1, addr1, avail1, start, |data|, done, next);
    MapsTwice(d0, addr0, d1, addr1, d, addr, start / BSIZE, next, next);
  }

  lemma ChunkRead(d: Disk, addr: seq<int>, at: nat, n: nat, bn: int, chunk: seq<Byte>)
    requires |addr| == NADDR && at / BSIZE < MAX_BLOCKS && at % BSIZE + n <= BSIZE && |chunk| == n
    requires bn < 0 ==> BlockOf(d, addr, at / BSIZE) == 0 && forall j :: 0 <= j < n ==> chunk[j] == 0
    requires bn >= 0 ==> 0 < bn == BlockOf(d, addr, at / BSIZE) < |d| && chunk == d[bn][at % BSIZE..at % BSIZE + n]
    ensures forall j :: 0 <= j < n ==> chunk[j] == ByteAt(d, addr, at + j)
  {
    hide BlockOf, ByteAt;
    forall j | 0 <= j < n
      ensures chunk[j] == ByteAt(d, addr, at + j)
    {
      assert (at + j) / BSIZE == at / BSIZE && (at + j) % BSIZE == at % BSIZE + j;
      if bn >= 0 {
        ByteIn(d, addr, at + j, bn);
      } else {
        ByteHole(d, addr, at + j);
      }
    }
  }

  lemma ByteHole(d: Disk, addr: seq<int>, i: nat)
    requires |addr| == NADDR && i / BSIZE < MAX_BLOCKS && BlockOf(d, addr, i / BSIZE) == 0
    ensures ByteAt(d, addr, i) == 0
  {
    hide BlockOf;
  }

  lemma OverwrittenSame(d0: Disk, addr0: seq<int>, d1: Disk, addr1: seq<int>, d: Disk, addr: seq<int>,
      offset: nat, data: seq<Byte>)
    requires |addr0| == |addr1| == |addr| == NADDR
    requires Overwritten(d0, addr0, d1, addr1, offset, data) && SameBytes(d1, addr1, d, addr)
    ensures Overwritten(d0, addr0, d, addr, offset, data)
  {
    hide ByteAt;
  }

  lemma SameInner(d0: Disk, d1: Disk, addr: seq<int>)
    requires d0 == d1 || SameOn(d0, d1, Claims(d0, addr, 1))
    ensures SameOn(d0, d1, Claims(d0, addr, 1))
  {
    hide Claims, At;
  }

  lemma CutExactly(d0: Disk, d1: Disk, addr1: seq<int>, avail1: seq<int>, d: Disk, addr: seq<int>,
      avail: seq<int>, last: int)
    requires CutDown(d1, addr1, avail1, d, addr, avail, 0, last) && |addr1| == NADDR
    requires SameOn(d0, d1, Claims(d0, addr1, 1))
    ensures |addr| == NADDR && forall s :: 0 <= s < NADDR ==> SlotTrees(d, addr, 0)[s] == SlotKept(d0, addr1, s, last)
  {
    hide Claims, At, BlockOf, SlotTrees, SlotKept, SlotFor;
    forall s | 0 <= s < NADDR
      ensures SlotKept(d1, addr1, s, last) == SlotKept(d0, addr1, s, last)
    {
      SlotKeptFrame(d0, d1, addr1, s, last);
    }
  }

  lemma CutNothingLeft(d0: Disk, addr0: seq<int>, avail0: seq<int>, d: Disk, addr: seq<int>, avail: seq<int>, last: int)
    requires CutDown(d0, addr0, avail0, d, addr, avail, 0, last)
    ensures |addr| == NADDR && forall s :: 0 <= s < NADDR ==> SlotTrees(d, addr, 0)[s] == SlotKept(d, addr, s, last)
  {
    hide Claims, At, BlockOf, SlotTrees, SlotKept, SlotFor;
  }

  lemma CutAddresses(d0: Disk, addr0: seq<int>, avail0: seq<int>, d: Disk, addr: seq<int>, avail: seq<int>, last: int)
    requires CutDown(d0, addr0, avail0, d, addr, avail, 0, last)
    ensures |addr0| == |addr| == NADDR
    ensures forall i :: 0 <= i < NADDR ==> addr[i] == if FirstOf(i) > last then 0 else addr0[i]
  {
    hide Claims, At, BlockOf, SlotTrees, SlotKept, SlotFor;
  }

  lemma CutOwned(d0: Disk, addr0: seq<int>, avail0: seq<int>, d: Disk, addr: seq<int>, avail: seq<int>,
      last: int, lo: int, hi: int)
    requires CutDown(d0, addr0, avail0, d, addr, avail, 0, last)
    requires Separate(Claims(d0, addr0, 0), avail0) && Inside(Claims(d0, addr0, 0), avail0, lo, hi)
    ensures Separate(Claims(d, addr, 0), avail) && Inside(Claims(d, addr, 0), avail, lo, hi)
  {
    hide Claims, At, BlockOf, SlotTrees, SlotKept, SlotFor, Separate, Inside;
    SameUnion(Claims(d0, addr0, 0), avail0, Claims(d, addr, 0), avail, lo, hi);
  }

  lemma CutMapping(d0: Disk, addr0: seq<int>, avail0: seq<int>, d: Disk, addr: seq<int>, avail: seq<int>, last: int)
    requires CutDown(d0, addr0, avail0, d, addr, avail, 0, last)
    ensures |addr0| == |addr| == NADDR
    ensures forall b :: 0 <= b < MAX_BLOCKS ==> BlockOf(d, addr, b) == if b > last then 0 else BlockOf(d0, addr0, b)
  {
    hide Claims, At, BlockOf, SlotTrees, SlotKept;
  }

  lemma LocalNot(d: Disk, addr: seq<int>, avail: seq<int>)
    requires |addr| == NADDR
    ensures Local(d, addr, avail, d, addr, avail)
  {
  }

  lemma MappedOthers(d0: Disk, addr0: seq<int>, avail0: seq<int>, d: Disk, addr: seq<int>, avail: seq<int>, bn: nat)
    requires Mapped(d0, addr0, avail0, d, addr, avail, bn)
    ensures forall b :: 0 <= b < MAX_BLOCKS && b != bn ==> BlockOf(d, addr, b) == BlockOf(d0, addr0, b)
  {
    hide Claims, BlockOf, At;
  }

  /** The first block of a file is the one of slot 0: it is not given away, and comes only with block 0. */
  lemma FirstKept(d0: Disk, addr0: seq<int>, avail0: seq<int>, d: Disk, addr: seq<int>, avail: seq<int>, bn: nat)
    requires Mapped(d0, addr0, avail0, d, addr, avail, bn) && bn < MAX_BLOCKS
    requires BlockOf(d0, addr0, bn) == 0 && BlockOf(d, addr, bn) == 0
    ensures addr[0] == addr0[0]
  {
    hide Claims, At, OffWay, NodeAt;
    NodeAtStep(d0, 0, addr0[0], 0, 0);
    NodeAtStep(d, 0, addr[0], 0, 0);
    assert BlockOf(d, addr, 0) == BlockOf(d0, addr0, 0);
  }

  lemma MappedOffWay(d0: Disk, addr0: seq<int>, avail0: seq<int>, d: Disk, addr: seq<int>, avail: seq<int>, bn: nat)
    requires Mapped(d0, addr0, avail0, d, addr, avail, bn)
    ensures |addr0| == |addr| == NADDR && OffWay(d0, addr0, d, addr, bn)
  {
    hide Claims, BlockOf, At, OffWay;
  }

  /** A write inside one block, as to directories, is not divided. */
  lemma OneBlockUndivided(d: Disk, addr: seq<int>, blocks: nat, start: nat, n: nat)
    requires |addr| == NADDR && start % BSIZE + n <= BSIZE
    ensures Undivided(d, addr, blocks, start, n)
  {
    hide Need, Wanted;
    if n > 0 && start / BSIZE < MAX_BLOCKS {
      assert (start + n - 1) / BSIZE == start / BSIZE;
      MissingStep(d, addr, start / BSIZE, start / BSIZE);
    }
  }

  /** The room for a new chunk at the end of a directory: none is needed in a block that the directory has; otherwise
      as many blocks as are missing on the way to the next one. */
  lemma EntryFits(d: Disk, addr: seq<int>, blocks: nat, size: nat, n: nat)
    requires |addr| == NADDR && size % 512 == 0 && 0 < n <= 512 && size / BSIZE < MAX_BLOCKS
    ensures Fits(d, addr, blocks, size, n) <==> Need(d, addr, size / BSIZE) <= blocks
    ensures size % BSIZE != 0 && BlockOf(d, addr, size / BSIZE) != 0 ==> Fits(d, addr, blocks, size, n)
  {
    hide Need, Wanted, BlockOf;
    assert (size + n - 1) / BSIZE == size / BSIZE;
    MissingStep(d, addr, size / BSIZE, size / BSIZE);
    NeedNothing(d, addr, size / BSIZE);
  }

  /** A symbolic link of 1025 bytes, on a volume with one free block: the first 1024 stay. */
  lemma WriteDivided(d: Disk)
    ensures !Undivided(d, NoBlocks(), 1, 0, 1025)
  {
    EmptyNeeds(d, 0);
    EmptyNeeds(d, 1);
    hide Need, Wanted, Way;
    MissingStep(d, NoBlocks(), 0, 0);
    MissingStep(d, NoBlocks(), 0, 1);
  }

  lemma EmptyNeeds(d: Disk, bn: nat)
    requires bn < NDADDR
    ensures Need(d, NoBlocks(), bn) == 1
    ensures bn == 1 ==> Wanted(d, NoBlocks(), 0, 1, LevelOf(SlotFor(1)) + 1) == 1
  {
    hide NodeAt;
    NodeAtStep(d, 0, 0, 0, 0);
    NeedIs(d, NoBlocks(), bn, 1);
  }

  /** A file of 2048 bytes without blocks, on a full volume, cannot be cut to 100 bytes; nor can any file be cut
      inside a block while an error is left over. */
  lemma CutRefused(d: Disk, addr: seq<int>, blocks: nat, error: Errno)
    requires |addr| == NADDR && error != NoError
    ensures !Reachable(d, NoBlocks(), 0, NoError, 2048, 100)
    ensures !Reachable(d, addr, blocks, error, 2048, 100)
  {
    hide Need;
    EmptyNeeds(d, 0);
  }

  /** lastiblock of itrunc, normalized: the last block to keep, as an index in the tree of slot s. */
  function LastIn(last: int, s: nat): int
    requires s < NADDR
  {
    if last < FirstOf(s) then -1 else last - FirstOf(s)
  }

  lemma LastInSlot(last: int, s: nat)
    requires s < NADDR && -1 <= last < MAX_BLOCKS
    requires s + 1 < NADDR ==> last < FirstOf(s + 1)
    ensures -1 <= LastIn(last, s) < Span(LevelOf(s)) && last < FirstOf(s) + Span(LevelOf(s))
    ensures forall d: Disk, addr :: |addr| == NADDR ==>
      SlotKept(d, addr, s, last)
        == if LastIn(last, s) < 0 then multiset{} else Kept(d, LevelOf(s), addr[s], LastIn(last, s))
  {
    hide Kept, Nodes;
    Spans();
  }

  lemma WholeBelow(n: nat, last: int)
    requires n < NADDR && last + 1 >= FirstOf(n) && (n > NDADDR ==> last >= FirstOf(n))
    ensures forall i :: 0 <= i < n ==> last - FirstOf(i) >= Span(LevelOf(i)) || (LevelOf(i) == 0 && last == FirstOf(i))
  {
    Spans();
  }

  lemma SeparateMember(m: multiset<int>, avail: seq<int>, b: int, lo: int, hi: int)
    requires Separate(m, avail) && Inside(m, avail, lo, hi) && b in m
    ensures b !in avail && lo <= b < hi
  {
    SeparateOnce(m, avail);
  }

  lemma TreeNodes(d: Disk, d': Disk, level: nat, b: int)
    requires SameTree(d, d', level, b)
    ensures Nodes(d', level, b, 0) == Nodes(d, level, b, 0)
  {
    hide Nodes, NodeAt, Span;
  }

  lemma LastSlot(level: nat, lastbn: int, last: int)
    requires 1 <= level <= 3 && -1 <= lastbn < Span(level)
    requires last == if lastbn > 0 then lastbn / Span(level - 1) else lastbn
    ensures lastbn < 0 ==> last == -1
    ensures lastbn >= 0 ==> last == Slot(level, lastbn) < NINDIR && lastbn % Span(level - 1) == Rest(level, lastbn)
    ensures lastbn >= 0 && level == 1 ==> Rest(level, lastbn) == 0
    ensures -1 <= lastbn % Span(level - 1) < Span(level - 1)
  {
    Spans();
  }

  lemma CutPartial(d0: Disk, avail0: seq<int>, d1: Disk, avail1: seq<int>, d: Disk, avail: seq<int>,
                   level: nat, b: int, z: Block, lastbn: nat, c: nat, r: nat)
    requires level > 0 && b != 0 && lastbn < Span(level) && r < Span(level - 1) && c == Slot(level, lastbn)
    requires r == Rest(level, lastbn)
    requires Separate(Nodes(d0, level, b, 0), avail0)
    requires Cutting(d0, avail0, d1, avail1, level, b, z, c + 1)
    requires Pointers(z) == Pointers(At(d0, b))[..c + 1] + seq(NINDIR - (c + 1), _ => 0)
    requires SameTree(d0, d1, level - 1, Pointers(At(d0, b))[c])
    requires Trimmed(d1, avail1, d, avail, level - 1, Pointers(At(d0, b))[c], r)
    ensures Trimmed(d0, avail0, d, avail, level, b, lastbn)
  {
    hide Nodes, NodeAt, Span, At, Separate, Pointers, Cutting, SameTree, Trimmed, Slot, Rest;
    CutPart(d0, avail0, d1, avail1, d, avail, level, b, z, lastbn);
  }

  lemma DirectBlock(d: Disk, addr: seq<int>, bn: nat)
    requires |addr| == NADDR && bn < NDADDR
    ensures SlotFor(bn) == bn && LevelOf(bn) == 0 && IndexIn(bn) == 0 < Span(0)
    ensures BlockOf(d, addr, bn) == addr[bn]
  {
    NodeAtStep(d, 0, addr[bn], 0, 0);
  }

  lemma SeparateFree(claims: multiset<int>, avail: seq<int>)
    requires Separate(claims, avail)
    ensures Separate(multiset{}, avail)
  {
    SeparateOnce(claims, avail);
    assert multiset{} + multiset(avail) == multiset(avail);
  }

  lemma TakenIs(d: Disk, avail: seq<int>, d1: Disk, n: int)
    requires avail != [] && n == avail[|avail| - 1] && |d1| == |d| && 0 <= n < |d|
    requires At(d1, n) == ZeroBlock() && forall b :: b != n && b != SUPERB ==> At(d1, b) == At(d, b)
    ensures Taken(d, avail, d1, n)
  {
    hide ZeroBlock;
  }

  lemma HungZero(d: Disk, level: nat, b: int, k: nat, t: nat, n: Long)
    requires Hangable(d, level, b, k, t, n)
    ensures At(Hung(d, level, b, k, t, n), n) == ZeroBlock()
  {
    hide Nodes, NodeAt, Span, ZeroBlock, SetPointer, SlotOf, Hung;
    HungBlocks(d, level, b, k, t, n);
  }

  lemma UnitStep(t: nat, k: nat)
    ensures Span(t + 1) / NINDIR == Span(t) && SlotOf(k, t) == k / Span(t) % NINDIR
  {
  }

  lemma Located(bn: nat, j: nat, b: int)
    requires 1 <= j <= 3
    requires j == 3 ==> b == bn - 4 && 0 <= b < 256
    requires j == 2 ==> b == bn - 4 - 256 && 0 <= b < 65536
    requires j == 1 ==> b == bn - 4 - 256 - 65536 && 0 <= b < 16777216
    ensures bn < MAX_BLOCKS && SlotFor(bn) == NADDR - j && IndexIn(bn) == b && LevelOf(NADDR - j) == 4 - j
    ensures Span(4 - j) == if j == 3 then 256 else if j == 2 then 65536 else 16777216
  {
    Spans();
  }
}
