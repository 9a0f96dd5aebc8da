/** bsd211fs_mkfs (bsd211fs.c): the inode list is cleared, the free list is built, and the first two directories are
    made. What is left can be mounted. */
module NewVolume {
  import opened DiskFormat
  import opened Tally
  import opened BlockTree
  import opened InodeMap
  import opened FreeChain
  import opened Superblock
  import opened Growth
  import opened FileContents
  import opened Store
  import opened Volume
  import opened Mkfs
  import opened DirEntries
  import opened NameTree
  import opened FirstDirectories
  import opened InodeTables
  import opened InodeBlocks
  import opened FileSets

  const RESERVEDINO := 1
  const MAX_ITABLE := 4093   // BSD211FS_MAX_ITABLE_SIZE
  const DIRMODE := 0x41ff    // IFDIR | 0777
  const REGMODE := 0x8000    // IFREG

  // Files of one block.

  function OneBlock(b: int): (addr: seq<int>)
    ensures |addr| == NADDR
  {
    NoBlocks()[0 := b]
  }

  function OneBlockFile(nlink: nat, size: nat, b: int): Dinode {
    Dinode(DIRMODE, nlink, 0, 0, size, OneBlock(b), 0)
  }

  lemma OneBlockClaims(d: Disk, b: int)
    requires b != 0
    ensures Claims(d, OneBlock(b), 0) == multiset{b}
  {
    hide Nodes, Sum, SlotTrees;
    var ms := SlotTrees(d, NoBlocks(), 0);
    forall s | 0 <= s < NADDR
      ensures SlotTrees(d, OneBlock(b), 0)[s] == ms[0 := multiset{b}][s] && ms[s] == multiset{}
    {
      SlotTreesAt(d, NoBlocks(), 0, s);
      SlotTreesAt(d, OneBlock(b), 0, s);
      NodesStep(d, LevelOf(s), 0, 0);
      NodesStep(d, 0, b, 0);
    }
    assert SlotTrees(d, OneBlock(b), 0) == ms[0 := multiset{b}];
    SumReplace(ms, 0, multiset{b});
    SumEmpty(ms);
    assert Claims(d, OneBlock(b), 0) + multiset{} == Claims(d, OneBlock(b), 0);
    assert multiset{} + multiset{b} == multiset{b};
  }

  lemma OneBlockBytes(d: Disk, b: int, i: nat)
    ensures ByteAt(d, OneBlock(b), i) == if i < BSIZE && b != 0 then At(d, b)[i] else 0
  {
    hide NodeAt, At;
    if i / BSIZE < MAX_BLOCKS {
      BlockOfBy(d, OneBlock(b), i / BSIZE);
      NodeAtStep(d, LevelOf(SlotFor(i / BSIZE)), OneBlock(b)[SlotFor(i / BSIZE)], IndexIn(i / BSIZE), 0);
    }
  }

  lemma OneBlockInOrder(d: Disk, nlink: nat, size: nat, b: int, bytes: Bytes)
    requires b != 0 && 0 < size <= BSIZE && At(d, b) == bytes && forall i :: size <= i < BSIZE ==> bytes[i] == 0
    ensures InOrder(d, OneBlockFile(nlink, size, b)) && BytesOf(d, OneBlockFile(nlink, size, b)) == bytes[..size]
  {
    hide ByteAt, At;
    forall i: nat
      ensures ByteAt(d, OneBlock(b), i) == if i < BSIZE then bytes[i] else 0
    {
      OneBlockBytes(d, b, i);
    }
  }

  /** A block of the free list becomes that of file k. */
  method FirstBlock(fs: FileSystem, bytes: Block, nlink: nat, size: nat, ghost files: seq<Dinode>,
      ghost k: nat) returns (bno: int)
    requires fs.Sound() && FilesOk(fs.disk, files, fs.avail, fs.isize, fs.fsize)
    requires k < |files| && BlocksOf(files[k]) == NoBlocks()
    requires 0 < size <= BSIZE && forall i :: size <= i < BSIZE ==> bytes[i] == 0
    modifies fs
    ensures fs.Sound() && (bno == NONE <==> old(fs.avail) == [])
    ensures bno != NONE ==>
      && fs.InData(bno) && fs.fmod && |fs.avail| + 1 == |old(fs.avail)| && fs.error == old(fs.error)
      && (forall b :: 2 <= b < fs.isize ==> At(fs.disk, b) == At(old(fs.disk), b))
      && var v := OneBlockFile(nlink, size, bno);
      && FilesOk(fs.disk, files[k := v], fs.avail, fs.isize, fs.fsize) && BytesOf(fs.disk, v) == bytes[..size]
      && Census(fs.disk, files[k := v], fs.avail) == Census(old(fs.disk), files, old(fs.avail))
      && forall j :: 0 <= j < |files| && j != k ==> BytesOf(fs.disk, files[j]) == BytesOf(old(fs.disk), files[j])
  {
    hide FilesOk, FreeList, Saved, At, Claims, Census, BytesOf, ZeroBlock, InOrder;
    ghost var d0, avail0 := fs.disk, fs.avail;
    fs.ListInside();
    fs.ListOnce();
    bno := fs.Balloc(true);
    if bno == NONE {
      return;
    }
    ghost var d1 := fs.disk;
    fs.PutBlock(bno, bytes);
    AtWrite(d1, bno, bytes);
    OneBlockInOrder(fs.disk, nlink, size, bno, bytes);
    OneBlockClaims(fs.disk, bno);
    EmptyFile(d0, NoBlocks());
    assert avail0 == fs.avail + [bno];
    assert multiset{bno} + multiset(fs.avail) == multiset{} + multiset(avail0);
    FileChanged(d0, files, avail0, fs.isize, fs.fsize, k, fs.disk, OneBlockFile(nlink, size, bno), fs.avail);
  }

  // The inodes.

  function FreeInode(): Dinode {
    Dinode(0, 0, 0, 0, 0, NoBlocks(), 0)
  }

  function ReservedInode(): Dinode {
    Dinode(REGMODE, 0, 0, 0, 0, NoBlocks(), 0)
  }

  function AllFree(n: nat): (files: seq<Dinode>)
    ensures |files| == n && forall i :: 0 <= i < n ==> files[i] == FreeInode()
  {
    seq(n, _ => FreeInode())
  }

  /** The inodes of a new volume, with the first directories in blocks lost and root. */
  function FirstFiles(n: nat, lost: int, root: int): seq<Dinode>
    requires n >= LOSTFOUNDINO
  {
    AllFree(n)[LOSTFOUNDINO - 1 := OneBlockFile(2, 2 * DIRBLKSIZ, lost)]
      [ROOTINO - 1 := OneBlockFile(3, DIRBLKSIZ, root)][RESERVEDINO - 1 := ReservedInode()]
  }

  function ByNumber(files: seq<Dinode>): (dinode: Blocks)
    ensures Numbered(dinode, |files|) && forall ino :: ino in dinode ==> dinode[ino] == files[ino - 1]
  {
    map ino: nat | 1 <= ino <= |files| :: File(files, ino)
  }

  function File(files: seq<Dinode>, ino: nat): Dinode
    requires 1 <= ino <= |files|
  {
    files[ino - 1]
  }

  /** An inode of zeros is free. */
  lemma ZeroInode(k: nat)
    requires k < INOPB
    ensures DinodeAt(ZeroBlock(), k) == FreeInode()
  {
    var at := DINODE * k;
    assert forall i :: 0 <= i < NADDR ==> LongAt(ZeroBlock(), at + 12 + 4 * i) == 0;
    assert DinodeAt(ZeroBlock(), k).addr == NoBlocks();
  }

  /** No file has a block. */
  lemma {:induction false} NothingInUse(d: Disk, n: nat, t: FreeTable, avail: seq<int>, lo: int, hi: int)
    requires FreeList(d, t, avail, lo, hi) && 2 <= lo
    ensures FilesOk(d, AllFree(n), avail, lo, hi)
  {
    hide Claims, FileClaims, Sum, CleanTail, Chain;
    EmptyFile(d, NoBlocks());
    var addrs := AddrsOf(AllFree(n));
    forall i | 0 <= i < n
      ensures FileClaims(d, addrs)[i] == multiset{}
    {
      FileClaimsAt(d, addrs, i);
    }
    SumEmpty(FileClaims(d, addrs));
    assert multiset{} + multiset(avail) == multiset(avail);
  }

  /** The three inodes are put into the first block of the inode list. */
  function FirstInodes(b: Block, reserved: Dinode, root: Dinode, lost: Dinode, times: Bytes): Block
    requires Storable(reserved) && Storable(root) && Storable(lost) && |times| == 12
  {
    PutDinode(PutDinode(PutDinode(b, 0, reserved, times), 1, root, times), 2, lost, times)
  }

  lemma FirstStored(d: Disk, n: nat, lost: int, root: int, times: Bytes)
    requires n >= LOSTFOUNDINO && |times| == 12 && 0 < lost < 0x8000_0000 && 0 < root < 0x8000_0000 && 2 < |d|
    requires Stored(d, ByNumber(AllFree(n)))
    ensures Storable(ReservedInode()) && Storable(OneBlockFile(3, DIRBLKSIZ, root))
    ensures Storable(OneBlockFile(2, 2 * DIRBLKSIZ, lost))
    ensures Stored(d[2 := FirstInodes(d[2], ReservedInode(), OneBlockFile(3, DIRBLKSIZ, root),
      OneBlockFile(2, 2 * DIRBLKSIZ, lost), times)], ByNumber(FirstFiles(n, lost, root)))
  {
    hide Stored, PutDinode;
    var m0, v1, v2, v3 := ByNumber(AllFree(n)), ReservedInode(), OneBlockFile(3, DIRBLKSIZ, root),
      OneBlockFile(2, 2 * DIRBLKSIZ, lost);
    StoredOne(d, m0, RESERVEDINO, v1, times);
    var d1, m1 := d[2 := PutDinode(d[2], 0, v1, times)], m0[RESERVEDINO := v1];
    StoredOne(d1, m1, ROOTINO, v2, times);
    var d2, m2 := d1[2 := PutDinode(d1[2], 1, v2, times)], m1[ROOTINO := v2];
    StoredOne(d2, m2, LOSTFOUNDINO, v3, times);
    assert d2[2 := PutDinode(d2[2], 2, v3, times)] == d[2 := FirstInodes(d[2], v1, v2, v3, times)];
    assert m2[LOSTFOUNDINO := v3] == ByNumber(FirstFiles(n, lost, root));
  }

  lemma AllZeroStored(d: Disk, isize: int)
    requires 2 <= isize <= |d| && forall b :: 2 <= b < isize ==> At(d, b) == ZeroBlock()
    ensures Stored(d, ByNumber(AllFree(InodeCount(isize))))
  {
    hide DinodeAt, ZeroBlock;
    forall ino: nat | 1 <= ino <= InodeCount(isize)
      ensures Itod(ino) < |d| && DinodeAt(d[Itod(ino)], Itoo(ino)) == FreeInode()
    {
      InodePlace(isize, ino);
      ZeroInode(Itoo(ino));
      assert At(d, Itod(ino)) == ZeroBlock();
    }
  }

  lemma StoredSame(d: Disk, d': Disk, files: seq<Dinode>, isize: int)
    requires 2 <= isize <= |d| == |d'| && |files| == InodeCount(isize) && Stored(d, ByNumber(files))
    requires forall b :: 2 <= b < isize ==> At(d', b) == At(d, b)
    ensures Stored(d', ByNumber(files))
  {
    hide DinodeAt, Itod, Itoo;
    forall ino: nat | 1 <= ino <= InodeCount(isize)
      ensures 2 <= Itod(ino) < isize && d'[Itod(ino)] == d[Itod(ino)]
    {
      InodePlace(isize, ino);
      assert At(d', Itod(ino)) == At(d, Itod(ino));
    }
  }

  /** With three blocks in the data area there are two on the free list, and with two exactly when the last one is. */
  lemma TwoBlocks(avail: seq<int>, isize: int, fsize: int, last: bool)
    requires Once(multiset(avail)) && isize + 2 <= fsize
    requires forall b :: isize <= b < fsize - 1 ==> b in avail
    requires forall b :: b in avail ==> isize <= b < fsize
    requires last <==> fsize - 1 in avail
    ensures |avail| >= 1 && (|avail| >= 2 <==> last || isize + 2 < fsize)
  {
    assert isize in avail;
    if |avail| >= 2 {
      var x := avail[0];
      assert avail == [avail[0]] + [avail[1]] + avail[2..];
      assert multiset(avail)[x] == 1 + multiset([avail[1]])[x] + multiset(avail[2..])[x];
      assert multiset([avail[1]])[x] == 0;
      assert avail[1] != x && x in avail && avail[1] in avail;
      assert isize + 2 == fsize ==> x == fsize - 1 || avail[1] == fsize - 1;
    } else {
      assert avail == [avail[0]];
      assert isize + 2 < fsize ==> isize + 1 in avail;
    }
  }

  /** A directory that everybody may use, in one block. */
  predicate OpenDirectory(v: Dinode, nlink: nat, size: nat, b: int) {
    && v.mode / 0x1000 == 4 && v.mode % 0x1000 == 0x1ff && v.nlink == nlink && v.size == size && v.uid == v.gid == 0
    && v.addr == [b, 0, 0, 0, 0, 0, 0]
  }

  predicate TwoDirectories(files: seq<Dinode>, lost: int, root: int)
    requires |files| >= 3
  {
    && OpenDirectory(files[1], 3, 512, root) && OpenDirectory(files[2], 2, 1024, lost)
    && forall i :: 3 <= i < |files| ==> files[i].mode == 0
  }

  lemma FirstFilesAre(n: nat, lost: int, root: int)
    requires n >= LOSTFOUNDINO
    ensures TwoDirectories(FirstFiles(n, lost, root), lost, root)
  {
    assert OneBlock(root) == [root, 0, 0, 0, 0, 0, 0] && OneBlock(lost) == [lost, 0, 0, 0, 0, 0, 0];
  }

  /** What is on a new volume: the free inodes, two directories and the reserved inode, with the bytes of the
      directories, and every block of the data area but for the last in a directory or on the free list. */
  ghost predicate Formatted(d: Disk, avail: seq<int>, isize: int, lost: int, root: int) {
    && Mountable(d, avail) && SuperAt(d[SUPERB]).isize == isize && InodeCount(isize) >= LOSTFOUNDINO
    && DiskFiles(d) == FirstFiles(InodeCount(isize), lost, root)
    && TwoDirectories(DiskFiles(d), lost, root)
    && BytesOf(d, DiskFiles(d)[ROOTINO - 1]) == RootBytes()
    && BytesOf(d, DiskFiles(d)[LOSTFOUNDINO - 1]) == LostFoundBytes()
    && (forall b :: isize <= b < |d| - 1 ==> b in Census(d, DiskFiles(d), avail))
  }

  lemma Reserve(d: Disk, files: seq<Dinode>, avail: seq<int>, lo: int, hi: int)
    requires FilesOk(d, files, avail, lo, hi) && files != [] && files[0] == FreeInode()
    ensures FilesOk(d, files[0 := ReservedInode()], avail, lo, hi)
    ensures Census(d, files[0 := ReservedInode()], avail) == Census(d, files, avail)
  {
    hide FilesOk, Claims, Census, CleanTail;
    EmptyFile(d, NoBlocks());
    LocalNot(d, NoBlocks(), avail);
    FileChanged(d, files, avail, lo, hi, 0, d, ReservedInode(), avail);
  }

  lemma FilesConsistent(d: Disk, files: seq<Dinode>, avail: seq<int>, isize: int, fsize: int)
    requires 2 <= isize <= fsize == |d| && |files| == InodeCount(isize) && Stored(d, ByNumber(files))
    requires FilesOk(d, files, avail, isize, fsize)
    ensures Consistent(d, [], ByNumber(files), avail, isize, fsize)
    ensures Currents([], ByNumber(files), InodeCount(isize)) == files
  {
    hide FilesOk, Stored;
    assert Currents([], ByNumber(files), InodeCount(isize)) == files;
  }

  lemma Ready(d: Disk, files: seq<Dinode>, avail: seq<int>, isize: int, fsize: int)
    requires |files| == InodeCount(isize) && Consistent(d, [], ByNumber(files), avail, isize, fsize)
    requires Saved(d, avail, isize, fsize) && fsize < 0x8000_0000
    ensures Mountable(d, avail) && SuperAt(d[SUPERB]).isize == isize && DiskFiles(d) == files
  {
    hide FilesOk, Stored, SuperAt, FreeList;
    ConsistentSaved(d, [], ByNumber(files), avail, isize, fsize);
  }

  /** bsd211fs_mkfs, for the sizes that it allows: fails exactly when the data area has two blocks and the last one
      is not placed on the free list. `image` is what the disk held before, and `super` has the fields of the
      superblock that are not modelled. */
  method Format(fssize: nat, itable: nat, n: nat, m: nat, image: Disk, super: Block,
      times: Bytes) returns (fs: FileSystem, ok: bool, lost: int, root: int)
    requires 6 <= fssize < 0x8000_0000 && 1 <= itable <= MAX_ITABLE && itable + 4 <= fssize && 1 <= n <= MAX_FN
    requires |image| == fssize && |times| == 12
    ensures fresh(fs) && (ok <==> itable + 4 < fssize || (fssize - 1) % n != 0)
    ensures ok ==> Formatted(fs.disk, fs.avail, itable + 2, lost, root)
  {
    hide FilesOk, FreeList, Saved, At, Claims, Census, BytesOf, ZeroBlock, InOrder, Stored, Formatted, AllFree,
      Permutation, Interleaved, InodeCount, OneBlockFile;
    fs := new FileSystem(itable + 2, fssize, image);
    ClearInodes(fs);
    ghost var order := InitFreeList(fs, n, m);
    ghost var count := InodeCount(fs.isize);
    AllZeroStored(fs.disk, fs.isize);
    NothingInUse(fs.disk, count, fs.Table(), fs.avail, fs.isize, fssize);
    LastBlockLost(fs.isize, fssize, n, fs.avail);
    fs.ListOnce();
    fs.ListInside();
    TwoBlocks(fs.avail, fs.isize, fssize, (fssize - 1) % n != 0);
    forall b | fs.isize <= b < fssize - 1
      ensures b in Census(fs.disk, AllFree(count), fs.avail)
    {
      InCensus(fs.disk, AllFree(count), fs.avail, b);
    }
    ok, lost, root := FirstDirs(fs, super, times);
  }

  ghost predicate Cleared(d: Disk, n: int) {
    forall b :: 2 <= b < n ==> At(d, b) == ZeroBlock()
  }

  lemma NothingCleared(d: Disk)
    ensures Cleared(d, 2)
  {
  }

  lemma OneMoreCleared(d: Disk, d': Disk, n: nat)
    requires 2 <= n < |d| && Cleared(d, n) && d' == d[n := ZeroBlock()]
    ensures Cleared(d', n + 1)
  {
    hide ZeroBlock;
    forall b | 2 <= b < n + 1
      ensures At(d', b) == ZeroBlock()
    {
      assert b < n ==> At(d, b) == ZeroBlock();
    }
  }

  /** The inode table is cleared. */
  method ClearInodes(fs: FileSystem)
    requires fs.Sound() && fs.avail == []
    modifies fs
    ensures fs.Sound() && fs.avail == [] && fs.error == old(fs.error)
    ensures Cleared(fs.disk, fs.isize)
  {
    hide FreeList, Saved, ZeroBlock, Cleared;
    NothingCleared(fs.disk);
    var b := 2;
    while b < fs.isize
      invariant 2 <= b <= fs.isize && fs.Sound() && fs.avail == [] && fs.error == old(fs.error)
      invariant Cleared(fs.disk, b)
    {
      ghost var d := fs.disk;
      fs.PutInodeBlock(b, ZeroBlock());
      OneMoreCleared(d, fs.disk, b);
      b := b + 1;
    }
  }

  /** bsd211fs_initrootdir, and the sync after it. */
  method FirstDirs(fs: FileSystem, super: Block, times: Bytes) returns (ok: bool, lost: int, root: int)
    requires fs.Sound() && fs.isize > 2 && fs.avail != [] && |times| == 12
    requires Stored(fs.disk, ByNumber(AllFree(InodeCount(fs.isize))))
    requires FilesOk(fs.disk, AllFree(InodeCount(fs.isize)), fs.avail, fs.isize, fs.fsize)
    requires forall b :: fs.isize <= b < fs.fsize - 1 ==>
      b in Census(fs.disk, AllFree(InodeCount(fs.isize)), fs.avail)
    modifies fs
    ensures ok <==> |old(fs.avail)| >= 2
    ensures ok ==> Formatted(fs.disk, fs.avail, fs.isize, lost, root)
  {
    hide FilesOk, FreeList, Saved, At, Claims, Census, BytesOf, ZeroBlock, InOrder, Stored, Formatted, OneBlockFile;
    ghost var d0, files := fs.disk, AllFree(InodeCount(fs.isize));
    lost := FirstBlock(fs, LostFoundBytes(), 2, 2 * DIRBLKSIZ, files, LOSTFOUNDINO - 1);
    HasOne(2, 2 * DIRBLKSIZ, lost);
    files := files[LOSTFOUNDINO - 1 := OneBlockFile(2, 2 * DIRBLKSIZ, lost)];
    ghost var d1 := fs.disk;
    root := FirstBlock(fs, RootBlock(), 3, DIRBLKSIZ, files, ROOTINO - 1);
    if root == NONE {
      return false, lost, root;
    }
    assert BytesOf(fs.disk, files[LOSTFOUNDINO - 1]) == BytesOf(d1, files[LOSTFOUNDINO - 1]);
    files := files[ROOTINO - 1 := OneBlockFile(3, DIRBLKSIZ, root)];
    StoredSame(d0, fs.disk, AllFree(InodeCount(fs.isize)), fs.isize);
    assert LostFoundBytes()[..2 * DIRBLKSIZ] == LostFoundBytes();
    WriteInodes(fs, lost, root, times, super, files);
    ok := true;
  }

  lemma HasOne(nlink: nat, size: nat, b: int)
    ensures |OneBlockFile(nlink, size, b).addr| == NADDR
  {
  }

  lemma InCensus(d: Disk, files: seq<Dinode>, avail: seq<int>, b: int)
    requires b in avail
    ensures b in Census(d, files, avail)
  {
    hide AllClaims;
  }

  /** The end of mkfs: the inodes, and ufs_sync with nothing left to write but the superblock. */
  method WriteInodes(fs: FileSystem, lost: int, root: int, times: Bytes, super: Block, ghost files: seq<Dinode>)
    requires fs.Sound() && fs.isize > 2 && fs.InData(lost) && fs.InData(root) && |times| == 12
    requires files == AllFree(InodeCount(fs.isize))[LOSTFOUNDINO - 1 := OneBlockFile(2, 2 * DIRBLKSIZ, lost)]
      [ROOTINO - 1 := OneBlockFile(3, DIRBLKSIZ, root)]
    requires Stored(fs.disk, ByNumber(AllFree(InodeCount(fs.isize))))
    requires FilesOk(fs.disk, files, fs.avail, fs.isize, fs.fsize)
    requires BytesOf(fs.disk, OneBlockFile(3, DIRBLKSIZ, root)) == RootBytes()
    requires BytesOf(fs.disk, OneBlockFile(2, 2 * DIRBLKSIZ, lost)) == LostFoundBytes()
    requires forall b :: fs.isize <= b < fs.fsize - 1 ==> b in Census(fs.disk, files, fs.avail)
    modifies fs
    ensures Formatted(fs.disk, fs.avail, fs.isize, lost, root)
  {
    hide FilesOk, FreeList, Saved, Claims, Census, BytesOf, InOrder, PutDinode, Stored, SuperAt, PutSuper, Mountable,
      Consistent, AllFree, TwoDirectories;
    ghost var count, all := InodeCount(fs.isize), files[RESERVEDINO - 1 := ReservedInode()];
    Reserve(fs.disk, files, fs.avail, fs.isize, fs.fsize);
    FirstStored(fs.disk, count, lost, root, times);
    assert all == FirstFiles(count, lost, root);
    FirstFilesAre(count, lost, root);
    ghost var d0 := fs.disk;
    var v := FirstInodes(fs.disk[2], ReservedInode(), OneBlockFile(3, DIRBLKSIZ, root),
      OneBlockFile(2, 2 * DIRBLKSIZ, lost), times);
    AtWrite(fs.disk, 2, v);
    FilesFrame(fs.disk, fs.disk[2 := v], all, fs.avail, fs.isize, fs.fsize);
    fs.PutInodeBlock(2, v);
    FilesConsistent(fs.disk, all, fs.avail, fs.isize, fs.fsize);
    ghost var d1 := fs.disk;
    fs.SaveSuper(super);
    ConsistentSuper(d1, fs.disk[SUPERB], [], ByNumber(all), fs.avail, fs.isize, fs.fsize);
    Ready(fs.disk, all, fs.avail, fs.isize, fs.fsize);
  }
}
