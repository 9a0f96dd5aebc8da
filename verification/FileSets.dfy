/** All files of a volume, as their inodes and the disk have them: what it takes for an image to be mounted, and what
    the operations of a mounted volume keep. */
module FileSets {
  import opened DiskFormat
  import opened Tally
  import opened BlockTree
  import opened InodeMap
  import opened FreeChain
  import opened Superblock
  import opened Growth
  import opened Shrink
  import opened FileTrim
  import opened FileContents
  import opened Store
  import opened DirEntries
  import opened InodeTables
  import opened InodeBlocks

  const IFCHR := 2             // types of inodes, i_mode / 010000
  const IFBLK := 6

  /** Whether the addresses of an inode are those of blocks: it is neither free nor a device, whose number is in place
      of an address. */
  predicate HasBlocks(f: Dinode) {
    f.mode != 0 && f.mode / 0x1000 != IFCHR && f.mode / 0x1000 != IFBLK
  }

  function BlocksOf(f: Dinode): seq<int> {
    if HasBlocks(f) then f.addr else NoBlocks()
  }

  function AddrsOf(files: seq<Dinode>): (a: seq<seq<int>>)
    ensures |a| == |files| && forall i :: 0 <= i < |a| ==> a[i] == BlocksOf(files[i])
  {
    seq(|files|, i requires 0 <= i < |files| => BlocksOf(files[i]))
  }

  /** A file's size can be mapped, nothing lies behind its end, and an empty file has no first block: irele relies on
      it, which clears the number of a device in the upper half of the first address. */
  ghost predicate InOrder(d: Disk, f: Dinode) {
    && |f.addr| == NADDR && f.size <= MAX_BYTES && CleanTail(d, BlocksOf(f), f.size)
    && (f.size == 0 ==> BlocksOf(f)[0] == 0) && (!HasBlocks(f) ==> f.size == 0)
  }

  /** Every block of the free list and of any file. */
  ghost function Census(d: Disk, files: seq<Dinode>, avail: seq<int>): multiset<int> {
    AllClaims(d, AddrsOf(files)) + multiset(avail)
  }

  /** Every file is in order, and no block is in two places. */
  ghost predicate FilesOk(d: Disk, files: seq<Dinode>, avail: seq<int>, lo: int, hi: int) {
    && (forall i :: 0 <= i < |files| ==> InOrder(d, files[i]))
    && Separate(AllClaims(d, AddrsOf(files)), avail)
    && Inside(AllClaims(d, AddrsOf(files)), avail, lo, hi)
  }

  function BytesOf(d: Disk, f: Dinode): seq<Byte> {
    FileOf(d, BlocksOf(f), f.size)
  }

  lemma FilesAt(d: Disk, files: seq<Dinode>, avail: seq<int>, lo: int, hi: int, i: nat)
    requires FilesOk(d, files, avail, lo, hi) && i < |files|
    ensures InOrder(d, files[i])
    ensures Separate(Claims(d, BlocksOf(files[i]), 0), avail)
    ensures Inside(Claims(d, BlocksOf(files[i]), 0), avail, lo, hi)
  {
    hide Claims, AllClaims, Separate, Inside, InOrder;
    FileInAll(d, AddrsOf(files), avail, i, lo, hi);
  }

  /** Writing outside the data area. */
  lemma FilesFrame(d: Disk, d': Disk, files: seq<Dinode>, avail: seq<int>, lo: int, hi: int)
    requires FilesOk(d, files, avail, lo, hi) && forall b :: lo <= b < hi ==> At(d', b) == At(d, b)
    ensures FilesOk(d', files, avail, lo, hi) && Census(d', files, avail) == Census(d, files, avail)
    ensures forall i :: 0 <= i < |files| ==> BytesOf(d', files[i]) == BytesOf(d, files[i])
  {
    hide Claims, FileClaims, Sum, Separate, Inside, ByteAt, At, Contents, InOrder;
    var addrs := AddrsOf(files);
    forall i | 0 <= i < |files|
      ensures FileClaims(d', addrs)[i] == FileClaims(d, addrs)[i]
      ensures InOrder(d', files[i]) && BytesOf(d', files[i]) == BytesOf(d, files[i])
    {
      FilesAt(d, files, avail, lo, hi, i);
      FileFrame(d, d', files[i], avail, lo, hi);
      FileClaimsAt(d, addrs, i);
      FileClaimsAt(d', addrs, i);
    }
    assert FileClaims(d', addrs) == FileClaims(d, addrs);
  }

  lemma FileFrame(d: Disk, d': Disk, f: Dinode, avail: seq<int>, lo: int, hi: int)
    requires InOrder(d, f) && Inside(Claims(d, BlocksOf(f), 0), avail, lo, hi)
    requires forall b :: lo <= b < hi ==> At(d', b) == At(d, b)
    ensures Claims(d', BlocksOf(f), 0) == Claims(d, BlocksOf(f), 0)
    ensures InOrder(d', f) && BytesOf(d', f) == BytesOf(d, f)
  {
    hide Claims, ByteAt, At, Contents;
    InnerClaims(d, BlocksOf(f));
    ClaimsFrame(d, d', BlocksOf(f), 0);
    forall i: nat
      ensures ByteAt(d', BlocksOf(f), i) == ByteAt(d, BlocksOf(f), i)
    {
      SameByte(d, d', BlocksOf(f), i);
    }
    ContentsSame(d, BlocksOf(f), d', BlocksOf(f), f.size);
  }

  /** A local change of one file. */
  lemma FileChanged(d0: Disk, files: seq<Dinode>, avail0: seq<int>, lo: int, hi: int, i: nat, d: Disk, f: Dinode,
      avail: seq<int>)
    requires FilesOk(d0, files, avail0, lo, hi) && i < |files|
    requires Local(d0, BlocksOf(files[i]), avail0, d, BlocksOf(f), avail) && InOrder(d, f)
    ensures FilesOk(d, files[i := f], avail, lo, hi) && Census(d, files[i := f], avail) == Census(d0, files, avail0)
    ensures forall j :: 0 <= j < |files| && j != i ==> BytesOf(d, files[j]) == BytesOf(d0, files[j])
  {
    hide Claims, ByteAt, AllClaims, FileClaims, Separate, Inside, Contents, Local;
    var addrs := AddrsOf(files);
    assert AddrsOf(files[i := f]) == addrs[i := BlocksOf(f)];
    CensusKept(d0, addrs, avail0, i, d, BlocksOf(f), avail);
    SameUnion(AllClaims(d0, addrs), avail0, AllClaims(d, addrs[i := BlocksOf(f)]), avail, lo, hi);
    forall j | 0 <= j < |files| && j != i
      ensures InOrder(d, files[j]) && BytesOf(d, files[j]) == BytesOf(d0, files[j])
    {
      OtherFile(d0, addrs, avail0, i, d, BlocksOf(f), avail, j);
      ContentsSame(d0, addrs[j], d, addrs[j], files[j].size);
    }
  }

  /** An inode is freed: the blocks that it still had belong to nothing any more. */
  lemma FileFreed(d: Disk, files: seq<Dinode>, avail: seq<int>, lo: int, hi: int, i: nat, f: Dinode)
    requires FilesOk(d, files, avail, lo, hi) && i < |files|
    requires !HasBlocks(f) && |f.addr| == NADDR && f.size == 0
    ensures FilesOk(d, files[i := f], avail, lo, hi)
    ensures Census(d, files[i := f], avail) + Claims(d, BlocksOf(files[i]), 0) == Census(d, files, avail)
  {
    hide Claims, FileClaims, Sum, Separate, Inside, CleanTail;
    var addrs := AddrsOf(files);
    var ms, m := FileClaims(d, addrs), FileClaims(d, AddrsOf(files[i := f]));
    EmptyFile(d, NoBlocks());
    forall j | 0 <= j < |files|
      ensures m[j] == ms[i := multiset{}][j]
    {
      FileClaimsAt(d, addrs, j);
      FileClaimsAt(d, AddrsOf(files[i := f]), j);
    }
    assert m == ms[i := multiset{}];
    FileClaimsAt(d, addrs, i);
    SumReplace(ms, i, multiset{});
    FewerClaims(Sum(ms), Sum(m), ms[i], avail, lo, hi);
  }

  lemma FewerClaims(c: multiset<int>, c': multiset<int>, m: multiset<int>, avail: seq<int>, lo: int, hi: int)
    requires Separate(c, avail) && Inside(c, avail, lo, hi) && c' + m == c + multiset{}
    ensures Separate(c', avail) && Inside(c', avail, lo, hi)
    ensures c' + multiset(avail) + m == c + multiset(avail)
  {
    forall b
      ensures c'[b] + m[b] == c[b] && (c' + multiset(avail))[b] <= 1
    {
      assert (c' + m)[b] == (c + multiset{})[b];
      assert (c + multiset(avail))[b] <= 1;
    }
  }

  // The inodes, by number.

  /** The inodes of a volume are numbered from 1 to n. */
  ghost predicate Numbered(dinode: Blocks, n: nat) {
    forall ino :: ino in dinode <==> 1 <= ino <= n
  }

  function InodeCount(isize: int): nat {
    if isize < 2 then 0 else (isize - 2) * INOPB
  }

  lemma InodePlace(isize: int, ino: nat)
    requires 1 <= ino <= InodeCount(isize)
    ensures 2 <= Itod(ino) < isize
  {
  }

  /** All inodes as their users see them. */
  ghost function Currents(t: seq<Incore>, dinode: Blocks, n: nat): (files: seq<Dinode>)
    requires Numbered(dinode, n)
    ensures |files| == n && forall i :: 0 <= i < n ==> files[i] == Current(t, dinode, i + 1)
  {
    seq(n, i requires 0 <= i < n => Current(t, dinode, i + 1))
  }

  /** All inodes as the disk has them. */
  function DiskFiles(d: Disk): (files: seq<Dinode>)
    requires SUPERB < |d| && SuperAt(d[SUPERB]).isize <= |d|
    ensures |files| == InodeCount(SuperAt(d[SUPERB]).isize)
  {
    var isize := SuperAt(d[SUPERB]).isize;
    seq(InodeCount(isize), i requires 0 <= i < InodeCount(isize) =>
      InodePlace(isize, i + 1); DinodeAt(d[Itod(i + 1)], Itoo(i + 1)))
  }

  /** The same, by number. */
  function DiskInodes(d: Disk): (dinode: Blocks)
    requires SUPERB < |d| && SuperAt(d[SUPERB]).isize <= |d|
    ensures Numbered(dinode, InodeCount(SuperAt(d[SUPERB]).isize))
    ensures forall ino :: ino in dinode ==> dinode[ino] == DinodeAt(d[Itod(ino)], Itoo(ino)) == DiskFiles(d)[ino - 1]
  {
    var isize := SuperAt(d[SUPERB]).isize;
    map ino: nat | 1 <= ino <= InodeCount(isize) ::
      InodePlace(isize, ino); DinodeAt(d[Itod(ino)], Itoo(ino))
  }

  /** The image can be mounted: the superblock has the free list, the inodes are in order, and no block is in two
      places. */
  ghost predicate Mountable(d: Disk, list: seq<int>) {
    && SUPERB < |d| < 0x8000_0000
    && var s := SuperAt(d[SUPERB]);
    && 2 <= s.isize <= s.fsize == |d|
    && Saved(d, list, s.isize, s.fsize)
    && FilesOk(d, DiskFiles(d), list, s.isize, s.fsize)
  }

  /** The inodes are in their blocks. */
  ghost predicate Stored(store: Disk, dinode: Blocks) {
    forall ino :: ino in dinode ==>
      0 < ino && Itod(ino) < |store| && DinodeAt(store[Itod(ino)], Itoo(ino)) == dinode[ino]
  }

  /** One inode changes in its block: all other inodes stay. */
  lemma StoredOne(store: Disk, dinode: Blocks, ino: nat, d: Dinode, times: Bytes)
    requires Stored(store, dinode) && ino in dinode && Storable(d) && |times| == 12
    ensures var b := Itod(ino);
            b < |store| && Stored(store[b := PutDinode(store[b], Itoo(ino), d, times)], dinode[ino := d])
  {
    hide DinodeAt, PutDinode, Itod, Itoo;
    var b := Itod(ino);
    DinodeRoundTrip(store[b], Itoo(ino), d, times);
    var store' := store[b := PutDinode(store[b], Itoo(ino), d, times)];
    forall i | i in dinode && i != ino
      ensures Itod(i) < |store'| && DinodeAt(store'[Itod(i)], Itoo(i)) == dinode[i]
    {
      PlaceUnique(i, ino);
      if Itod(i) == b {
        OtherDinode(store[b], Itoo(ino), d, times, Itoo(i));
      }
    }
  }

  /** A volume in use: the inode blocks hold the inodes that the table takes to be on the disk, and the files, as
      their users see them, are in order. */
  ghost predicate Consistent(d: Disk, t: seq<Incore>, dinode: Blocks, avail: seq<int>, isize: int, fsize: int) {
    && 2 <= isize <= fsize == |d|
    && Numbered(dinode, InodeCount(isize)) && Stored(d, dinode)
    && (forall i :: 0 <= i < |t| && t[i].hashed ==> Storable(t[i].d))
    && FilesOk(d, Currents(t, dinode, InodeCount(isize)), avail, isize, fsize)
  }

  lemma ConsistentSame(d: Disk, t: seq<Incore>, dinode: Blocks, t': seq<Incore>, avail: seq<int>, isize: int,
      fsize: int)
    requires Consistent(d, t, dinode, avail, isize, fsize) && Same(t, dinode, t', dinode)
    requires forall i :: 0 <= i < |t'| && t'[i].hashed ==> Storable(t'[i].d)
    ensures Consistent(d, t', dinode, avail, isize, fsize)
    ensures Numbered(dinode, InodeCount(isize))
    ensures Currents(t', dinode, InodeCount(isize)) == Currents(t, dinode, InodeCount(isize))
  {
    hide Current, FilesOk, Stored, Storable;
    assert Currents(t', dinode, InodeCount(isize)) == Currents(t, dinode, InodeCount(isize));
  }

  /** One inode is written into its block. */
  lemma ConsistentPut(d: Disk, t: seq<Incore>, dinode: Blocks, t': seq<Incore>, ino: nat, v: Dinode, times: Bytes,
      avail: seq<int>, isize: int, fsize: int)
    requires Consistent(d, t, dinode, avail, isize, fsize) && ino in dinode && Storable(v) && |times| == 12
    requires Same(t, dinode, t', dinode[ino := v])
    requires forall i :: 0 <= i < |t'| && t'[i].hashed ==> Storable(t'[i].d)
    ensures 2 <= Itod(ino) < isize && Numbered(dinode, InodeCount(isize))
    ensures Numbered(dinode[ino := v], InodeCount(isize))
    ensures var d', files :=
      d[Itod(ino) := PutDinode(d[Itod(ino)], Itoo(ino), v, times)], Currents(t, dinode, InodeCount(isize));
      && Consistent(d', t', dinode[ino := v], avail, isize, fsize)
      && Currents(t', dinode[ino := v], InodeCount(isize)) == files
      && SameFiles(d, files, avail, d', files, avail)
  {
    hide Current, FilesOk, Storable, PutDinode, DinodeAt, Itod, Itoo, Census, BytesOf, At;
    InodePlace(isize, ino);
    StoredOne(d, dinode, ino, v, times);
    var b := Itod(ino);
    var d' := d[b := PutDinode(d[b], Itoo(ino), v, times)];
    AtWrite(d, b, d'[b]);
    FilesFrame(d, d', Currents(t, dinode, InodeCount(isize)), avail, isize, fsize);
    assert Currents(t', dinode[ino := v], InodeCount(isize)) == Currents(t, dinode, InodeCount(isize));
  }

  /** The same files with the same bytes, on the same blocks altogether. */
  ghost predicate SameFiles(d: Disk, files: seq<Dinode>, avail: seq<int>, d': Disk, files': seq<Dinode>,
      avail': seq<int>) {
    && files' == files && Census(d', files', avail') == Census(d, files, avail)
    && forall i :: 0 <= i < |files| ==> BytesOf(d', files[i]) == BytesOf(d, files[i])
  }

  lemma SameFilesTwice(d: Disk, files: seq<Dinode>, avail: seq<int>, d': Disk, files': seq<Dinode>, avail': seq<int>,
      d'': Disk, files'': seq<Dinode>, avail'': seq<int>)
    requires SameFiles(d, files, avail, d', files', avail') && SameFiles(d', files', avail', d'', files'', avail'')
    ensures SameFiles(d, files, avail, d'', files'', avail'')
  {
    hide Census, BytesOf;
  }

  /** Only file n differs, on the same blocks altogether but for those that are lost. */
  ghost predicate OneFile(d: Disk, files: seq<Dinode>, avail: seq<int>, d': Disk, files': seq<Dinode>, avail': seq<int>,
      n: int, lost: multiset<int>) {
    && |files'| == |files| && Census(d', files', avail') + lost == Census(d, files, avail)
    && forall j :: 0 <= j < |files| && j != n ==> files'[j] == files[j] && BytesOf(d', files[j]) == BytesOf(d, files[j])
  }

  lemma OneFileSame(d: Disk, files: seq<Dinode>, avail: seq<int>, d': Disk, files': seq<Dinode>, avail': seq<int>,
      d'': Disk, files'': seq<Dinode>, avail'': seq<int>, n: int, lost: multiset<int>)
    requires OneFile(d, files, avail, d', files', avail', n, lost)
    requires SameFiles(d', files', avail', d'', files'', avail'')
    ensures OneFile(d, files, avail, d'', files'', avail'', n, lost)
  {
    hide Census, BytesOf;
  }

  /** The superblock is written. */
  lemma ConsistentSuper(d: Disk, b: Block, t: seq<Incore>, dinode: Blocks, avail: seq<int>, isize: int, fsize: int)
    requires Consistent(d, t, dinode, avail, isize, fsize)
    ensures Consistent(d[SUPERB := b], t, dinode, avail, isize, fsize)
    ensures Numbered(dinode, InodeCount(isize))
    ensures var files := Currents(t, dinode, InodeCount(isize));
      SameFiles(d, files, avail, d[SUPERB := b], files, avail)
  {
    hide Current, FilesOk, Storable, DinodeAt, Itod, Itoo, Census, BytesOf, At;
    AtWrite(d, SUPERB, b);
    FilesFrame(d, d[SUPERB := b], Currents(t, dinode, InodeCount(isize)), avail, isize, fsize);
    forall ino | ino in dinode
      ensures 2 <= Itod(ino) < isize
    {
      InodePlace(isize, ino);
    }
  }

  /** One file changes, with its in-core inode. */
  lemma ConsistentFile(d0: Disk, t: seq<Incore>, dinode: Blocks, avail0: seq<int>, i: nat, d: Disk, v: Dinode,
      avail: seq<int>, isize: int, fsize: int)
    requires Consistent(d0, t, dinode, avail0, isize, fsize) && OneEach(t)
    requires i < |t| && t[i].hashed && t[i].number in dinode && Storable(v)
    requires Local(d0, BlocksOf(t[i].d), avail0, d, BlocksOf(v), avail) && InOrder(d, v)
    ensures 1 <= t[i].number <= InodeCount(isize) && Numbered(dinode, InodeCount(isize))
    ensures var t', files := t[i := t[i].(d := v, dirty := true)], Currents(t, dinode, InodeCount(isize));
      && Consistent(d, t', dinode, avail, isize, fsize)
      && Currents(t', dinode, InodeCount(isize)) == files[t[i].number - 1 := v]
      && OneFile(d0, files, avail0, d, files[t[i].number - 1 := v], avail, t[i].number - 1, multiset{})
  {
    hide Current, FilesOk, Storable, DinodeAt, Itod, Itoo, Census, BytesOf, InOrder, Local;
    var t', files, n := t[i := t[i].(d := v, dirty := true)], Currents(t, dinode, InodeCount(isize)), t[i].number;
    CurrentIn(t, dinode, i);
    FileChanged(d0, files, avail0, isize, fsize, n - 1, d, v, avail);
    CurrentsChanged(t, dinode, InodeCount(isize), i, v);
    StoredLocal(d0, dinode, BlocksOf(files[n - 1]), avail0, d, BlocksOf(v), avail, files, isize, fsize, n - 1);
  }

  /** An in-core inode is freed. */
  lemma ConsistentFreed(d: Disk, t: seq<Incore>, dinode: Blocks, i: nat, v: Dinode, avail: seq<int>, isize: int,
      fsize: int)
    requires Consistent(d, t, dinode, avail, isize, fsize) && OneEach(t)
    requires i < |t| && t[i].hashed && t[i].number in dinode && Storable(v) && !HasBlocks(v) && v.size == 0
    ensures 1 <= t[i].number <= InodeCount(isize) && Numbered(dinode, InodeCount(isize))
    ensures var t', files := t[i := t[i].(d := v, dirty := true)], Currents(t, dinode, InodeCount(isize));
      && Consistent(d, t', dinode, avail, isize, fsize)
      && Currents(t', dinode, InodeCount(isize)) == files[t[i].number - 1 := v]
      && OneFile(d, files, avail, d, files[t[i].number - 1 := v], avail, t[i].number - 1,
           Claims(d, BlocksOf(t[i].d), 0))
  {
    hide Current, FilesOk, DinodeAt, Itod, Itoo, Census, BytesOf, InOrder, Claims;
    var files, n := Currents(t, dinode, InodeCount(isize)), t[i].number;
    CurrentIn(t, dinode, i);
    FileFreed(d, files, avail, isize, fsize, n - 1, v);
    CurrentsChanged(t, dinode, InodeCount(isize), i, v);
  }

  lemma CurrentsChanged(t: seq<Incore>, dinode: Blocks, n: nat, i: nat, v: Dinode)
    requires Numbered(dinode, n) && OneEach(t) && i < |t| && t[i].hashed && t[i].number in dinode
    ensures var t' := t[i := t[i].(d := v, dirty := true)];
      Currents(t', dinode, n) == Currents(t, dinode, n)[t[i].number - 1 := v]
  {
    hide Current;
    var t', files := t[i := t[i].(d := v, dirty := true)], Currents(t, dinode, n);
    OneEachKept(t, i, t'[i]);
    forall ino | ino in dinode
      ensures Current(t', dinode, ino) == files[t[i].number - 1 := v][ino - 1]
    {
      if ino == t[i].number {
        CurrentIn(t', dinode, i);
      } else {
        OtherCurrent(t, dinode, i, t'[i], ino);
      }
    }
    assert Currents(t', dinode, n) == files[t[i].number - 1 := v];
  }

  lemma OtherCurrent(t: seq<Incore>, dinode: Blocks, i: nat, v: Incore, ino: nat)
    requires OneEach(t) && i < |t| && v.number == t[i].number && v.hashed == t[i].hashed
    requires ino in dinode && ino != t[i].number
    ensures Current(t[i := v], dinode, ino) == Current(t, dinode, ino)
  {
    var t' := t[i := v];
    OneEachKept(t, i, v);
    assert forall j :: 0 <= j < |t| ==> (t'[j].Is(ino) <==> t[j].Is(ino));
    if j :| 0 <= j < |t| && t[j].Is(ino) {
      CurrentIn(t, dinode, j);
      CurrentIn(t', dinode, j);
    }
  }

  lemma StoredLocal(d0: Disk, dinode: Blocks, addr0: seq<int>, avail0: seq<int>, d: Disk, addr: seq<int>,
      avail: seq<int>,
      files: seq<Dinode>, isize: int, fsize: int, k: nat)
    requires 2 <= isize <= fsize == |d0| && Numbered(dinode, InodeCount(isize)) && Stored(d0, dinode)
    requires FilesOk(d0, files, avail0, isize, fsize) && k < |files| && BlocksOf(files[k]) == addr0
    requires Local(d0, addr0, avail0, d, addr, avail)
    ensures |d| == fsize && Stored(d, dinode)
  {
    hide FilesOk, DinodeAt, Itod, Itoo, Claims;
    FilesAt(d0, files, avail0, isize, fsize, k);
    forall ino | ino in dinode
      ensures d[Itod(ino)] == d0[Itod(ino)] && 2 <= Itod(ino) < isize
    {
      InodePlace(isize, ino);
      assert At(d, Itod(ino)) == At(d0, Itod(ino));
    }
  }

  /** With everything written, the disk by itself can be mounted, with the files as they are. */
  lemma ConsistentSaved(d: Disk, t: seq<Incore>, dinode: Blocks, avail: seq<int>, isize: int, fsize: int)
    requires Consistent(d, t, dinode, avail, isize, fsize) && Saved(d, avail, isize, fsize) && fsize < 0x8000_0000
    requires forall ino :: ino in dinode ==> dinode[ino] == Current(t, dinode, ino)
    ensures Mountable(d, avail) && DiskFiles(d) == Currents(t, dinode, InodeCount(isize))
  {
    hide Current, FilesOk, Storable, DinodeAt, Itod, Itoo, FreeList, SuperAt;
    assert SuperAt(d[SUPERB]).isize == isize && SuperAt(d[SUPERB]).fsize == fsize;
    assert DiskFiles(d) == Currents(t, dinode, InodeCount(isize));
  }

  /** And conversely: nothing is in core yet. */
  lemma ConsistentStart(d: Disk, t: seq<Incore>, dinode: Blocks, avail: seq<int>)
    requires Mountable(d, avail) && forall i :: 0 <= i < |t| ==> !t[i].hashed
    requires dinode == DiskInodes(d)
    ensures var isize := SuperAt(d[SUPERB]).isize;
      Consistent(d, t, dinode, avail, isize, |d|) && Currents(t, dinode, InodeCount(isize)) == DiskFiles(d)
  {
    hide Current, FilesOk, Storable, DinodeAt, Itod, Itoo, FreeList, SuperAt, Saved;
    var n := InodeCount(SuperAt(d[SUPERB]).isize);
    forall ino | ino in dinode
      ensures Current(t, dinode, ino) == DiskFiles(d)[ino - 1] && 2 <= Itod(ino) < SuperAt(d[SUPERB]).isize
    {
      InodePlace(SuperAt(d[SUPERB]).isize, ino);
      NotIn(t, dinode, ino);
    }
    assert Currents(t, dinode, n) == DiskFiles(d);
  }

  /** What a storage operation leaves of an inode can be stored. */
  lemma StorableAfter(d: Disk, v: Dinode, addr: seq<int>, size: nat, avail: seq<int>, lo: int, hi: int)
    requires Storable(v) && |addr| == NADDR && Inside(Claims(d, addr, 0), avail, lo, hi)
    requires 0 <= lo <= hi < 0x8000_0000 && size < 0x8000_0000
    ensures Storable(v.(size := size, addr := addr))
  {
    hide Claims, Nodes;
    forall k | 0 <= k < NADDR
      ensures addr[k] == 0 || lo <= addr[k] < hi
    {
      if addr[k] != 0 {
        TreeInClaims(d, addr, 0, k);
        RootMember(d, LevelOf(k), addr[k]);
      }
    }
  }

  /** A file that needs no block has none. */
  lemma NothingKept(d: Disk, addr: seq<int>)
    requires |addr| == NADDR && forall s :: 0 <= s < NADDR ==> SlotTrees(d, addr, 0)[s] == SlotKept(d, addr, s, -1)
    ensures (forall s :: 0 <= s < NADDR ==> addr[s] == 0) && Claims(d, addr, 0) == multiset{}
  {
    hide Nodes, SlotTrees, Sum;
    forall s | 0 <= s < NADDR
      ensures addr[s] == 0 && SlotTrees(d, addr, 0)[s] == multiset{}
    {
      SlotTreesAt(d, addr, 0, s);
      if addr[s] != 0 {
        RootMember(d, LevelOf(s), addr[s]);
      }
    }
    SumEmpty(SlotTrees(d, addr, 0));
  }

  /** A file without addresses has no block, and conversely. */
  lemma NoAddresses(d: Disk, addr: seq<int>)
    requires |addr| == NADDR
    ensures (forall s :: 0 <= s < NADDR ==> addr[s] == 0) <==> Claims(d, addr, 0) == multiset{}
  {
    hide Nodes, SlotTrees, Sum;
    if forall s :: 0 <= s < NADDR ==> addr[s] == 0 {
      forall s | 0 <= s < NADDR
        ensures SlotTrees(d, addr, 0)[s] == multiset{}
      {
        SlotTreesAt(d, addr, 0, s);
        NodesStep(d, LevelOf(s), 0, 0);
      }
      SumEmpty(SlotTrees(d, addr, 0));
    } else {
      var s :| 0 <= s < NADDR && addr[s] != 0;
      RootMember(d, LevelOf(s), addr[s]);
      TreeInClaims(d, addr, 0, s);
    }
  }
}
