/** A volume with all its files: seen from outside, a sequence of byte sequences. */
module Store {
  import opened DiskFormat
  import opened Tally
  import opened BlockTree
  import opened InodeMap
  import opened Growth
  import opened FileContents
  import opened FileTrim
  import opened FreeChain
  import opened Superblock
  import opened Shortage
  import opened Volume

  // The census of all blocks.

  ghost function FileClaims(d: Disk, addrs: seq<seq<int>>): (ms: seq<multiset<int>>)
    ensures |ms| == |addrs|
  {
    seq(|addrs|, i requires 0 <= i < |addrs| => Claims(d, addrs[i], 0))
  }

  lemma FileClaimsAt(d: Disk, addrs: seq<seq<int>>, i: nat)
    requires i < |addrs|
    ensures FileClaims(d, addrs)[i] == Claims(d, addrs[i], 0)
  {
    hide Claims;
  }

  /** Every block that any file owns, as often as it is pointed to. */
  ghost function AllClaims(d: Disk, addrs: seq<seq<int>>): multiset<int> {
    Sum(FileClaims(d, addrs))
  }

  lemma FileInAll(d: Disk, addrs: seq<seq<int>>, avail: seq<int>, i: nat, lo: int, hi: int)
    requires i < |addrs| && Separate(AllClaims(d, addrs), avail) && Inside(AllClaims(d, addrs), avail, lo, hi)
    ensures Claims(d, addrs[i], 0) <= AllClaims(d, addrs)
    ensures Separate(Claims(d, addrs[i], 0), avail) && Inside(Claims(d, addrs[i], 0), avail, lo, hi)
  {
    hide Claims, FileClaims, Sum;
    FileClaimsAt(d, addrs, i);
    SumMember(FileClaims(d, addrs), i);
    var m, c := Claims(d, addrs[i], 0), AllClaims(d, addrs);
    forall b
      ensures (m + multiset(avail))[b] <= 1
    {
      assert (c + multiset(avail))[b] <= 1;
    }
  }

  /** A local change of file i does not touch file j. */
  lemma OtherFile(d0: Disk, addrs: seq<seq<int>>, avail0: seq<int>, i: nat, d: Disk, addr: seq<int>,
      avail: seq<int>, j: nat)
    requires i < |addrs| && j < |addrs| && j != i && |addrs[j]| == NADDR
    requires Separate(AllClaims(d0, addrs), avail0)
    requires Local(d0, addrs[i], avail0, d, addr, avail)
    ensures Claims(d, addrs[j], 0) == Claims(d0, addrs[j], 0)
    ensures SameBytes(d0, addrs[j], d, addrs[j])
  {
    hide Claims, FileClaims, Sum, ByteAt, At;
    var ms, mine, other := FileClaims(d0, addrs), Claims(d0, addrs[i], 0), Claims(d0, addrs[j], 0);
    FileClaimsAt(d0, addrs, i);
    FileClaimsAt(d0, addrs, j);
    SeparateOnce(AllClaims(d0, addrs), avail0);
    SumMember(ms, j);
    InnerClaims(d0, addrs[j]);
    forall x | x in other
      ensures At(d, x) == At(d0, x)
    {
      if x in mine {
        SumApart(ms, i, j, x);
      }
    }
    ClaimsFrame(d0, d, addrs[j], 0);
    forall b: nat
      ensures ByteAt(d, addrs[j], b) == ByteAt(d0, addrs[j], b)
    {
      SameByte(d0, d, addrs[j], b);
    }
  }

  lemma SameByte(d0: Disk, d: Disk, addr: seq<int>, b: nat)
    requires |addr| == NADDR && SameOn(d0, d, Claims(d0, addr, 0))
    ensures ByteAt(d, addr, b) == ByteAt(d0, addr, b)
  {
    hide Claims, BlockOf, At;
    InnerClaims(d0, addr);
    if b / BSIZE < MAX_BLOCKS {
      BlockOfFrame(d0, d, addr, b / BSIZE);
      if BlockOf(d0, addr, b / BSIZE) != 0 {
        DataInClaims(d0, addr, b / BSIZE);
      }
    }
  }

  /** A local change of one file keeps the census of the volume. */
  lemma CensusKept(d0: Disk, addrs: seq<seq<int>>, avail0: seq<int>, i: nat, d: Disk, addr: seq<int>, avail: seq<int>)
    requires i < |addrs| && forall j :: 0 <= j < |addrs| ==> |addrs[j]| == NADDR
    requires Separate(AllClaims(d0, addrs), avail0)
    requires Local(d0, addrs[i], avail0, d, addr, avail)
    ensures AllClaims(d, addrs[i := addr]) + multiset(avail) == AllClaims(d0, addrs) + multiset(avail0)
  {
    hide Claims, FileClaims, Sum, At, SameBytes, Separate;
    var addrs' := addrs[i := addr];
    var ms, ms', m, m0 := FileClaims(d0, addrs), FileClaims(d, addrs'), Claims(d, addr, 0), Claims(d0, addrs[i], 0);
    forall j | 0 <= j < |addrs|
      ensures ms'[j] == ms[i := m][j]
    {
      FileClaimsAt(d0, addrs, j);
      FileClaimsAt(d, addrs', j);
      if j != i {
        OtherFile(d0, addrs, avail0, i, d, addr, avail, j);
      }
    }
    assert ms' == ms[i := m];
    SumReplace(ms, i, m);
    FileClaimsAt(d0, addrs, i);
    forall x
      ensures (Sum(ms') + multiset(avail))[x] == (Sum(ms) + multiset(avail0))[x]
    {
      assert (Sum(ms') + m0)[x] == (Sum(ms) + m)[x];
      assert (m + multiset(avail))[x] == (m0 + multiset(avail0))[x];
    }
  }

  // The plain picture.

  /** s cut or extended with zeros to length n. */
  function Resized(s: seq<Byte>, n: nat): (r: seq<Byte>)
    ensures |r| == n
  {
    seq(n, k requires 0 <= k < n => if k < |s| then s[k] else 0)
  }

  /** Byte k of the result, in terms of the old bytes. */
  function SplicedByte(s: seq<Byte>, offset: nat, data: seq<Byte>, k: nat): Byte {
    if offset <= k < offset + |data| then data[k - offset] else if k < |s| then s[k] else 0
  }

  /** s with `data` written over it at `offset`; a gap before the data is filled with zeros. */
  function Spliced(s: seq<Byte>, offset: nat, data: seq<Byte>): (r: seq<Byte>)
    ensures data == [] ==> r == s
  {
    if data == [] then s
    else
      var n := if offset + |data| > |s| then offset + |data| else |s|;
      seq(n, k requires 0 <= k < n => SplicedByte(s, offset, data, k))
  }

  lemma ContentsResized(d0: Disk, addr0: seq<int>, size0: nat, d: Disk, addr: seq<int>, size: nat)
    requires |addr0| == |addr| == NADDR && CleanTail(d0, addr0, size0)
    requires forall i: nat :: ByteAt(d, addr, i) == if i < size then ByteAt(d0, addr0, i) else 0
    ensures Contents(d, addr, size) == Resized(Contents(d0, addr0, size0), size)
  {
    hide ByteAt, Contents;
    forall i | 0 <= i < size
      ensures Contents(d, addr, size)[i] == Resized(Contents(d0, addr0, size0), size)[i]
    {
      ContentsAt(d, addr, size, i);
      if i < size0 {
        ContentsAt(d0, addr0, size0, i);
      }
    }
  }

  lemma SplicedSize(s: seq<Byte>, offset: nat, data: seq<Byte>)
    ensures |Spliced(s, offset, data)| == if data != [] && offset + |data| > |s| then offset + |data| else |s|
  {
    hide SplicedByte;
  }

  lemma SplicedAt(s: seq<Byte>, offset: nat, data: seq<Byte>, k: nat)
    ensures k < |Spliced(s, offset, data)| ==> Spliced(s, offset, data)[k] == SplicedByte(s, offset, data, k)
  {
  }

  lemma ContentsSpliced(d0: Disk, addr0: seq<int>, size0: nat, d: Disk, addr: seq<int>, size: nat,
      offset: nat, data: seq<Byte>)
    requires |addr0| == |addr| == NADDR && CleanTail(d0, addr0, size0)
    requires Overwritten(d0, addr0, d, addr, offset, data)
    requires size == if data != [] && offset + |data| > size0 then offset + |data| else size0
    ensures Contents(d, addr, size) == Spliced(Contents(d0, addr0, size0), offset, data)
  {
    hide ByteAt, Contents, Spliced;
    SplicedSize(Contents(d0, addr0, size0), offset, data);
    assert CleanTail(d, addr, size) by {
      OverwrittenTail(d0, addr0, d, addr, offset, data, size0, size);
    }
    var s0 := Contents(d0, addr0, size0);
    forall i | 0 <= i < size
      ensures Contents(d, addr, size)[i] == Spliced(s0, offset, data)[i]
    {
      ContentsAt(d, addr, size, i);
      SplicedAt(s0, offset, data, i);
      if i < size0 {
        ContentsAt(d0, addr0, size0, i);
      }
    }
  }

  lemma ContentsSame(d0: Disk, addr0: seq<int>, d: Disk, addr: seq<int>, size: nat)
    requires |addr0| == |addr| == NADDR && SameBytes(d0, addr0, d, addr)
    ensures Contents(d, addr, size) == Contents(d0, addr0, size)
  {
    hide ByteAt, Contents;
    forall i | 0 <= i < size
      ensures Contents(d, addr, size)[i] == Contents(d0, addr0, size)[i]
    {
      ContentsAt(d, addr, size, i);
      ContentsAt(d0, addr0, size, i);
    }
  }

  /** Shrinking and extending again leaves zeros, not the old bytes. */
  lemma ShrinkThenExtend(s: seq<Byte>, m: nat, n: nat)
    requires m <= |s| && m <= n
    ensures Resized(Resized(s, m), n) == s[..m] + seq(n - m, _ => 0)
  {
  }

  /** Reading back what was written, and what is elsewhere: what was there, or zeros in a gap. */
  lemma SplicedRead(s: seq<Byte>, offset: nat, data: seq<Byte>, k: nat)
    requires data != []
    ensures offset + |data| <= |Spliced(s, offset, data)|
    ensures Spliced(s, offset, data)[offset..offset + |data|] == data
    ensures k < |Spliced(s, offset, data)| && !(offset <= k < offset + |data|) ==>
      Spliced(s, offset, data)[k] == if k < |s| then s[k] else 0
    ensures |s| <= |Spliced(s, offset, data)|
  {
    hide Spliced;
    SplicedSize(s, offset, data);
    SplicedAt(s, offset, data, k);
    forall j | 0 <= j < |data|
      ensures Spliced(s, offset, data)[offset..offset + |data|][j] == data[j]
    {
      SplicedAt(s, offset, data, offset + j);
    }
  }

  function FileOf(d: Disk, addr: seq<int>, size: nat): seq<Byte> {
    if |addr| == NADDR then Contents(d, addr, size) else []
  }

  class Mount {
    const fs: FileSystem
    const inodes: seq<Inode>
    ghost const placed: multiset<int>   // the blocks mkfs put on the free list

    ghost function Addrs(): (a: seq<seq<int>>)
      reads this, inodes
      ensures |a| == |inodes|
    {
      seq(|inodes|, i requires 0 <= i < |inodes| reads inodes => inodes[i].addr)
    }

    /** The abstract state: the contents of every file. */
    ghost function Files(): (f: seq<seq<Byte>>)
      reads this, fs, inodes
      ensures |f| == |inodes|
    {
      seq(|inodes|, i requires 0 <= i < |inodes| reads fs, inodes => FileOf(fs.disk, inodes[i].addr, inodes[i].size))
    }

    ghost predicate InOrder(i: nat)
      reads this, fs, inodes
      requires i < |inodes|
    {
      && |inodes[i].addr| == NADDR
      && inodes[i].size <= MAX_BYTES
      && CleanTail(fs.disk, inodes[i].addr, inodes[i].size)
    }

    /** Every block that mkfs placed is on the free list or owned by one file, exactly once. */
    ghost predicate Valid()
      reads this, fs, inodes
    {
      && fs.Sound()
      && (forall i, j :: 0 <= i < |inodes| && 0 <= j < |inodes| && i != j ==> inodes[i] != inodes[j])
      && (forall i :: 0 <= i < |inodes| ==> InOrder(i))
      && AllClaims(fs.disk, Addrs()) + multiset(fs.avail) == placed
      && Separate(AllClaims(fs.disk, Addrs()), fs.avail)
      && Inside(AllClaims(fs.disk, Addrs()), fs.avail, fs.isize, fs.fsize)
    }

    /** A volume fresh from mkfs with n empty files. */
    constructor (volume: FileSystem, n: nat)
      requires volume.Sound()
      ensures Valid() && fs == volume && |inodes| == n && placed == multiset(fs.avail)
      ensures Files() == seq(n, _ => [])
    {
      var list: seq<Inode> := [];
      while |list| < n
        invariant |list| <= n
        invariant forall i :: 0 <= i < |list| ==>
          list[i].addr == seq(NADDR, _ => 0) && list[i].size == 0 && fresh(list[i])
        invariant forall i, j :: 0 <= i < |list| && 0 <= j < |list| && i != j ==> list[i] != list[j]
      {
        var ip := new Inode();
        list := list + [ip];
      }
      fs := volume;
      inodes := list;
      placed := multiset(volume.avail);
      new;
      NothingClaimed();
    }

    lemma NothingClaimed()
      requires fs.Sound() && placed == multiset(fs.avail)
      requires forall i, j :: 0 <= i < |inodes| && 0 <= j < |inodes| && i != j ==> inodes[i] != inodes[j]
      requires forall i :: 0 <= i < |inodes| ==> inodes[i].addr == seq(NADDR, _ => 0) && inodes[i].size == 0
      ensures Valid() && Files() == seq(|inodes|, _ => [])
    {
      hide Claims, ByteAt, FileClaims, Sum, BlockOf;
      var addrs := Addrs();
      forall i | 0 <= i < |inodes|
        ensures FileClaims(fs.disk, addrs)[i] == multiset{}
        ensures CleanTail(fs.disk, inodes[i].addr, 0)
      {
        FileClaimsAt(fs.disk, addrs, i);
        EmptyFile(fs.disk, inodes[i].addr);
      }
      SumEmpty(FileClaims(fs.disk, addrs));
      assert multiset{} + multiset(fs.avail) == multiset(fs.avail);
      assert Files() == seq(|inodes|, _ => []);
    }

    /** After a local change of file i the volume is in order again, and the other files are as before. */
    lemma Restored(d0: Disk, addrs: seq<seq<int>>, avail0: seq<int>, i: nat)
      requires fs.Sound() && i < |inodes| == |addrs|
      requires forall j, k :: 0 <= j < |inodes| && 0 <= k < |inodes| && j != k ==> inodes[j] != inodes[k]
      requires forall j :: 0 <= j < |inodes| ==>
        |addrs[j]| == NADDR && |inodes[j].addr| == NADDR && (j != i ==> inodes[j].addr == addrs[j])
      requires forall j :: 0 <= j < |inodes| && j != i ==>
        inodes[j].size <= MAX_BYTES && CleanTail(d0, addrs[j], inodes[j].size)
      requires AllClaims(d0, addrs) + multiset(avail0) == placed
      requires Separate(AllClaims(d0, addrs), avail0) && Inside(AllClaims(d0, addrs), avail0, fs.isize, fs.fsize)
      requires Local(d0, addrs[i], avail0, fs.disk, inodes[i].addr, fs.avail)
      requires InOrder(i)
      ensures Valid()
      ensures forall j :: 0 <= j < |inodes| && j != i ==>
        Contents(fs.disk, inodes[j].addr, inodes[j].size) == Contents(d0, addrs[j], inodes[j].size)
    {
      hide Claims, ByteAt, AllClaims, FileClaims, Separate, Inside, Contents, Local;
      var addr := inodes[i].addr;
      assert Addrs() == addrs[i := addr];
      CensusKept(d0, addrs, avail0, i, fs.disk, addr, fs.avail);
      SameUnion(AllClaims(d0, addrs), avail0, AllClaims(fs.disk, Addrs()), fs.avail, fs.isize, fs.fsize);
      forall j | 0 <= j < |inodes| && j != i
        ensures InOrder(j)
        ensures Contents(fs.disk, inodes[j].addr, inodes[j].size) == Contents(d0, addrs[j], inodes[j].size)
      {
        OtherFile(d0, addrs, avail0, i, fs.disk, addr, fs.avail, j);
        ContentsSame(d0, addrs[j], fs.disk, inodes[j].addr, inodes[j].size);
      }
    }

    lemma FileInOrder(i: nat)
      requires Valid() && i < |inodes|
      ensures fs.FileOk(inodes[i])
    {
      hide Claims, ByteAt, FileClaims, Sum, Separate, Inside;
      assert Addrs()[i] == inodes[i].addr;
      assert InOrder(i);
      FileInAll(fs.disk, Addrs(), fs.avail, i, fs.isize, fs.fsize);
    }

    /** Reading returns the bytes of the file that exist. */
    method Read(i: nat, offset: nat, count: nat) returns (data: seq<Byte>)
      requires Valid() && i < |inodes| && fs.error == NoError
      modifies fs, inodes[i]
      ensures Valid() && fs.error == NoError && Files() == old(Files())
      ensures var file := Files()[i];
        data == if offset >= |file| then [] else if count < |file| - offset then file[offset..offset + count]
          else file[offset..]
    {
      hide Claims, ByteAt, AllClaims, FileClaims, Separate, Inside, Contents, Local;
      FileInOrder(i);
      ghost var ip := inodes[i];
      var err;
      data, err := fs.RwipRead(inodes[i], offset, count);
      assert Addrs() == old(Addrs()) && Files() == old(Files());
      forall k | 0 <= k < |data|
        ensures offset + k < ip.size && Contents(fs.disk, ip.addr, ip.size)[offset + k] == data[k]
      {
        ContentsAt(fs.disk, ip.addr, ip.size, offset + k);
      }
    }

    /** Writing splices the bytes that could be written into the file; all of them unless the volume is
        full or the file would get too long. */
    method Write(i: nat, offset: nat, data: seq<Byte>, append: bool) returns (done: nat, err: Errno)
      requires Valid() && i < |inodes| && fs.error == NoError
      modifies fs, inodes[i]
      ensures Valid()
      ensures done <= |data| && (err == NoError <==> done == |data|)
      ensures var file := old(Files())[i];
        var start := if append then |file| else offset;
        && (err != NoError ==>
              if start + |data| > LIMIT then err == EFBIG && done == 0 else err == ENOSPC && fs.avail == [])
        && Files() == old(Files())[i := Spliced(file, start, data[..done])]
      ensures |old(inodes[i].addr)| == NADDR
      ensures |old(inodes[i].addr)| == NADDR ==>
        var start := if append then |old(Files())[i]| else offset;
        err == NoError <==> data == [] || (start + |data| <= LIMIT
                                           && Fits(old(fs.disk), old(inodes[i].addr), |old(fs.avail)|, start, |data|))
      ensures |old(inodes[i].addr)| == |inodes[i].addr| == NADDR ==>
        var start := if append then |old(Files())[i]| else offset;
        && MapsOnly(old(fs.disk), old(inodes[i].addr), fs.disk, inodes[i].addr, start / BSIZE, Behind(start, done))
        && (err != ENOSPC ==> |fs.avail| + Spent(old(fs.disk), old(inodes[i].addr), start, done) == |old(fs.avail)|)
    {
      hide Claims, ByteAt, AllClaims, FileClaims, Separate, Inside, Contents, Local, Spliced, Fits, Undivided,
        BlockOf, MapsOnly, Spent;
      FileInOrder(i);
      assert forall j :: 0 <= j < |inodes| ==> Addrs()[j] == inodes[j].addr && InOrder(j);
      ghost var ip, d0, addrs, avail0 := inodes[i], fs.disk, Addrs(), fs.avail;
      done, err := fs.RwipWrite(inodes[i], offset, data, true, append, false);
      assert forall j :: 0 <= j < |inodes| && j != i ==>
        inodes[j].addr == addrs[j] && inodes[j].size == old(inodes[j].size);
      Restored(d0, addrs, avail0, i);
      ghost var start := if append then old(ip.size) else offset;
      ContentsSpliced(d0, addrs[i], old(ip.size), fs.disk, ip.addr, ip.size, start, data[..done]);
      assert Files() == old(Files())[i := Spliced(old(Files())[i], start, data[..done])];
    }

    /** Setting the length cuts the file or extends it with zeros; or the block with the new end is missing and
        cannot be had, and the file is left as it was. */
    method Truncate(i: nat, length: nat) returns (ok: bool)
      requires Valid() && i < |inodes|
      modifies fs, inodes[i]
      ensures Valid()
      ensures Files() == old(Files())[i := if ok then Resized(old(Files())[i], length) else old(Files())[i]]
      ensures !ok && old(fs.error) == NoError ==>
        if length > MAX_BYTES then fs.error == EFBIG else fs.error == ENOSPC && fs.avail == []
      ensures |old(inodes[i].addr)| == NADDR && |old(Files())[i]| == old(inodes[i].size)
      ensures |old(inodes[i].addr)| == NADDR ==>
        (ok <==> Reachable(old(fs.disk), old(inodes[i].addr), |old(fs.avail)|, old(fs.error), |old(Files())[i]|,
          length))
      ensures |old(inodes[i].addr)| == |inodes[i].addr| == NADDR && (length > |old(Files())[i]| || !ok) ==>
        var bn := EndBlock(|old(Files())[i]|, length);
        MapsOnly(old(fs.disk), old(inodes[i].addr), fs.disk, inodes[i].addr, bn,
          if bn < MAX_BLOCKS && BlockOf(fs.disk, inodes[i].addr, bn) != 0 then bn + 1 else bn)
      ensures |old(inodes[i].addr)| == NADDR && ok && length > |old(Files())[i]| ==>
        var bn := EndBlock(|old(Files())[i]|, length);
        bn < MAX_BLOCKS && |fs.avail| + Need(old(fs.disk), old(inodes[i].addr), bn) == |old(fs.avail)|
    {
      hide Claims, ByteAt, AllClaims, FileClaims, Separate, Inside, Contents, Local, Resized, Reachable, SlotTrees,
        SlotKept, BlockOf, FreeList, Saved, MapsOnly, Need;
      FileInOrder(i);
      assert forall j :: 0 <= j < |inodes| ==> Addrs()[j] == inodes[j].addr && InOrder(j);
      ghost var ip, d0, addrs, avail0 := inodes[i], fs.disk, Addrs(), fs.avail;
      fs.Itrunc(inodes[i], length);
      ok := inodes[i].size == length;
      assert forall j :: 0 <= j < |inodes| && j != i ==>
        inodes[j].addr == addrs[j] && inodes[j].size == old(inodes[j].size);
      Restored(d0, addrs, avail0, i);
      if ok {
        ContentsResized(d0, addrs[i], old(ip.size), fs.disk, ip.addr, ip.size);
      } else {
        ContentsSame(d0, addrs[i], fs.disk, ip.addr, ip.size);
      }
      assert Files() == old(Files())[i := if ok then Resized(old(Files())[i], length) else old(Files())[i]];
    }
  }

  lemma EmptyFile(d: Disk, addr: seq<int>)
    requires addr == seq(NADDR, _ => 0)
    ensures Claims(d, addr, 0) == multiset{} && CleanTail(d, addr, 0)
  {
    hide Nodes, NodeAt, Sum, At, SlotTrees;
    var ms := SlotTrees(d, addr, 0);
    forall s | 0 <= s < NADDR
      ensures ms[s] == multiset{}
    {
      SlotTreesAt(d, addr, 0, s);
      NodesStep(d, LevelOf(s), 0, 0);
    }
    SumEmpty(ms);
    forall i: nat
      ensures ByteAt(d, addr, i) == 0
    {
      if i / BSIZE < MAX_BLOCKS {
        BlockOfBy(d, addr, i / BSIZE);
        NodeAtStep(d, LevelOf(SlotFor(i / BSIZE)), 0, IndexIn(i / BSIZE), 0);
      }
    }
  }
}
