/** File deletion in 2.9BSD (iget.c): itrunc and its recursive helper tloop, over the same block
    format and the same free() as 2.11BSD. */
module Bsd29Trunc {
  import opened DiskFormat
  import opened Tally
  import opened FreeChain
  import opened BlockTree
  import opened InodeMap
  import opened Growth
  import opened Shrink
  import opened FileTrim
  import opened Volume

  datatype Buffer = NoBuffer | Held(block: Block)

  /** Height of the tree that tloop is told to free by its two flags. */
  function Height(f1: bool, f2: bool): nat {
    if !f1 then 1 else if !f2 then 2 else 3
  }

  /** tloop: frees everything below indirect block bn, last entry first, and then bn. The buffer with the
      pointers is given up before every recursive call and read again after it. */
  method Tloop(fs: FileSystem, bn: int, f1: bool, f2: bool)
    requires fs.Sound() && bn != 0 && fs.OwnsTree(Height(f1, f2), bn)
    requires f2 ==> f1
    modifies fs
    ensures fs.Sound() && fs.error == old(fs.error)
    ensures Gone(old(fs.disk), old(fs.avail), fs.disk, fs.avail, Height(f1, f2), bn)
    decreases Height(f1, f2)
  {
    hide FreeList, Nodes, NodeAt, Span, Once, At, Separate, Inside, Pointers, Cutting, SameTree, Gone;
    ghost var d0, avail0, level := fs.disk, fs.avail, Height(f1, f2);
    RootMember(fs.disk, level, bn);
    SeparateMember(Nodes(fs.disk, level, bn, 0), fs.avail, bn, fs.isize, fs.fsize);
    AtIs(fs.disk, bn);
    ghost var z := fs.disk[bn];
    CutStart(fs.disk, fs.avail, level, bn, z);
    assert fs.disk[bn := z] == fs.disk;
    var bp := NoBuffer;
    var i := NINDIR - 1;
    while i >= 0
      invariant -1 <= i < NINDIR
      invariant fs.Sound() && fs.error == old(fs.error)
      invariant Cutting(d0, avail0, fs.disk, fs.avail, level, bn, z, i + 1)
      invariant bp.Held? ==> bp.block == z
    {
      CuttingRoot(d0, avail0, fs.disk, fs.avail, level, bn, z, i + 1);
      if bp.NoBuffer? {
        AtIs(fs.disk, bn);
        bp := Held(fs.disk[bn]);
      }
      var nb := Pointers(bp.block)[i];
      ghost var d, av := fs.disk, fs.avail;
      CutChild(d0, avail0, fs.disk, fs.avail, level, bn, z, i, fs.isize, fs.fsize);
      if nb == 0 {
        GoneHole(fs.disk, fs.avail, level - 1);
      } else if f1 {
        bp := NoBuffer;
        Tloop(fs, nb, f2, false);
      } else {
        SeparateMember(Nodes(fs.disk, 0, nb, 0), fs.avail, nb, fs.isize, fs.fsize);
        fs.Free(nb);
        GoneLeaf(d, av, fs.disk, nb);
      }
      TreeNodes(d0, d, level - 1, nb);
      CutStep(d0, avail0, d, av, fs.disk, fs.avail, level, bn, z, i);
      i := i - 1;
    }
    RootApart(d0, avail0, fs.disk, fs.avail, level, bn, z, 0, fs.isize, fs.fsize);
    ghost var d1, av1 := fs.disk, fs.avail;
    fs.Free(bn);
    CutGone(d0, avail0, d1, av1, fs.disk, level, bn, z);
  }

  lemma CuttingRoot(d0: Disk, avail0: seq<int>, d: Disk, avail: seq<int>, level: nat, b: int, z: Block, i: nat)
    requires level > 0 && i <= NINDIR && Cutting(d0, avail0, d, avail, level, b, z, i)
    ensures At(d, b) == z && |d| == |d0|
  {
    hide Nodes, Trees, Sum, Pointers, At;
  }

  /** itrunc of 2.9BSD: every block of the file goes to the free list, once, and no other block does. */
  method Itrunc29(fs: FileSystem, ip: Inode)
    requires fs.Sound() && fs.Owns(ip)
    modifies fs, ip
    ensures fs.Sound() && fs.Owns(ip) && ip.size == 0 && fs.error == old(fs.error)
    ensures ip.addr == seq(NADDR, _ => 0)
    ensures old(fs.avail) <= fs.avail
    ensures multiset(fs.avail) == multiset(old(fs.avail)) + Claims(old(fs.disk), old(ip.addr), 0)
    ensures forall x :: x !in Claims(old(fs.disk), old(ip.addr), 0) ==> At(fs.disk, x) == At(old(fs.disk), x)
  {
    hide FreeList, Nodes, NodeAt, Span, Once, At, Separate, Inside, Gone, TreeCut, SlotCut, Claims, CutDown, SlotKept,
      LevelOf;
    ghost var d0, addr0, avail0 := fs.disk, ip.addr, fs.avail;
    CutDownStart(fs.disk, ip.addr, fs.avail, -1);
    var i := NADDR - 1;
    while i >= 0
      invariant -1 <= i < NADDR && |ip.addr| == NADDR
      invariant fs.Sound() && fs.error == old(fs.error)
      invariant CutDown(d0, addr0, avail0, fs.disk, ip.addr, fs.avail, i + 1, -1)
    {
      ghost var d, av, t, level := fs.disk, fs.avail, ip.addr, LevelOf(i);
      CutDownTree(d0, addr0, avail0, fs.disk, ip.addr, fs.avail, i + 1, -1, i, fs.isize, fs.fsize);
      var bn := ip.addr[i];
      LevelIs(i);
      if bn == 0 {
        GoneHole(fs.disk, fs.avail, level);
        assert ip.addr == ip.addr[i := 0];
      } else {
        ip.addr := ip.addr[i := 0];
        if i == NADDR - 3 {
          Tloop(fs, bn, false, false);
        } else if i == NADDR - 2 {
          Tloop(fs, bn, true, false);
        } else if i == NADDR - 1 {
          Tloop(fs, bn, true, true);
        } else {
          RootMember(fs.disk, 0, bn);
          SeparateMember(Nodes(fs.disk, 0, bn, 0), fs.avail, bn, fs.isize, fs.fsize);
          fs.Free(bn);
          GoneLeaf(d, av, fs.disk, bn);
        }
      }
      GoneIsCut(d, av, fs.disk, fs.avail, level, bn);
      SlotCutBy(d, t, av, fs.disk, fs.avail, i, 0, -1);
      NothingKept(d0, addr0, i);
      NothingKept(fs.disk, ip.addr, i);
      CutDownStep(d0, addr0, avail0, d, t, av, fs.disk, ip.addr, fs.avail, i, -1, -1);
      i := i - 1;
    }
    ip.size := 0;
    ip.changed := true;
    AllCut(d0, addr0, avail0, fs.disk, ip.addr, fs.avail, fs.isize, fs.fsize);
  }

  lemma LevelIs(i: nat)
    requires i < NADDR
    ensures LevelOf(i) == if i == 4 then 1 else if i == 5 then 2 else if i == 6 then 3 else 0
  {
  }

  lemma NothingKept(d: Disk, addr: seq<int>, i: nat)
    requires |addr| == NADDR && i < NADDR
    ensures SlotKept(d, addr, i, -1) == multiset{} && FirstOf(i) > -1
  {
    hide Nodes, Kept, Span;
  }

  lemma AllCut(d0: Disk, addr0: seq<int>, avail0: seq<int>, d: Disk, addr: seq<int>, avail: seq<int>, lo: int, hi: int)
    requires CutDown(d0, addr0, avail0, d, addr, avail, 0, -1)
    requires Separate(Claims(d0, addr0, 0), avail0) && Inside(Claims(d0, addr0, 0), avail0, lo, hi)
    ensures addr == seq(NADDR, _ => 0) && avail0 <= avail
    ensures multiset(avail) == multiset(avail0) + Claims(d0, addr0, 0)
    ensures Separate(Claims(d, addr, 0), avail) && Inside(Claims(d, addr, 0), avail, lo, hi)
    ensures forall x :: x !in Claims(d0, addr0, 0) ==> At(d, x) == At(d0, x)
  {
    hide Nodes, Claims, At, BlockOf, SlotTrees, SlotKept, SlotFor, Separate, Inside;
    SameUnion(Claims(d0, addr0, 0), avail0, Claims(d, addr, 0), avail, lo, hi);
    NoClaims(d, addr);
    assert multiset{} + multiset(avail) == multiset(avail);
    assert multiset(avail0) + Claims(d0, addr0, 0) == Claims(d0, addr0, 0) + multiset(avail0);
  }

  lemma NoClaims(d: Disk, addr: seq<int>)
    requires |addr| == NADDR && forall i :: 0 <= i < NADDR ==> addr[i] == 0
    ensures Claims(d, addr, 0) == multiset{}
  {
    hide Nodes, Sum, SlotTrees;
    var ms := SlotTrees(d, addr, 0);
    forall s | 0 <= s < NADDR
      ensures ms[s] == multiset{}
    {
      SlotTreesAt(d, addr, 0, s);
      NodesStep(d, LevelOf(s), 0, 0);
    }
    SumEmpty(ms);
  }
}
