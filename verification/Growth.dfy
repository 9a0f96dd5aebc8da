/** What one lazy allocation by bmap may do to a tree, to an inode and to the free list. */
module Growth {
  import opened DiskFormat
  import opened Tally
  import opened BlockTree
  import opened InodeMap

  /** A tree and the free list, without a block in common and clear of the superblock. */
  ghost predicate Separate(claims: multiset<int>, avail: seq<int>) {
    && Once(claims + multiset(avail))
    && SUPERB !in claims && SUPERB !in avail && 0 !in claims && 0 !in avail
  }

  /** Only blocks on the way to data block k can be new, in a tree. */
  ghost predicate Unmoved(d0: Disk, root0: int, d: Disk, root: int, level: nat, k: nat) {
    forall k', floor :: 0 <= k' < Span(level) && 0 <= floor <= level && !Shared(k, k', floor) ==>
      NodeAt(d, level, root, k', floor) == NodeAt(d0, level, root0, k', floor)
  }

  /** The tree under root0 became the tree under root by taking blocks from the top of the free list for
      the way to data block k: no block is lost or shared, no other data block moves, and nothing outside
      the free list and the indirect blocks is written. */
  ghost predicate Grown(d0: Disk, root0: int, avail0: seq<int>, d: Disk, root: int, avail: seq<int>, level: nat, k: nat)
    requires k < Span(level)
  {
    && |d| == |d0|
    && avail <= avail0
    && Nodes(d, level, root, 0) + multiset(avail) == Nodes(d0, level, root0, 0) + multiset(avail0)
    && Nodes(d, level, root, 1) + multiset(avail) <= Nodes(d0, level, root0, 1) + multiset(avail0)
    && Unmoved(d0, root0, d, root, level, k)
    && (forall x :: x !in avail0 && x !in Nodes(d0, level, root0, 1) && x != SUPERB ==> At(d, x) == At(d0, x))
  }

  ghost predicate Inside(claims: multiset<int>, avail: seq<int>, lo: int, hi: int) {
    (forall b :: b in claims ==> lo <= b < hi) && (forall b :: b in avail ==> lo <= b < hi)
  }

  lemma SameUnion(m: multiset<int>, s: seq<int>, m': multiset<int>, s': seq<int>, lo: int, hi: int)
    requires m' + multiset(s') == m + multiset(s)
    ensures Separate(m, s) ==> Separate(m', s')
    ensures Inside(m, s, lo, hi) ==> Inside(m', s', lo, hi)
  {
    var all := m + multiset(s);
    forall b
      ensures b in m' || b in s' <==> b in all
      ensures b in m || b in s <==> b in all
    {
      assert b in m' + multiset(s') <==> b in m' || b in s';
    }
  }

  lemma SeparateOnce(claims: multiset<int>, avail: seq<int>)
    requires Separate(claims, avail)
    ensures Once(claims) && Once(multiset(avail))
    ensures forall x :: x in claims ==> x !in avail
  {
    forall x
      ensures claims[x] + multiset(avail)[x] <= 1
    {
      assert (claims + multiset(avail))[x] <= 1;
    }
  }

  lemma GrownNot(d: Disk, root: int, avail: seq<int>, level: nat, k: nat)
    requires k < Span(level)
    ensures Grown(d, root, avail, d, root, avail, level, k)
  {
    hide Nodes, NodeAt, At, Span;
  }

  /** d1 is d after the top n of the free list was taken and cleared. */
  ghost predicate Taken(d: Disk, avail: seq<int>, d1: Disk, n: int) {
    && avail != [] && n == avail[|avail| - 1]
    && |d1| == |d| && 0 <= n < |d|
    && d1[n] == ZeroBlock()
    && forall x :: x != n && x != SUPERB ==> At(d1, x) == At(d, x)
  }

  lemma TakenTop(avail: seq<int>)
    requires avail != []
    ensures multiset(avail) == multiset(avail[..|avail| - 1]) + multiset{avail[|avail| - 1]}
  {
    assert avail == avail[..|avail| - 1] + [avail[|avail| - 1]];
  }

  lemma TakenFrame(d: Disk, avail: seq<int>, d1: Disk, n: int, m: multiset<int>)
    requires Taken(d, avail, d1, n) && Separate(m, avail)
    ensures SameOn(d, d1, m) && n !in m
  {
    hide At, ZeroBlock;
    assert n in avail;
    SeparateOnce(m, avail);
  }

  /** A new root: the address slot was empty. */
  lemma GrownRoot(d: Disk, avail: seq<int>, d1: Disk, n: int, level: nat, k: nat)
    requires k < Span(level) && level > 0
    requires Taken(d, avail, d1, n) && Separate(multiset{}, avail)
    ensures Grown(d, 0, avail, d1, n, avail[..|avail| - 1], level, k)
    ensures NodeAt(d1, level, n, k, level) == n && NodeAt(d, level, 0, k, 0) == 0
  {
    hide Nodes, NodeAt, At, Span, ZeroBlock;
    AtIs(d1, n);
    FreshNodes(d1, level, n, 0);
    FreshNodes(d1, level, n, 1);
    NodesStep(d, level, 0, 0);
    NodesStep(d, level, 0, 1);
    NodeAtStep(d1, level, n, k, level);
    NodeAtStep(d, level, 0, k, 0);
    TakenTop(avail);
    forall k', floor | 0 <= k' < Span(level) && 0 <= floor <= level && !Shared(k, k', floor)
      ensures NodeAt(d1, level, n, k', floor) == NodeAt(d, level, 0, k', floor)
    {
      SharedTop(level, k, k');
      FreshNodeAt(d1, level, n, k', floor);
      NodeAtStep(d, level, 0, k', floor);
    }
  }

  /** One more block below block p at height t + 1. */
  lemma GrownHang(d0: Disk, root0: int, avail0: seq<int>, d: Disk, root: int, avail: seq<int>,
                  d1: Disk, n: Long, level: nat, k: nat, t: nat)
    requires t < level <= 3 && k < Span(level)
    requires Grown(d0, root0, avail0, d, root, avail, level, k)
    requires Separate(Nodes(d0, level, root0, 0), avail0)
    requires Taken(d, avail, d1, n)
    requires 0 < NodeAt(d, level, root, k, t + 1) < |d| && NodeAt(d, level, root, k, t) == 0
    ensures Separate(Nodes(d, level, root, 0), avail)
    ensures Hangable(d1, level, root, k, t, n)
    ensures NodeAt(d1, level, root, k, t + 1) == NodeAt(d, level, root, k, t + 1)
    ensures var d2 := Hung(d1, level, root, k, t, n);
      && Grown(d0, root0, avail0, d2, root, avail[..|avail| - 1], level, k)
      && NodeAt(d2, level, root, k, t) == n
      && (t > 0 ==> NodeAt(d2, level, root, k, 0) == 0)
  {
    hide Nodes, NodeAt, At, Span, ZeroBlock, Hung;
    assert Separate(Nodes(d, level, root, 0), avail) by {
      GrownSeparate(d0, root0, avail0, d, root, avail, level, k);
    }
    assert n != 0 by { assert n in avail; }
    TakenInTree(d, root, avail, d1, n, level, k, t);
    GrownHangStep(d0, root0, avail0, d, root, avail, d1, n, level, k, t);
    HungPath(d1, level, root, k, t, n, t);
    if t > 0 {
      HungPath(d1, level, root, k, t, n, 0);
    }
  }

  lemma GrownSeparate(d0: Disk, root0: int, avail0: seq<int>, d: Disk, root: int, avail: seq<int>, level: nat, k: nat)
    requires k < Span(level)
    requires Grown(d0, root0, avail0, d, root, avail, level, k)
    requires Separate(Nodes(d0, level, root0, 0), avail0)
    ensures Separate(Nodes(d, level, root, 0), avail)
  {
    hide Nodes, NodeAt, At, Span, Separate;
    SameUnion(Nodes(d0, level, root0, 0), avail0, Nodes(d, level, root, 0), avail, 0, 0);
  }

  lemma TakenInTree(d: Disk, root: int, avail: seq<int>, d1: Disk, n: Long, level: nat, k: nat, t: nat)
    requires t < level <= 3 && k < Span(level)
    requires Separate(Nodes(d, level, root, 0), avail) && Taken(d, avail, d1, n) && n != 0
    requires 0 < NodeAt(d, level, root, k, t + 1) < |d| && NodeAt(d, level, root, k, t) == 0
    ensures Hangable(d1, level, root, k, t, n)
    ensures SameTree(d, d1, level, root)
  {
    hide Nodes, NodeAt, At, Span, ZeroBlock;
    TakenFrame(d, avail, d1, n, Nodes(d, level, root, 0));
    FloorMonotone(d, level, root, 0, 1);
    TreeFrame(d, d1, level, root);
    SeparateOnce(Nodes(d, level, root, 0), avail);
  }

  lemma GrownHangStep(d0: Disk, root0: int, avail0: seq<int>, d: Disk, root: int, avail: seq<int>,
                      d1: Disk, n: Long, level: nat, k: nat, t: nat)
    requires t < level <= 3 && k < Span(level)
    requires Grown(d0, root0, avail0, d, root, avail, level, k)
    requires Taken(d, avail, d1, n)
    requires Hangable(d1, level, root, k, t, n)
    requires SameTree(d, d1, level, root)
    ensures Grown(d0, root0, avail0, Hung(d1, level, root, k, t, n), root, avail[..|avail| - 1], level, k)
  {
    hide Nodes, NodeAt, At, Span, ZeroBlock, Hung, SlotOf, Pointers;
    var d2, p := Hung(d1, level, root, k, t, n), NodeAt(d1, level, root, k, t + 1);
    HungNodes(d1, level, root, k, t, n, 0);
    HungNodes(d1, level, root, k, t, n, 1);
    HungBlocks(d1, level, root, k, t, n);
    HungSize(d1, level, root, k, t, n);
    TakenTop(avail);
    forall k', floor | 0 <= k' < Span(level) && 0 <= floor <= level && !Shared(k, k', floor)
      ensures NodeAt(d2, level, root, k', floor) == NodeAt(d0, level, root0, k', floor)
    {
      HungLookup(d1, level, root, k, t, n, k', floor);
    }
    NodeAtMember(d1, level, root, k, t + 1, 1);
    assert n in avail && n in avail0;
    var bound := Nodes(d0, level, root0, 1) + multiset(avail0);
    assert p in Nodes(d, level, root, 1) + multiset(avail) && p in bound;
  }

  lemma HungSize(d: Disk, level: nat, b: int, k: nat, t: nat, n: Long)
    requires Hangable(d, level, b, k, t, n)
    ensures |Hung(d, level, b, k, t, n)| == |d|
  {
    hide Nodes, NodeAt, Span, ZeroBlock, SetPointer, SlotOf;
  }

  /** A new direct block; its contents may be anything. */
  lemma GrownDirect(d: Disk, avail: seq<int>, d1: Disk, n: int, k: nat)
    requires k < Span(0) && avail != [] && n == avail[|avail| - 1] && Separate(multiset{}, avail)
    requires |d1| == |d| && forall x :: x != n && x != SUPERB ==> At(d1, x) == At(d, x)
    ensures Grown(d, 0, avail, d1, n, avail[..|avail| - 1], 0, k)
    ensures NodeAt(d1, 0, n, k, 0) == n
  {
    hide Nodes, NodeAt, At, Span;
    Spans();
    assert n in avail;
    NodesStep(d, 0, 0, 0);
    NodesStep(d, 0, 0, 1);
    NodesStep(d1, 0, n, 0);
    NodesStep(d1, 0, n, 1);
    NodeAtStep(d1, 0, n, k, 0);
    TakenTop(avail);
  }

  // The same for a whole inode.

  /** Only blocks on the way to logical block bn can be new, in an inode. */
  ghost predicate OffWay(d0: Disk, addr0: seq<int>, d: Disk, addr: seq<int>, bn: nat)
    requires |addr0| == |addr| == NADDR
  {
    bn < MAX_BLOCKS ==>
      forall bn', floor :: 0 <= bn' < MAX_BLOCKS && 0 <= floor <= LevelOf(SlotFor(bn')) && !SameWay(bn, bn', floor) ==>
        Way(d, addr, bn', floor) == Way(d0, addr0, bn', floor)
  }

  /** As Grown, for all the blocks of an inode and logical block bn. */
  ghost predicate Mapped(d0: Disk, addr0: seq<int>, avail0: seq<int>, d: Disk, addr: seq<int>, avail: seq<int>, bn: nat)
  {
    && |addr0| == |addr| == NADDR && |d| == |d0|
    && avail <= avail0
    && Claims(d, addr, 0) + multiset(avail) == Claims(d0, addr0, 0) + multiset(avail0)
    && (forall bn' :: 0 <= bn' < MAX_BLOCKS && bn' != bn ==> BlockOf(d, addr, bn') == BlockOf(d0, addr0, bn'))
    && OffWay(d0, addr0, d, addr, bn)
    && (forall x :: x !in avail0 && x !in Claims(d0, addr0, 1) && x != SUPERB ==> At(d, x) == At(d0, x))
  }

  lemma MappedNot(d: Disk, addr: seq<int>, avail: seq<int>, bn: nat)
    requires |addr| == NADDR
    ensures Mapped(d, addr, avail, d, addr, avail, bn)
  {
    hide Claims, BlockOf, At;
  }

  lemma OtherSlot(d0: Disk, addr0: seq<int>, avail0: seq<int>, d: Disk, s: nat, i: nat)
    requires i < |addr0| && s < |addr0| && i != s && Separate(Claims(d0, addr0, 0), avail0)
    requires forall x :: x !in avail0 && x !in Nodes(d0, LevelOf(s), addr0[s], 1) && x != SUPERB ==>
      At(d, x) == At(d0, x)
    ensures SameOn(d0, d, Nodes(d0, LevelOf(i), addr0[i], 1))
  {
    hide Nodes, Claims, At;
    SeparateOnce(Claims(d0, addr0, 0), avail0);
    TreeInClaims(d0, addr0, 0, i);
    FloorMonotone(d0, LevelOf(i), addr0[i], 0, 1);
    FloorMonotone(d0, LevelOf(s), addr0[s], 0, 1);
    forall x | x in Nodes(d0, LevelOf(i), addr0[i], 1)
      ensures At(d, x) == At(d0, x)
    {
      SlotsApart(d0, addr0, i, s, x);
    }
  }

  lemma ClaimsWithRoot(d0: Disk, addr0: seq<int>, avail0: seq<int>, d: Disk, s: nat, root: int, floor: nat)
    requires s < |addr0| && Separate(Claims(d0, addr0, 0), avail0)
    requires forall x :: x !in avail0 && x !in Nodes(d0, LevelOf(s), addr0[s], 1) && x != SUPERB ==>
      At(d, x) == At(d0, x)
    ensures Claims(d, addr0[s := root], floor) + Nodes(d0, LevelOf(s), addr0[s], floor)
      == Claims(d0, addr0, floor) + Nodes(d, LevelOf(s), root, floor)
  {
    hide Nodes, SlotTrees, Sum, At, Separate;
    var addr := addr0[s := root];
    var ms, ms' := SlotTrees(d0, addr0, floor), SlotTrees(d, addr, floor);
    var m := Nodes(d, LevelOf(s), root, floor);
    forall i | 0 <= i < |addr|
      ensures ms'[i] == ms[s := m][i]
    {
      SlotTreesAt(d0, addr0, floor, i);
      SlotTreesAt(d, addr, floor, i);
      if i != s {
        OtherSlot(d0, addr0, avail0, d, s, i);
        NodesFrame(d0, d, LevelOf(i), addr0[i], floor);
      }
    }
    assert ms' == ms[s := m];
    SumReplace(ms, s, m);
    SlotTreesAt(d0, addr0, floor, s);
  }

  lemma WayWithRoot(d0: Disk, addr0: seq<int>, avail0: seq<int>, d: Disk, s: nat, root: int, bn: nat, floor: nat)
    requires |addr0| == NADDR && s < NADDR && bn < MAX_BLOCKS && SlotFor(bn) != s && floor <= LevelOf(SlotFor(bn))
    requires Separate(Claims(d0, addr0, 0), avail0)
    requires forall x :: x !in avail0 && x !in Nodes(d0, LevelOf(s), addr0[s], 1) && x != SUPERB ==>
      At(d, x) == At(d0, x)
    ensures Way(d, addr0[s := root], bn, floor) == Way(d0, addr0, bn, floor)
  {
    hide Nodes, Claims, At, NodeAt, SlotFor, IndexIn, Span, Separate;
    OtherSlot(d0, addr0, avail0, d, s, SlotFor(bn));
    NodeAtFrame(d0, d, LevelOf(SlotFor(bn)), addr0[SlotFor(bn)], IndexIn(bn), floor);
  }

  lemma MappedByTree(d0: Disk, addr0: seq<int>, avail0: seq<int>, d: Disk, root: int, avail: seq<int>, bn: nat)
    requires |addr0| == NADDR && bn < MAX_BLOCKS
    requires Grown(d0, addr0[SlotFor(bn)], avail0, d, root, avail, LevelOf(SlotFor(bn)), IndexIn(bn))
    requires Separate(Claims(d0, addr0, 0), avail0)
    ensures Mapped(d0, addr0, avail0, d, addr0[SlotFor(bn) := root], avail, bn)
  {
    hide Nodes, Claims, At, NodeAt, SlotFor, IndexIn, Span, Separate, BlockOf;
    var s := SlotFor(bn);
    var addr := addr0[s := root];
    ClaimsWithRoot(d0, addr0, avail0, d, s, root, 0);
    TreeInClaims(d0, addr0, 1, s);
    var n0, n1, c0, c1 :=
      Nodes(d0, LevelOf(s), addr0[s], 0), Nodes(d, LevelOf(s), root, 0), Claims(d0, addr0, 0), Claims(d, addr, 0);
    forall x
      ensures (c1 + multiset(avail))[x] == (c0 + multiset(avail0))[x]
    {
      assert (c1 + n0)[x] == (c0 + n1)[x];
      assert (n1 + multiset(avail))[x] == (n0 + multiset(avail0))[x];
    }
    OffWayByTree(d0, addr0, avail0, d, root, avail, bn);
    forall bn' | 0 <= bn' < MAX_BLOCKS && bn' != bn
      ensures BlockOf(d, addr, bn') == BlockOf(d0, addr0, bn')
    {
      BlockIsWay(d, addr, bn');
      BlockIsWay(d0, addr0, bn');
      OwnLeaf(bn, bn');
    }
  }

  lemma OffWayByTree(d0: Disk, addr0: seq<int>, avail0: seq<int>, d: Disk, root: int, avail: seq<int>, bn: nat)
    requires |addr0| == NADDR && bn < MAX_BLOCKS
    requires Grown(d0, addr0[SlotFor(bn)], avail0, d, root, avail, LevelOf(SlotFor(bn)), IndexIn(bn))
    requires Separate(Claims(d0, addr0, 0), avail0)
    ensures OffWay(d0, addr0, d, addr0[SlotFor(bn) := root], bn)
  {
    hide Nodes, Claims, At, NodeAt, SlotFor, IndexIn, Span, Separate, Shared;
    var s := SlotFor(bn);
    var addr := addr0[s := root];
    forall bn', floor | 0 <= bn' < MAX_BLOCKS && 0 <= floor <= LevelOf(SlotFor(bn')) && !SameWay(bn, bn', floor)
      ensures Way(d, addr, bn', floor) == Way(d0, addr0, bn', floor)
    {
      if SlotFor(bn') != s {
        WayWithRoot(d0, addr0, avail0, d, s, root, bn', floor);
      }
    }
  }

  lemma BlockIsWay(d: Disk, addr: seq<int>, bn: nat)
    requires |addr| == NADDR && bn < MAX_BLOCKS
    ensures BlockOf(d, addr, bn) == Way(d, addr, bn, 0)
  {
  }

  lemma OwnLeaf(bn: nat, bn': nat)
    requires bn < MAX_BLOCKS && bn' < MAX_BLOCKS && bn != bn'
    ensures !SameWay(bn, bn', 0)
  {
    Spans();
  }

  lemma BlockOfBy(d: Disk, addr: seq<int>, bn: nat)
    requires |addr| == NADDR && bn < MAX_BLOCKS
    ensures BlockOf(d, addr, bn) == NodeAt(d, LevelOf(SlotFor(bn)), addr[SlotFor(bn)], IndexIn(bn), 0)
  {
  }

  /** The tree of one slot inherits what is known of the whole inode. */
  lemma TreeOfInode(d: Disk, addr: seq<int>, avail: seq<int>, s: nat, lo: int, hi: int)
    requires s < |addr| && Separate(Claims(d, addr, 0), avail) && Inside(Claims(d, addr, 0), avail, lo, hi)
    ensures Separate(Nodes(d, LevelOf(s), addr[s], 0), avail)
    ensures Inside(Nodes(d, LevelOf(s), addr[s], 0), avail, lo, hi)
  {
    hide Nodes, Claims;
    TreeInClaims(d, addr, 0, s);
    var m, c := Nodes(d, LevelOf(s), addr[s], 0), Claims(d, addr, 0);
    forall b
      ensures (m + multiset(avail))[b] <= 1
    {
      assert (c + multiset(avail))[b] <= 1;
    }
  }

  /** Blocks on the way to k in a grown tree are inside the data area, off the free list, and not special. */
  lemma WayInside(d0: Disk, root0: int, avail0: seq<int>, d: Disk, root: int, avail: seq<int>, level: nat,
      k: nat, t: nat, lo: int, hi: int)
    requires t <= level && k < Span(level) && NodeAt(d, level, root, k, t) != 0
    requires Grown(d0, root0, avail0, d, root, avail, level, k)
    requires Separate(Nodes(d0, level, root0, 0), avail0) && Inside(Nodes(d0, level, root0, 0), avail0, lo, hi)
    ensures var x := NodeAt(d, level, root, k, t);
      lo <= x < hi && x !in avail && (t > 0 ==> x in Nodes(d0, level, root0, 1) || x in avail0)
  {
    hide Nodes, NodeAt, At, Span;
    SameUnion(Nodes(d0, level, root0, 0), avail0, Nodes(d, level, root, 0), avail, lo, hi);
    NodeAtMember(d, level, root, k, t, 0);
    SeparateOnce(Nodes(d, level, root, 0), avail);
    if t > 0 {
      NodeAtMember(d, level, root, k, t, 1);
      assert NodeAt(d, level, root, k, t) in Nodes(d0, level, root0, 1) + multiset(avail0);
    }
  }

  lemma HungIs(d: Disk, level: nat, b: int, k: nat, t: nat, n: Long, p: int, i: nat)
    requires Hangable(d, level, b, k, t, n) && p == NodeAt(d, level, b, k, t + 1) && i == SlotOf(k, t)
    requires At(d, n) == ZeroBlock()
    ensures d[p := SetPointer(d[p], i, n)] == Hung(d, level, b, k, t, n)
  {
    hide Nodes, NodeAt, Span, ZeroBlock, SetPointer, SlotOf;
    HungBlocks(d, level, b, k, t, n);
    assert d[n := ZeroBlock()] == d;
  }
}
