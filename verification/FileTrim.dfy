/** Truncation of a whole inode, slot by slot from the triple indirect tree down to the direct blocks. */
module FileTrim {
  import opened DiskFormat
  import opened Tally
  import opened BlockTree
  import opened InodeMap
  import opened Growth
  import opened Shrink

  /** First logical block of an address slot. */
  function FirstOf(slot: nat): nat
    requires slot < NADDR
  {
    if slot <= 4 then slot else if slot == 5 then 260 else 65796
  }

  lemma SlotRange(bn: nat)
    requires bn < MAX_BLOCKS
    ensures var s := SlotFor(bn); FirstOf(s) <= bn && IndexIn(bn) == bn - FirstOf(s)
    ensures var s := SlotFor(bn); s + 1 < NADDR ==> FirstOf(s + 1) == FirstOf(s) + Span(LevelOf(s))
  {
    Spans();
  }

  /** The tree under b became the tree under b', which holds only data blocks 0..last. */
  ghost predicate TreeCut(d: Disk, avail: seq<int>, d': Disk, avail': seq<int>, level: nat, b: int, b': int,
      last: int) {
    && |d'| == |d|
    && avail <= avail'
    && Nodes(d', level, b', 0) + multiset(avail') == Nodes(d, level, b, 0) + multiset(avail)
    && (forall k :: 0 <= k < Span(level) ==>
          NodeAt(d', level, b', k, 0) == if k <= last then NodeAt(d, level, b, k, 0) else 0)
    && (forall x :: x !in Nodes(d, level, b, 0) ==> At(d', x) == At(d, x))
    && (forall x :: x in Nodes(d', level, b', 0) && x !in Nodes(d, level, b, 1) ==> At(d', x) == At(d, x))
  }

  lemma TrimmedIsCut(d: Disk, avail: seq<int>, d': Disk, avail': seq<int>, level: nat, b: int, last: int)
    requires -1 <= last < Span(level) && Trimmed(d, avail, d', avail', level, b, last)
    ensures TreeCut(d, avail, d', avail', level, b, b, last)
    ensures Nodes(d', level, b, 0) == Kept(d, level, b, last) == Kept(d', level, b, last)
  {
    hide Nodes, NodeAt, At, Span, Kept;
  }

  lemma GoneIsCut(d: Disk, avail: seq<int>, d': Disk, avail': seq<int>, level: nat, b: int)
    requires Gone(d, avail, d', avail', level, b)
    ensures TreeCut(d, avail, d', avail', level, b, 0, -1)
    ensures Nodes(d', level, 0, 0) == multiset{}
  {
    hide Nodes, NodeAt, At, Span;
    NodesStep(d', level, 0, 0);
    forall k | 0 <= k < Span(level)
      ensures NodeAt(d', level, 0, k, 0) == 0
    {
      NodeAtStep(d', level, 0, k, 0);
    }
    assert multiset{} + multiset(avail') == multiset(avail');
    assert multiset(avail) + Nodes(d, level, b, 0) == Nodes(d, level, b, 0) + multiset(avail);
  }

  /** One slot of an inode was cut; the others are untouched. */
  ghost predicate SlotCut(d: Disk, addr: seq<int>, avail: seq<int>, d': Disk, addr': seq<int>,
      avail': seq<int>, s: nat, last: int)
    requires s < NADDR
  {
    && |addr| == |addr'| == NADDR && |d'| == |d|
    && avail <= avail'
    && addr' == addr[s := addr'[s]]
    && Claims(d', addr', 0) + multiset(avail') == Claims(d, addr, 0) + multiset(avail)
    && SlotTrees(d', addr', 0) == SlotTrees(d, addr, 0)[s := Nodes(d', LevelOf(s), addr'[s], 0)]
    && (forall i :: 0 <= i < NADDR && i != s ==> Intact(d, d', LevelOf(i), addr[i]))
    && (forall bn :: 0 <= bn < MAX_BLOCKS ==>
          BlockOf(d', addr', bn) == if SlotFor(bn) == s && IndexIn(bn) > last then 0 else BlockOf(d, addr, bn))
    && (forall x :: x !in Claims(d, addr, 0) ==> At(d', x) == At(d, x))
    && (forall bn :: 0 <= bn < MAX_BLOCKS && BlockOf(d', addr', bn) != 0 ==>
          At(d', BlockOf(d', addr', bn)) == At(d, BlockOf(d', addr', bn)))
  }

  lemma OtherTree(d: Disk, addr: seq<int>, avail: seq<int>, d': Disk, avail': seq<int>, s: nat, b': int,
      last: int, i: nat)
    requires |addr| == NADDR && s < NADDR && i < NADDR && i != s
    requires Separate(Claims(d, addr, 0), avail)
    requires TreeCut(d, avail, d', avail', LevelOf(s), addr[s], b', last)
    ensures Intact(d, d', LevelOf(i), addr[i])
  {
    hide Nodes, NodeAt, Claims, At, Span;
    SeparateOnce(Claims(d, addr, 0), avail);
    forall x | x in Nodes(d, LevelOf(i), addr[i], 0)
      ensures At(d', x) == At(d, x)
    {
      SlotsApart(d, addr, i, s, x);
    }
  }

  lemma SlotCutTrees(d: Disk, addr: seq<int>, avail: seq<int>, d': Disk, avail': seq<int>, s: nat, b': int, last: int)
    requires |addr| == NADDR && s < NADDR
    requires Separate(Claims(d, addr, 0), avail)
    requires TreeCut(d, avail, d', avail', LevelOf(s), addr[s], b', last)
    ensures SlotTrees(d', addr[s := b'], 0) == SlotTrees(d, addr, 0)[s := Nodes(d', LevelOf(s), b', 0)]
    ensures Claims(d', addr[s := b'], 0) + multiset(avail') == Claims(d, addr, 0) + multiset(avail)
  {
    hide Nodes, NodeAt, SlotTrees, Sum, At, Span, Separate, SameTree, TreeCut;
    var addr' := addr[s := b'];
    var ms, ms', n0, n1 :=
      SlotTrees(d, addr, 0), SlotTrees(d', addr', 0), Nodes(d, LevelOf(s), addr[s], 0), Nodes(d', LevelOf(s), b', 0);
    forall i | 0 <= i < NADDR
      ensures ms'[i] == ms[s := n1][i]
    {
      SlotTreesAt(d, addr, 0, i);
      SlotTreesAt(d', addr', 0, i);
      if i != s {
        OtherTree(d, addr, avail, d', avail', s, b', last, i);
        IntactTree(d, d', LevelOf(i), addr[i]);
      }
    }
    assert ms' == ms[s := n1];
    SumReplace(ms, s, n1);
    SlotTreesAt(d, addr, 0, s);
    assert n1 + multiset(avail') ==
      n0 + multiset(avail) by { CutCounts(d, avail, d', avail', LevelOf(s), addr[s], b', last); }
    forall x
      ensures (Sum(ms') + multiset(avail'))[x] == (Sum(ms) + multiset(avail))[x]
    {
      assert (Sum(ms') + n0)[x] == (Sum(ms) + n1)[x];
      assert (n1 + multiset(avail'))[x] == (n0 + multiset(avail))[x];
    }
  }

  lemma CutCounts(d: Disk, avail: seq<int>, d': Disk, avail': seq<int>, level: nat, b: int, b': int, last: int)
    requires TreeCut(d, avail, d', avail', level, b, b', last)
    ensures Nodes(d', level, b', 0) + multiset(avail') == Nodes(d, level, b, 0) + multiset(avail)
  {
    hide Nodes, NodeAt, Span, At;
  }

  lemma SlotCutMap(d: Disk, addr: seq<int>, avail: seq<int>, d': Disk, avail': seq<int>, s: nat, b': int,
      last: int, bn: nat)
    requires |addr| == NADDR && s < NADDR && bn < MAX_BLOCKS
    requires Separate(Claims(d, addr, 0), avail)
    requires TreeCut(d, avail, d', avail', LevelOf(s), addr[s], b', last)
    ensures BlockOf(d', addr[s := b'], bn) == if SlotFor(bn) == s && IndexIn(bn) > last then 0 else BlockOf(d, addr, bn)
    ensures var y := BlockOf(d', addr[s := b'], bn); y != 0 ==> At(d', y) == At(d, y)
  {
    hide Nodes, NodeAt, Claims, At, Span, Separate, SlotFor, IndexIn, BlockOf;
    var i := SlotFor(bn);
    BlockOfBy(d, addr, bn);
    BlockOfBy(d', addr[s := b'], bn);
    var y := BlockOf(d', addr[s := b'], bn);
    if i != s {
      OtherTree(d, addr, avail, d', avail', s, b', last, i);
      IntactTree(d, d', LevelOf(i), addr[i]);
      if y != 0 {
        DataInClaims(d, addr, bn);
      }
    } else if y != 0 {
      SeparateOnce(Claims(d, addr, 0), avail);
      OnceSlot(d, addr, s);
      LeafNotInner(d, LevelOf(s), addr[s], IndexIn(bn));
      NodeAtMember(d', LevelOf(s), b', IndexIn(bn), 0, 0);
    }
  }

  lemma SlotCutBy(d: Disk, addr: seq<int>, avail: seq<int>, d': Disk, avail': seq<int>, s: nat, b': int, last: int)
    requires |addr| == NADDR && s < NADDR
    requires Separate(Claims(d, addr, 0), avail)
    requires TreeCut(d, avail, d', avail', LevelOf(s), addr[s], b', last)
    ensures SlotCut(d, addr, avail, d', addr[s := b'], avail', s, last)
  {
    hide Nodes, NodeAt, Claims, SlotTrees, At, Span, Separate, SlotFor, IndexIn, BlockOf, SameTree;
    SlotCutTrees(d, addr, avail, d', avail', s, b', last);
    TreeInClaims(d, addr, 0, s);
    forall i | 0 <= i < NADDR && i != s
      ensures Intact(d, d', LevelOf(i), addr[i])
    {
      OtherTree(d, addr, avail, d', avail', s, b', last, i);
    }
    forall bn | 0 <= bn < MAX_BLOCKS
      ensures BlockOf(d', addr[s := b'], bn)
        == if SlotFor(bn) == s && IndexIn(bn) > last then 0 else BlockOf(d, addr, bn)
      ensures var y := BlockOf(d', addr[s := b'], bn); y != 0 ==> At(d', y) == At(d, y)
    {
      SlotCutMap(d, addr, avail, d', avail', s, b', last, bn);
    }
  }

  // All slots.

  /** The blocks of slot i that an inode cut back to logical blocks 0..last still needs. */
  ghost function SlotKept(d: Disk, addr: seq<int>, i: nat, last: int): multiset<int>
    requires |addr| == NADDR && i < NADDR
  {
    var level, r := LevelOf(i), last - FirstOf(i);
    if r < 0 then multiset{} else if r < Span(level) then Kept(d, level, addr[i], r) else Nodes(d, level, addr[i], 0)
  }

  /** Slots n and up have been cut back to logical blocks 0..last; the slots below n are untouched. */
  ghost predicate CutDown(d0: Disk, addr0: seq<int>, avail0: seq<int>, d: Disk, addr: seq<int>,
      avail: seq<int>, n: nat, last: int) {
    && |addr0| == |addr| == NADDR && |d| == |d0| && n <= NADDR
    && avail0 <= avail
    && Claims(d, addr, 0) + multiset(avail) == Claims(d0, addr0, 0) + multiset(avail0)
    && (forall i :: 0 <= i < NADDR ==> addr[i] == if i >= n && FirstOf(i) > last then 0 else addr0[i])
    && (forall i :: 0 <= i < n ==> Intact(d0, d, LevelOf(i), addr0[i]))
    && (forall i :: n <= i < NADDR ==>
          SlotTrees(d, addr, 0)[i] == SlotKept(d0, addr0, i, last) == SlotKept(d, addr, i, last))
    && (forall bn :: 0 <= bn < MAX_BLOCKS ==>
          BlockOf(d, addr, bn) == if SlotFor(bn) >= n && bn > last then 0 else BlockOf(d0, addr0, bn))
    && (forall x :: x !in Claims(d0, addr0, 0) ==> At(d, x) == At(d0, x))
    && (forall bn :: 0 <= bn < MAX_BLOCKS && BlockOf(d, addr, bn) != 0 ==>
          At(d, BlockOf(d, addr, bn)) == At(d0, BlockOf(d, addr, bn)))
  }

  lemma CutDownStart(d: Disk, addr: seq<int>, avail: seq<int>, last: int)
    requires |addr| == NADDR
    ensures CutDown(d, addr, avail, d, addr, avail, NADDR, last)
  {
    hide Nodes, NodeAt, Claims, SlotTrees, At, Span, IndexIn, BlockOf, SameTree, SlotKept;
  }

  /** One more slot. */
  lemma CutDownStep(d0: Disk, addr0: seq<int>, avail0: seq<int>, d: Disk, addr: seq<int>, avail: seq<int>,
                    d': Disk, addr': seq<int>, avail': seq<int>, n: nat, last: int, r: int)
    requires n < NADDR && last < FirstOf(n) + Span(LevelOf(n))
    requires r == if last < FirstOf(n) then -1 else last - FirstOf(n)
    requires CutDown(d0, addr0, avail0, d, addr, avail, n + 1, last)
    requires SlotCut(d, addr, avail, d', addr', avail', n, r)
    requires addr'[n] == if FirstOf(n) > last then 0 else addr0[n]
    requires Nodes(d', LevelOf(n), addr'[n], 0) == SlotKept(d0, addr0, n, last) == SlotKept(d', addr', n, last)
    requires Separate(Claims(d0, addr0, 0), avail0)
    ensures CutDown(d0, addr0, avail0, d', addr', avail', n, last)
  {
    hide Nodes, NodeAt, Claims, SlotTrees, At, Span, IndexIn, BlockOf, SameTree, SlotKept, LevelOf, SlotFor, Separate;
    forall bn | 0 <= bn < MAX_BLOCKS
      ensures BlockOf(d', addr', bn) == if SlotFor(bn) >= n && bn > last then 0 else BlockOf(d0, addr0, bn)
    {
      SlotRange(bn);
    }
    forall i | 0 <= i < n
      ensures Intact(d0, d', LevelOf(i), addr0[i])
    {
      IntactTwice(d0, d, d', LevelOf(i), addr0[i]);
    }
    forall i | n < i < NADDR
      ensures SlotKept(d', addr', i, last) == SlotKept(d, addr, i, last)
    {
      SlotKeptIntact(d, d', addr, addr', i, last);
    }
    forall bn | 0 <= bn < MAX_BLOCKS && BlockOf(d', addr', bn) != 0
      ensures At(d', BlockOf(d', addr', bn)) == At(d0, BlockOf(d', addr', bn))
    {
    }
    forall x | x !in Claims(d0, addr0, 0)
      ensures At(d', x) == At(d0, x)
    {
      CutDownFrame(d0, addr0, avail0, d, addr, avail, d', addr', avail', n, last, r, x);
    }
  }

  lemma CutDownFrame(d0: Disk, addr0: seq<int>, avail0: seq<int>, d: Disk, addr: seq<int>, avail: seq<int>,
                     d': Disk, addr': seq<int>, avail': seq<int>, n: nat, last: int, r: int, x: int)
    requires n < NADDR
    requires CutDown(d0, addr0, avail0, d, addr, avail, n + 1, last)
    requires SlotCut(d, addr, avail, d', addr', avail', n, r)
    requires x !in Claims(d0, addr0, 0)
    ensures At(d', x) == At(d0, x)
  {
    hide Nodes, NodeAt, Claims, SlotTrees, At, Span, IndexIn, BlockOf, SameTree, SlotKept, LevelOf, SlotFor;
    if x in Claims(d, addr, 0) {
      assert avail0 <= avail;
      assert (Claims(d, addr, 0) + multiset(avail))[x] == (Claims(d0, addr0, 0) + multiset(avail0))[x];
      MorePrefix(avail0, avail, x);
    }
  }

  lemma MorePrefix(s: seq<int>, t: seq<int>, x: int)
    requires s <= t
    ensures multiset(s)[x] <= multiset(t)[x]
  {
    assert t == s + t[|s|..];
  }

  /** An untouched slot, while the slots above it are being cut. */
  lemma CutDownTree(d0: Disk, addr0: seq<int>, avail0: seq<int>, d: Disk, addr: seq<int>, avail: seq<int>,
      n: nat, last: int, i: nat, lo: int, hi: int)
    requires CutDown(d0, addr0, avail0, d, addr, avail, n, last) && i < n
    requires Separate(Claims(d0, addr0, 0), avail0) && Inside(Claims(d0, addr0, 0), avail0, lo, hi)
    ensures addr[i] == addr0[i]
    ensures Separate(Claims(d, addr, 0), avail)
    ensures Separate(Nodes(d, LevelOf(i), addr[i], 0), avail) && Inside(Nodes(d, LevelOf(i), addr[i], 0), avail, lo, hi)
    ensures forall r :: -1 <= r < Span(LevelOf(i)) ==>
      Kept(d, LevelOf(i), addr[i], r) == Kept(d0, LevelOf(i), addr[i], r)
  {
    hide Nodes, NodeAt, Claims, SlotTrees, At, Span, IndexIn, BlockOf, SlotKept, LevelOf, SlotFor, Kept, Separate,
      Inside;
    SameUnion(Claims(d0, addr0, 0), avail0, Claims(d, addr, 0), avail, lo, hi);
    TreeOfInode(d, addr, avail, i, lo, hi);
    IntactTree(d0, d, LevelOf(i), addr0[i]);
    forall r | -1 <= r < Span(LevelOf(i))
      ensures Kept(d, LevelOf(i), addr[i], r) == Kept(d0, LevelOf(i), addr[i], r)
    {
      KeptFrame(d0, d, LevelOf(i), addr0[i], r);
    }
  }

  /** The lower slots are needed as a whole: done. */
  lemma CutDownDone(d0: Disk, addr0: seq<int>, avail0: seq<int>, d: Disk, addr: seq<int>, avail: seq<int>,
      n: nat, last: int)
    requires CutDown(d0, addr0, avail0, d, addr, avail, n, last)
    requires forall i :: 0 <= i < n ==> last - FirstOf(i) >= Span(LevelOf(i)) || (LevelOf(i) == 0 && last == FirstOf(i))
    ensures CutDown(d0, addr0, avail0, d, addr, avail, 0, last)
  {
    hide Nodes, NodeAt, Claims, SlotTrees, At, Span, IndexIn, BlockOf, SameTree, SlotKept, LevelOf, SlotFor;
    Spans();
    forall i | 0 <= i < n
      ensures SlotTrees(d, addr, 0)[i] == SlotKept(d0, addr0, i, last) == SlotKept(d, addr, i, last)
    {
      SlotTreesAt(d, addr, 0, i);
      IntactTree(d0, d, LevelOf(i), addr0[i]);
      SlotKeptWhole(d0, addr0, i, last);
      SlotKeptWhole(d, addr, i, last);
    }
    forall bn | 0 <= bn < MAX_BLOCKS && bn > last
      ensures SlotFor(bn) >= n
    {
      SlotRange(bn);
    }
  }

  lemma SlotKeptWhole(d: Disk, addr: seq<int>, i: nat, last: int)
    requires |addr| == NADDR && i < NADDR
    requires last - FirstOf(i) >= Span(LevelOf(i)) || (LevelOf(i) == 0 && last == FirstOf(i))
    ensures SlotKept(d, addr, i, last) == Nodes(d, LevelOf(i), addr[i], 0)
  {
    hide Nodes, Kept, LevelOf;
    Spans();
    NodesStep(d, LevelOf(i), addr[i], 0);
    if last == FirstOf(i) {
      KeptStep(d, LevelOf(i), addr[i], 0);
    }
  }

  lemma SlotKeptIntact(d: Disk, d': Disk, addr: seq<int>, addr': seq<int>, i: nat, last: int)
    requires |addr| == |addr'| == NADDR && i < NADDR && addr'[i] == addr[i] && Intact(d, d', LevelOf(i), addr[i])
    ensures SlotKept(d', addr', i, last) == SlotKept(d, addr, i, last)
  {
    hide Nodes, Kept, At, Span, LevelOf;
    IntactTree(d, d', LevelOf(i), addr[i]);
    if 0 <= last - FirstOf(i) < Span(LevelOf(i)) {
      KeptFrame(d, d', LevelOf(i), addr[i], last - FirstOf(i));
    }
  }

  lemma SlotKeptFrame(d: Disk, d': Disk, addr: seq<int>, i: nat, last: int)
    requires |addr| == NADDR && i < NADDR && SameOn(d, d', Claims(d, addr, 1))
    ensures SlotKept(d', addr, i, last) == SlotKept(d, addr, i, last)
  {
    hide Nodes, Kept, At, Claims, Span;
    TreeInClaims(d, addr, 1, i);
    NodesFrame(d, d', LevelOf(i), addr[i], 0);
    if 0 <= last - FirstOf(i) < Span(LevelOf(i)) {
      KeptFrame(d, d', LevelOf(i), addr[i], last - FirstOf(i));
    }
  }
}
