/** What truncation does to one tree of blocks: which blocks stay, and what every step of freeing the
    others from a copy of the pointers keeps. */
module Shrink {
  import opened DiskFormat
  import opened Tally
  import opened BlockTree
  import opened Growth

  /** The blocks a tree still needs when only data blocks 0..last are kept (last == -1: only the root). */
  ghost function Kept(d: Disk, level: nat, b: int, last: int): multiset<int>
    requires -1 <= last < Span(level)
    decreases level
  {
    if b == 0 then multiset{}
    else if level == 0 || last < 0 then multiset{b}
    else
      var p := Pointers(At(d, b));
      multiset{b} + Sum(Trees(d, level - 1, p, 0)[..Slot(level, last)])
      + Kept(d, level - 1, p[Slot(level, last)], Rest(level, last))
  }

  lemma KeptStep(d: Disk, level: nat, b: int, last: int)
    requires -1 <= last < Span(level)
    ensures b == 0 ==> Kept(d, level, b, last) == multiset{}
    ensures b != 0 && (level == 0 || last < 0) ==> Kept(d, level, b, last) == multiset{b}
    ensures b != 0 && level > 0 && last >= 0 ==>
      var p := Pointers(At(d, b));
      Kept(d, level, b, last) == multiset{b} + Sum(Trees(d, level - 1, p, 0)[..Slot(level, last)])
                                 + Kept(d, level - 1, p[Slot(level, last)], Rest(level, last))
  {
    hide Sum, Trees, Pointers, At, Slot, Rest, Span;
  }

  /** The tree under b was cut back to data blocks 0..last: the blocks it no longer needs are on the free
      list, the map is the old one up to last and empty above, and nothing else is written. */
  ghost predicate Trimmed(d0: Disk, avail0: seq<int>, d: Disk, avail: seq<int>, level: nat, b: int, last: int)
    requires -1 <= last < Span(level)
  {
    && |d| == |d0|
    && avail0 <= avail
    && Nodes(d, level, b, 0) == Kept(d0, level, b, last) == Kept(d, level, b, last)
    && Nodes(d, level, b, 0) + multiset(avail) == Nodes(d0, level, b, 0) + multiset(avail0)
    && (forall k :: 0 <= k < Span(level) ==>
          NodeAt(d, level, b, k, 0) == if k <= last then NodeAt(d0, level, b, k, 0) else 0)
    && (forall x :: x !in Nodes(d0, level, b, 0) ==> At(d, x) == At(d0, x))
    && (forall x :: x in Nodes(d, level, b, 0) && x !in Nodes(d0, level, b, 1) ==> At(d, x) == At(d0, x))
  }

  /** The whole tree under b went to the free list. */
  ghost predicate Gone(d0: Disk, avail0: seq<int>, d: Disk, avail: seq<int>, level: nat, b: int) {
    && |d| == |d0|
    && avail0 <= avail
    && multiset(avail) == multiset(avail0) + Nodes(d0, level, b, 0)
    && (forall x :: x !in Nodes(d0, level, b, 0) ==> At(d, x) == At(d0, x))
  }

  lemma GoneHole(d: Disk, avail: seq<int>, level: nat)
    ensures Gone(d, avail, d, avail, level, 0)
  {
    hide Nodes, At;
    NodesStep(d, level, 0, 0);
    assert multiset(avail) + multiset{} == multiset(avail);
  }

  /** After everything below b was freed, b itself can be freed. */
  lemma LastToGo(d: Disk, avail: seq<int>, d1: Disk, avail1: seq<int>, level: nat, b: int, lo: int, hi: int)
    requires b != 0 && Separate(Nodes(d, level, b, 0), avail) && Inside(Nodes(d, level, b, 0), avail, lo, hi)
    requires Trimmed(d, avail, d1, avail1, level, b, -1)
    ensures b !in avail1 && lo <= b < hi
  {
    hide Nodes, NodeAt, Kept, At, Span;
    SameUnion(Nodes(d, level, b, 0), avail, Nodes(d1, level, b, 0), avail1, lo, hi);
    KeptStep(d, level, b, -1);
    SeparateOnce(Nodes(d1, level, b, 0), avail1);
  }

  lemma GoneWithRoot(d: Disk, avail: seq<int>, d1: Disk, avail1: seq<int>, d2: Disk, level: nat, b: int)
    requires b != 0 && Trimmed(d, avail, d1, avail1, level, b, -1)
    requires |d2| == |d1| && forall x :: x != b ==> At(d2, x) == At(d1, x)
    ensures Gone(d, avail, d2, avail1 + [b], level, b)
  {
    hide Nodes, NodeAt, Kept, At, Span;
    KeptStep(d, level, b, -1);
    RootMember(d, level, b);
    assert multiset(avail1 + [b]) == multiset{b} + multiset(avail1);
    assert multiset(avail) + Nodes(d, level, b, 0) == Nodes(d, level, b, 0) + multiset(avail);
  }

  lemma GoneLeaf(d: Disk, avail: seq<int>, d2: Disk, b: int)
    requires b != 0 && |d2| == |d| && forall x :: x != b ==> At(d2, x) == At(d, x)
    ensures Gone(d, avail, d2, avail + [b], 0, b)
  {
    hide Nodes, At;
    NodesStep(d, 0, b, 0);
    assert multiset(avail + [b]) == multiset(avail) + multiset{b};
  }

  /** While the subtrees of b are freed, last one first: those from i on are gone, those before i are
      untouched, and b itself already holds the shortened block z. */
  ghost predicate Cutting(d0: Disk, avail0: seq<int>, d: Disk, avail: seq<int>, level: nat, b: int, z: Block, i: nat)
    requires level > 0 && i <= NINDIR
  {
    var kids := Trees(d0, level - 1, Pointers(At(d0, b)), 0);
    && |d| == |d0|
    && avail0 <= avail
    && multiset(avail) + Sum(kids[..i]) == multiset(avail0) + Sum(kids)
    && At(d, b) == z
    && (forall x :: x !in Nodes(d0, level, b, 0) ==> At(d, x) == At(d0, x))
    && (forall x :: x in Sum(kids[..i]) ==> At(d, x) == At(d0, x))
  }

  lemma CutStart(d0: Disk, avail: seq<int>, level: nat, b: int, z: Block)
    requires level > 0 && 0 < b < |d0| && Separate(Nodes(d0, level, b, 0), avail)
    ensures forall x :: x in avail ==> At(d0[b := z], x) == At(d0, x)
    ensures Cutting(d0, avail, d0[b := z], avail, level, b, z, NINDIR)
  {
    hide Nodes, Trees, Sum, Pointers, At;
    var kids := Trees(d0, level - 1, Pointers(At(d0, b)), 0);
    AtWrite(d0, b, z);
    RootMember(d0, level, b);
    KidsInTree(d0, level, b, NINDIR);
    SeparateOnce(Nodes(d0, level, b, 0), avail);
    OnceKids(d0, level, b);
    assert kids[..NINDIR] == kids;
  }

  lemma KidsInTree(d: Disk, level: nat, b: int, n: nat)
    requires level > 0 && b != 0 && n <= NINDIR
    ensures Sum(Trees(d, level - 1, Pointers(At(d, b)), 0)[..n]) <= Sum(Trees(d, level - 1, Pointers(At(d, b)), 0))
    ensures Sum(Trees(d, level - 1, Pointers(At(d, b)), 0)) <= Nodes(d, level, b, 0)
  {
    hide Nodes, Trees, Sum, Pointers, At;
    NodesStep(d, level, b, 0);
    SumPrefixLess(Trees(d, level - 1, Pointers(At(d, b)), 0), n);
  }

  /** The next subtree to free is as it was, and apart from the free list. */
  lemma CutChild(d0: Disk, avail0: seq<int>, d: Disk, avail: seq<int>, level: nat, b: int, z: Block, i: nat,
      lo: int, hi: int)
    requires level > 0 && i < NINDIR && b != 0
    requires Cutting(d0, avail0, d, avail, level, b, z, i + 1)
    requires Separate(Nodes(d0, level, b, 0), avail0) && Inside(Nodes(d0, level, b, 0), avail0, lo, hi)
    ensures var c := Pointers(At(d0, b))[i];
      && SameTree(d0, d, level - 1, c)
      && Separate(Nodes(d, level - 1, c, 0), avail) && Inside(Nodes(d, level - 1, c, 0), avail, lo, hi)
      && (c != 0 ==> c in Nodes(d, level - 1, c, 0))
      && (forall x :: x in Nodes(d, level - 1, c, 0) ==> At(d, x) == At(d0, x))
  {
    hide Nodes, Trees, Sum, Pointers, At, NodeAt, Span;
    var p := Pointers(At(d0, b));
    var kids, c := Trees(d0, level - 1, p, 0), p[i];
    SumOfPrefix(kids, i);
    TreesAt(d0, level - 1, p, 0, i);
    KidsInTree(d0, level, b, i + 1);
    FloorMonotone(d0, level - 1, c, 0, 1);
    TreeFrame(d0, d, level - 1, c);
    var m, all := Nodes(d, level - 1, c, 0), Nodes(d0, level, b, 0) + multiset(avail0);
    forall x
      ensures (m + multiset(avail))[x] <= all[x]
    {
      assert (multiset(avail) + Sum(kids[..i + 1]))[x] == (multiset(avail0) + Sum(kids))[x];
    }
    Under(m, avail, Nodes(d0, level, b, 0), avail0, lo, hi);
    if c != 0 {
      RootMember(d, level - 1, c);
    }
  }

  lemma RootMember(d: Disk, level: nat, b: int)
    requires b != 0
    ensures b in Nodes(d, level, b, 0)
  {
    hide Trees, Sum, Pointers, At;
  }

  lemma Under(m: multiset<int>, s: seq<int>, m0: multiset<int>, s0: seq<int>, lo: int, hi: int)
    requires forall x :: (m + multiset(s))[x] <= (m0 + multiset(s0))[x]
    requires Separate(m0, s0) && Inside(m0, s0, lo, hi)
    ensures Separate(m, s) && Inside(m, s, lo, hi)
  {
    forall x | x in m || x in s
      ensures x in m0 || x in s0
    {
      assert (m + multiset(s))[x] > 0;
      assert (m0 + multiset(s0))[x] > 0;
    }
  }

  lemma CutStep(d0: Disk, avail0: seq<int>, d: Disk, avail: seq<int>, d': Disk, avail': seq<int>, level: nat,
      b: int, z: Block, i: nat)
    requires level > 0 && i < NINDIR && b != 0
    requires Cutting(d0, avail0, d, avail, level, b, z, i + 1)
    requires Separate(Nodes(d0, level, b, 0), avail0)
    requires Gone(d, avail, d', avail', level - 1, Pointers(At(d0, b))[i])
    requires Nodes(d, level - 1, Pointers(At(d0, b))[i], 0) == Nodes(d0, level - 1, Pointers(At(d0, b))[i], 0)
    ensures Cutting(d0, avail0, d', avail', level, b, z, i)
  {
    hide Nodes, Trees, Sum, Pointers, At;
    var p := Pointers(At(d0, b));
    var kids, m := Trees(d0, level - 1, p, 0), Nodes(d0, level - 1, p[i], 0);
    SumOfPrefix(kids, i);
    TreesAt(d0, level - 1, p, 0, i);
    KidsInTree(d0, level, b, i + 1);
    SeparateOnce(Nodes(d0, level, b, 0), avail0);
    OnceKids(d0, level, b);
    forall x
      ensures (multiset(avail') + Sum(kids[..i]))[x] == (multiset(avail0) + Sum(kids))[x]
      ensures x in Sum(kids[..i]) ==> x !in m && x in Sum(kids[..i + 1])
      ensures x in m ==> x in Nodes(d0, level, b, 0)
      ensures Sum(kids[..i + 1])[x] == Sum(kids[..i])[x] + m[x]
    {
      assert (multiset(avail) + Sum(kids[..i + 1]))[x] == (multiset(avail0) + Sum(kids))[x];
      assert Sum(kids[..i + 1])[x] <= Sum(kids)[x] <= 1;
    }
    assert b !in m by { assert m <= Sum(kids[..i + 1]) <= Sum(kids); }
  }

  lemma {:induction false} KeptFrame(d: Disk, d': Disk, level: nat, b: int, last: int)
    requires -1 <= last < Span(level) && SameOn(d, d', Nodes(d, level, b, 1))
    ensures Kept(d', level, b, last) == Kept(d, level, b, last)
  {
    hide Kept, Nodes, Trees, Sum, Pointers, At, Span, Slot, Rest;
    KeptStep(d, level, b, last);
    KeptStep(d', level, b, last);
    if b != 0 && level > 0 && last >= 0 {
      NodesStep(d, level, b, 1);
      var p := Pointers(At(d, b));
      forall i | 0 <= i < NINDIR
        ensures SameOn(d, d', Nodes(d, level - 1, p[i], 1))
        ensures Nodes(d, level - 1, p[i], 0) == Nodes(d', level - 1, p[i], 0)
      {
        TreesAt(d, level - 1, p, 1, i);
        SumMember(Trees(d, level - 1, p, 1), i);
        NodesFrame(d, d', level - 1, p[i], 0);
      }
      TreesEqual(d, level - 1, p, d', p, 0);
      KeptFrame(d, d', level - 1, p[Slot(level, last)], Rest(level, last));
    }
  }

  lemma {:induction false} KeptLess(d: Disk, level: nat, b: int, last: int)
    requires -1 <= last < Span(level)
    ensures Kept(d, level, b, last) <= Nodes(d, level, b, 0)
  {
    hide Kept, Nodes, Trees, Sum, Pointers, At, Span, Slot, Rest;
    KeptStep(d, level, b, last);
    NodesStep(d, level, b, 0);
    if b != 0 && level > 0 && last >= 0 {
      var p, c := Pointers(At(d, b)), Slot(level, last);
      var kids := Trees(d, level - 1, p, 0);
      TreesAt(d, level - 1, p, 0, c);
      KeptLess(d, level - 1, p[c], Rest(level, last));
      SumOfPrefix(kids, c);
      SumPrefixLess(kids, c + 1);
    }
  }

  /** A tree that consists of its root needs no work. */
  lemma TrimmedNot(d: Disk, avail: seq<int>, level: nat, b: int, last: int)
    requires -1 <= last < Span(level) && (b == 0 || (level == 0 && last == 0))
    ensures Trimmed(d, avail, d, avail, level, b, last)
  {
    hide Kept, Nodes, NodeAt, At, Span;
    Spans();
    KeptStep(d, level, b, last);
    NodesStep(d, level, b, 0);
    if b == 0 {
      forall k | 0 <= k < Span(level)
        ensures NodeAt(d, level, b, k, 0) == 0
      {
        NodeAtStep(d, level, b, k, 0);
      }
    }
  }

  /** All subtrees are gone. */
  lemma CutAll(d0: Disk, avail0: seq<int>, d: Disk, avail: seq<int>, level: nat, b: int, z: Block)
    requires level > 0 && b != 0
    requires Cutting(d0, avail0, d, avail, level, b, z, 0)
    requires forall i :: 0 <= i < NINDIR ==> Pointers(z)[i] == 0
    ensures Trimmed(d0, avail0, d, avail, level, b, -1)
  {
    hide Kept, Nodes, NodeAt, Trees, Sum, Pointers, At, Span, Slot, Rest;
    KeptStep(d0, level, b, -1);
    KeptStep(d, level, b, -1);
    NodesStep(d0, level, b, 0);
    NodesStep(d0, level, b, 1);
    NodesStep(d, level, b, 0);
    var kids, ms := Trees(d0, level - 1, Pointers(At(d0, b)), 0), Trees(d, level - 1, Pointers(z), 0);
    forall i | 0 <= i < NINDIR
      ensures ms[i] == multiset{}
    {
      TreesAt(d, level - 1, Pointers(z), 0, i);
      NodesStep(d, level - 1, 0, 0);
    }
    SumEmpty(ms);
    SumEmpty(kids[..0]);
    assert multiset(avail) + multiset{} == multiset(avail);
    forall k | 0 <= k < Span(level)
      ensures NodeAt(d, level, b, k, 0) == 0
    {
      NodeAtStep(d, level, b, k, 0);
      NodeAtStep(d, level - 1, 0, Rest(level, k), 0);
    }
  }

  /** Everything above the subtree that holds `last` is gone, and that subtree has been trimmed. */
  ghost predicate CutAndTrimmed(d0: Disk, avail0: seq<int>, d1: Disk, avail1: seq<int>, d: Disk, avail: seq<int>,
                                level: nat, b: int, z: Block, last: nat)
    requires level > 0 && b != 0 && last < Span(level)
  {
    hide *;
    var p, c := Pointers(At(d0, b)), Slot(level, last);
    && Separate(Nodes(d0, level, b, 0), avail0)
    && Cutting(d0, avail0, d1, avail1, level, b, z, c + 1)
    && (forall i :: 0 <= i < NINDIR ==> Pointers(z)[i] == if i <= c then p[i] else 0)
    && SameTree(d0, d1, level - 1, p[c])
    && Trimmed(d1, avail1, d, avail, level - 1, p[c], Rest(level, last))
  }

  lemma CutSame(d0: Disk, avail0: seq<int>, d1: Disk, avail1: seq<int>, d: Disk, avail: seq<int>,
                level: nat, b: int, z: Block, last: nat, x: int)
    requires level > 0 && b != 0 && last < Span(level)
    requires CutAndTrimmed(d0, avail0, d1, avail1, d, avail, level, b, z, last)
    ensures var p, c := Pointers(At(d0, b)), Slot(level, last);
      && (x in Sum(Trees(d0, level - 1, p, 0)[..c]) ==>
            x !in Nodes(d0, level - 1, p[c], 0) && At(d, x) == At(d0, x))
      && (x in Nodes(d0, level - 1, p[c], 0) ==> x in Nodes(d0, level, b, 0) && At(d1, x) == At(d0, x))
      && Sum(Trees(d0, level - 1, p, 0)[..c + 1]) ==
            Sum(Trees(d0, level - 1, p, 0)[..c]) + Nodes(d0, level - 1, p[c], 0)
      && At(d, b) == z
  {
    hide Kept, Nodes, NodeAt, Trees, Sum, Pointers, At, Span, Slot, Rest;
    var p, c := Pointers(At(d0, b)), Slot(level, last);
    var kids := Trees(d0, level - 1, p, 0);
    SumOfPrefix(kids, c);
    TreesAt(d0, level - 1, p, 0, c);
    KidsInTree(d0, level, b, c + 1);
    SeparateOnce(Nodes(d0, level, b, 0), avail0);
    OnceKids(d0, level, b);
    var m, rest := Nodes(d0, level - 1, p[c], 0), Sum(kids[..c]);
    assert m <= Sum(kids[..c + 1]) && rest <= Sum(kids[..c + 1]);
    assert m[x] + rest[x] == Sum(kids[..c + 1])[x] <= Sum(kids)[x] <= 1;
    assert b !in m;
  }

  lemma CutSiblings(d0: Disk, avail0: seq<int>, d1: Disk, avail1: seq<int>, d: Disk, avail: seq<int>,
                    level: nat, b: int, z: Block, last: nat, i: nat)
    requires level > 0 && b != 0 && last < Span(level)
    requires CutAndTrimmed(d0, avail0, d1, avail1, d, avail, level, b, z, last)
    requires i < Slot(level, last)
    ensures SameTree(d0, d, level - 1, Pointers(At(d0, b))[i])
  {
    hide Kept, Nodes, NodeAt, Trees, Sum, Pointers, At, Span, Slot, Rest, SameTree, Trimmed, Cutting, CutAndTrimmed;
    var p, c := Pointers(At(d0, b)), Slot(level, last);
    var kids := Trees(d0, level - 1, p, 0);
    TreesAt(d0, level - 1, p, 0, i);
    SumMember(kids[..c], i);
    FloorMonotone(d0, level - 1, p[i], 0, 1);
    forall x | x in Nodes(d0, level - 1, p[i], 1)
      ensures At(d, x) == At(d0, x)
    {
      CutSame(d0, avail0, d1, avail1, d, avail, level, b, z, last, x);
    }
    TreeFrame(d0, d, level - 1, p[i]);
  }

  lemma CutChildSame(d0: Disk, avail0: seq<int>, d1: Disk, avail1: seq<int>, d: Disk, avail: seq<int>,
                     level: nat, b: int, z: Block, last: nat, c: int)
    requires level > 0 && b != 0 && last < Span(level) && c == Pointers(At(d0, b))[Slot(level, last)]
    requires CutAndTrimmed(d0, avail0, d1, avail1, d, avail, level, b, z, last)
    ensures SameOn(d0, d1, Nodes(d0, level - 1, c, 1))
  {
    hide Kept, Nodes, NodeAt, Trees, Sum, Pointers, At, Span, Slot, Rest, SameTree, Trimmed, Cutting, CutAndTrimmed;
    FloorMonotone(d0, level - 1, c, 0, 1);
    forall x | x in Nodes(d0, level - 1, c, 1)
      ensures At(d1, x) == At(d0, x)
    {
      CutSame(d0, avail0, d1, avail1, d, avail, level, b, z, last, x);
    }
  }

  lemma CutNodes(d0: Disk, avail0: seq<int>, d1: Disk, avail1: seq<int>, d: Disk, avail: seq<int>,
                 level: nat, b: int, z: Block, last: nat)
    requires level > 0 && b != 0 && last < Span(level)
    requires CutAndTrimmed(d0, avail0, d1, avail1, d, avail, level, b, z, last)
    ensures Nodes(d, level, b, 0) == Kept(d0, level, b, last)
  {
    hide Kept, Nodes, NodeAt, Trees, Sum, Pointers, At, Span, Slot, Rest, Cutting;
    var p, p', c := Pointers(At(d0, b)), Pointers(z), Slot(level, last);
    CutSame(d0, avail0, d1, avail1, d, avail, level, b, z, last, b);
    KeptStep(d0, level, b, last);
    NodesStep(d, level, b, 0);
    CutChildSame(d0, avail0, d1, avail1, d, avail, level, b, z, last, p[c]);
    KeptFrame(d0, d1, level - 1, p[c], Rest(level, last));
    var kids, ms := Trees(d0, level - 1, p, 0), Trees(d, level - 1, p', 0);
    forall i | 0 <= i < NINDIR
      ensures i < c ==> ms[i] == kids[i]
      ensures i == c ==> ms[i] == Kept(d0, level - 1, p[c], Rest(level, last))
      ensures i > c ==> ms[i] == multiset{}
    {
      TreesAt(d0, level - 1, p, 0, i);
      TreesAt(d, level - 1, p', 0, i);
      NodesStep(d, level - 1, 0, 0);
      if i < c {
        CutSiblings(d0, avail0, d1, avail1, d, avail, level, b, z, last, i);
      }
    }
    SumEmptyTail(ms, c + 1);
    SumOfPrefix(ms, c);
    assert ms[..c] == kids[..c];
    var m, k := Sum(kids[..c]), Kept(d0, level - 1, p[c], Rest(level, last));
    assert multiset{b} + (m + k) == multiset{b} + m + k;
  }

  /** A tree without blocks behind `last` needs all its blocks. */
  lemma KeptWhole(d: Disk, level: nat, b: int, last: nat)
    requires level > 0 && b != 0 && last < Span(level)
    requires var p, c := Pointers(At(d, b)), Slot(level, last);
      && Nodes(d, level - 1, p[c], 0) == Kept(d, level - 1, p[c], Rest(level, last))
      && forall i :: c < i < NINDIR ==> p[i] == 0
    ensures Kept(d, level, b, last) == Nodes(d, level, b, 0)
  {
    hide Kept, Nodes, Trees, Sum, Pointers, At, Span, Slot, Rest;
    var p, c := Pointers(At(d, b)), Slot(level, last);
    KeptStep(d, level, b, last);
    NodesStep(d, level, b, 0);
    var kids := Trees(d, level - 1, p, 0);
    forall i | c < i < NINDIR
      ensures kids[i] == multiset{}
    {
      TreesAt(d, level - 1, p, 0, i);
      NodesStep(d, level - 1, 0, 0);
    }
    TreesAt(d, level - 1, p, 0, c);
    SumLast(kids, c);
    Regroup(multiset{b}, Sum(kids[..c]), kids[c]);
  }

  lemma SumLast(ms: seq<multiset<int>>, c: nat)
    requires c < |ms| && forall i :: c < i < |ms| ==> ms[i] == multiset{}
    ensures Sum(ms) == Sum(ms[..c]) + ms[c]
  {
    hide Sum;
    SumEmptyTail(ms, c + 1);
    SumOfPrefix(ms, c);
  }

  lemma Regroup(a: multiset<int>, b: multiset<int>, c: multiset<int>)
    ensures a + (b + c) == a + b + c
  {
  }

  lemma CutNodesAgain(d0: Disk, avail0: seq<int>, d1: Disk, avail1: seq<int>, d: Disk, avail: seq<int>,
                      level: nat, b: int, z: Block, last: nat)
    requires level > 0 && b != 0 && last < Span(level)
    requires CutAndTrimmed(d0, avail0, d1, avail1, d, avail, level, b, z, last)
    ensures Nodes(d, level, b, 0) == Kept(d, level, b, last)
  {
    hide Kept, Nodes, NodeAt, Trees, Sum, Pointers, At, Span, Slot, Rest, Cutting, SameTree;
    CutSame(d0, avail0, d1, avail1, d, avail, level, b, z, last, b);
    KeptWhole(d, level, b, last);
  }

  lemma CutMap(d0: Disk, avail0: seq<int>, d1: Disk, avail1: seq<int>, d: Disk, avail: seq<int>,
               level: nat, b: int, z: Block, last: nat, k: nat)
    requires level > 0 && b != 0 && last < Span(level)
    requires CutAndTrimmed(d0, avail0, d1, avail1, d, avail, level, b, z, last) && k < Span(level)
    ensures NodeAt(d, level, b, k, 0) == if k <= last then NodeAt(d0, level, b, k, 0) else 0
  {
    hide Kept, Nodes, NodeAt, Trees, Sum, Pointers, At, Span, Slot, Rest;
    var p, p', c, i := Pointers(At(d0, b)), Pointers(z), Slot(level, last), Slot(level, k);
    CutSame(d0, avail0, d1, avail1, d, avail, level, b, z, last, b);
    NodeAtStep(d0, level, b, k, 0);
    NodeAtStep(d, level, b, k, 0);
    SplitOrder(level, k, last);
    SplitOrder(level, last, k);
    if i < c {
      CutSiblings(d0, avail0, d1, avail1, d, avail, level, b, z, last, i);
    } else if i > c {
      NodeAtStep(d, level - 1, 0, Rest(level, k), 0);
    }
  }

  /** The subtrees above `last` are gone and the one that holds it is trimmed: the tree is trimmed. */
  lemma CutPart(d0: Disk, avail0: seq<int>, d1: Disk, avail1: seq<int>, d: Disk, avail: seq<int>,
                level: nat, b: int, z: Block, last: nat)
    requires level > 0 && b != 0 && last < Span(level)
    requires CutAndTrimmed(d0, avail0, d1, avail1, d, avail, level, b, z, last)
    ensures Trimmed(d0, avail0, d, avail, level, b, last)
  {
    hide Kept, Nodes, NodeAt, Trees, Sum, Pointers, At, Span, Slot, Rest, Cutting;
    var p, c := Pointers(At(d0, b)), Slot(level, last);
    CutNodes(d0, avail0, d1, avail1, d, avail, level, b, z, last);
    CutNodesAgain(d0, avail0, d1, avail1, d, avail, level, b, z, last);
    CutConserves(d0, avail0, d1, avail1, d, avail, level, b, z, last);
    assert |d| == |d0| && avail0 <= avail by {
      CutSizes(d0, avail0, d1, avail1, d, avail, level, b, z, last);
    }
    forall k | 0 <= k < Span(level)
      ensures NodeAt(d, level, b, k, 0) == if k <= last then NodeAt(d0, level, b, k, 0) else 0
    {
      CutMap(d0, avail0, d1, avail1, d, avail, level, b, z, last, k);
    }
    forall x
      ensures x !in Nodes(d0, level, b, 0) ==> At(d, x) == At(d0, x)
      ensures x in Nodes(d, level, b, 0) && x !in Nodes(d0, level, b, 1) ==> At(d, x) == At(d0, x)
    {
      CutFrame(d0, avail0, d1, avail1, d, avail, level, b, z, last, x);
    }
  }

  lemma CutSizes(d0: Disk, avail0: seq<int>, d1: Disk, avail1: seq<int>, d: Disk, avail: seq<int>,
                 level: nat, b: int, z: Block, last: nat)
    requires level > 0 && b != 0 && last < Span(level)
    requires CutAndTrimmed(d0, avail0, d1, avail1, d, avail, level, b, z, last)
    ensures |d| == |d0| && avail0 <= avail
  {
    hide Kept, Nodes, NodeAt, Trees, Sum, Pointers, At, Span, Slot, Rest, SameTree;
  }

  lemma CutConserves(d0: Disk, avail0: seq<int>, d1: Disk, avail1: seq<int>, d: Disk, avail: seq<int>,
                     level: nat, b: int, z: Block, last: nat)
    requires level > 0 && b != 0 && last < Span(level)
    requires CutAndTrimmed(d0, avail0, d1, avail1, d, avail, level, b, z, last)
    ensures Kept(d0, level, b, last) + multiset(avail) == Nodes(d0, level, b, 0) + multiset(avail0)
  {
    hide Kept, Nodes, NodeAt, Trees, Sum, Pointers, At, Span, Slot, Rest;
    var p, c := Pointers(At(d0, b)), Slot(level, last);
    CutSame(d0, avail0, d1, avail1, d, avail, level, b, z, last, b);
    KeptStep(d0, level, b, last);
    NodesStep(d0, level, b, 0);
    CutChildSame(d0, avail0, d1, avail1, d, avail, level, b, z, last, p[c]);
    KeptFrame(d0, d1, level - 1, p[c], Rest(level, last));
    var kids := Trees(d0, level - 1, p, 0);
    var k, m := Kept(d0, level - 1, p[c], Rest(level, last)), Nodes(d0, level - 1, p[c], 0);
    forall x
      ensures (Kept(d0, level, b, last) + multiset(avail))[x] == (Nodes(d0, level, b, 0) + multiset(avail0))[x]
    {
      assert (k + multiset(avail))[x] == (m + multiset(avail1))[x];
      assert (multiset(avail1) + Sum(kids[..c + 1]))[x] == (multiset(avail0) + Sum(kids))[x];
      assert Kept(d0, level, b, last)[x] == multiset{b}[x] + Sum(kids[..c])[x] + k[x];
      assert Nodes(d0, level, b, 0)[x] == multiset{b}[x] + Sum(kids)[x];
    }
  }

  lemma CutFrame(d0: Disk, avail0: seq<int>, d1: Disk, avail1: seq<int>, d: Disk, avail: seq<int>,
                 level: nat, b: int, z: Block, last: nat, x: int)
    requires level > 0 && b != 0 && last < Span(level)
    requires CutAndTrimmed(d0, avail0, d1, avail1, d, avail, level, b, z, last)
    ensures x !in Nodes(d0, level, b, 0) ==> At(d, x) == At(d0, x)
    ensures x in Nodes(d, level, b, 0) && x !in Nodes(d0, level, b, 1) ==> At(d, x) == At(d0, x)
  {
    hide Kept, Nodes, NodeAt, Trees, Sum, Pointers, At, Span, Slot, Rest;
    var p, c := Pointers(At(d0, b)), Slot(level, last);
    CutSame(d0, avail0, d1, avail1, d, avail, level, b, z, last, x);
    if x in Nodes(d, level, b, 0) && x !in Nodes(d0, level, b, 1) {
      CutNodes(d0, avail0, d1, avail1, d, avail, level, b, z, last);
      KeptStep(d0, level, b, last);
      NodesStep(d0, level, b, 1);
      TreesAt(d0, level - 1, p, 1, c);
      SumMember(Trees(d0, level - 1, p, 1), c);
      KeptLess(d0, level - 1, p[c], Rest(level, last));
      KeptLess(d1, level - 1, p[c], Rest(level, last));
      CutChildSame(d0, avail0, d1, avail1, d, avail, level, b, z, last, p[c]);
      KeptFrame(d0, d1, level - 1, p[c], Rest(level, last));
    }
  }

  /** Once all subtrees are gone, freeing b as well makes the whole tree gone. */
  lemma CutGone(d0: Disk, avail0: seq<int>, d: Disk, avail: seq<int>, d': Disk, level: nat, b: int, z: Block)
    requires level > 0 && b != 0
    requires Cutting(d0, avail0, d, avail, level, b, z, 0)
    requires |d'| == |d| && forall x :: x != b ==> At(d', x) == At(d, x)
    ensures Gone(d0, avail0, d', avail + [b], level, b)
  {
    hide Nodes, Trees, Sum, Pointers, At;
    NodesStep(d0, level, b, 0);
    RootMember(d0, level, b);
    var kids := Trees(d0, level - 1, Pointers(At(d0, b)), 0);
    SumEmpty(kids[..0]);
    assert multiset(avail) + multiset{} == multiset(avail);
    assert multiset(avail + [b]) == multiset(avail) + multiset{b};
    assert multiset(avail0) + Sum(kids) + multiset{b} == multiset(avail0) + (multiset{b} + Sum(kids));
  }

  /** The root itself stays off the free list as long as it is not freed. */
  lemma RootApart(d0: Disk, avail0: seq<int>, d: Disk, avail: seq<int>, level: nat, b: int, z: Block, i: nat,
      lo: int, hi: int)
    requires level > 0 && i <= NINDIR && b != 0
    requires Cutting(d0, avail0, d, avail, level, b, z, i)
    requires Separate(Nodes(d0, level, b, 0), avail0) && Inside(Nodes(d0, level, b, 0), avail0, lo, hi)
    ensures b !in avail && lo <= b < hi
  {
    hide Nodes, Trees, Sum, Pointers, At;
    RootMember(d0, level, b);
    OnceKidsOf(d0, avail0, level, b);
    var kids := Trees(d0, level - 1, Pointers(At(d0, b)), 0);
    assert (multiset(avail) + Sum(kids[..i]))[b] == (multiset(avail0) + Sum(kids))[b];
  }

  lemma OnceKidsOf(d: Disk, avail: seq<int>, level: nat, b: int)
    requires level > 0 && b != 0 && Separate(Nodes(d, level, b, 0), avail)
    ensures b !in Sum(Trees(d, level - 1, Pointers(At(d, b)), 0)) && b !in avail
  {
    hide Nodes, Trees, Sum, Pointers, At;
    SeparateOnce(Nodes(d, level, b, 0), avail);
    OnceKids(d, level, b);
    RootMember(d, level, b);
  }
}
