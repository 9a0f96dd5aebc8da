/** The tree of blocks behind one address slot of an inode: level 0 is a data block, level n > 0 an
    indirect block whose NINDIR pointers lead to trees of level n - 1. Pointer 0 means a hole. */
module BlockTree {
  import opened DiskFormat
  import opened Tally

  // Index arithmetic.

  /** Number of data blocks a tree of the given level can index. */
  function Span(level: nat): (s: nat)
    ensures s > 0
  {
    if level == 0 then 1 else NINDIR * Span(level - 1)
  }

  lemma Spans()
    ensures Span(0) == 1 && Span(1) == 256 && Span(2) == 65536 && Span(3) == 16777216
  {
    assert Span(1) == 256 * Span(0);
    assert Span(2) == 256 * Span(1);
    assert Span(3) == 256 * Span(2);
  }

  /** The pointer followed in a tree of the given level on the way to data block k, ... */
  function Slot(level: nat, k: nat): (i: nat)
    requires 0 < level && k < Span(level)
    ensures i < NINDIR
  {
    Cancel(k / Span(level - 1), NINDIR, Span(level - 1), k);
    k / Span(level - 1)
  }

  /** ... and the index of k in the subtree it leads to. */
  function Rest(level: nat, k: nat): (r: nat)
    requires 0 < level
    ensures r < Span(level - 1)
  {
    k % Span(level - 1)
  }

  lemma Cancel(a: nat, b: nat, s: nat, k: nat)
    requires s > 0 && a == k / s && k < b * s
    ensures a < b
  {
    assert a * s <= k;
    assert 0 < (b - a) * s;
  }

  lemma SplitInjective(level: nat, k: nat, k': nat)
    requires 0 < level && k < Span(level) && k' < Span(level)
    requires Slot(level, k) == Slot(level, k') && Rest(level, k) == Rest(level, k')
    ensures k == k'
  {
    var s := Span(level - 1);
    assert k == k / s * s + k % s && k' == k' / s * s + k' % s;
  }

  lemma SplitOrder(level: nat, k: nat, k': nat)
    requires 0 < level && k < Span(level) && k' < Span(level)
    ensures Slot(level, k) < Slot(level, k') ==> k < k'
    ensures Slot(level, k) == Slot(level, k') ==> (k <= k' <==> Rest(level, k) <= Rest(level, k'))
  {
    hide Span;
    var s, i, i' := Span(level - 1), Slot(level, k), Slot(level, k');
    assert k == i * s + k % s && k' == i' * s + k' % s;
    if i < i' {
      DigitOrder(i, i', s, k % s, k' % s);
    }
  }

  lemma DigitOrder(i: nat, i': nat, s: nat, r: nat, r': nat)
    requires i < i' && r < s
    ensures i * s + r < i' * s + r'
  {
    Distribute(i, i' - i, s);
    Distribute(i' - i - 1, 1, s);
  }

  lemma Distribute(a: nat, b: nat, s: nat)
    ensures (a + b) * s == a * s + b * s
  {
  }

  /** Data blocks k and k' are reached through the same block at height `floor`. */
  predicate Shared(k: nat, k': nat, floor: nat) {
    k / Span(floor) == k' / Span(floor)
  }

  lemma SharedTop(level: nat, k: nat, k': nat)
    requires k < Span(level) && k' < Span(level)
    ensures Shared(k, k', level)
  {
    hide Span;
    Below(k, Span(level));
    Below(k', Span(level));
  }

  lemma Below(k: nat, s: nat)
    requires k < s
    ensures k / s == 0
  {
  }

  lemma SharedStep(level: nat, k: nat, k': nat, floor: nat)
    requires level <= 3 && k < Span(level) && k' < Span(level)
    ensures floor < level ==>
      (Shared(k, k', floor) <==> Slot(level, k) == Slot(level, k') && Shared(Rest(level, k), Rest(level, k'), floor))
  {
    Spans();
    if floor < level {
      Digits(k, level - 1, floor);
      Digits(k', level - 1, floor);
      if Slot(level, k) != Slot(level, k') {
        assert k / Span(floor) / (Span(level - 1) / Span(floor)) != k' / Span(floor) / (Span(level - 1) / Span(floor));
      }
    }
  }

  lemma Digits(k: nat, high: nat, low: nat)
    requires low <= high <= 2
    ensures Span(low) > 0 && Span(high) / Span(low) > 0
    ensures k / Span(high) == k / Span(low) / (Span(high) / Span(low))
    ensures k / Span(low) == k / Span(high) * (Span(high) / Span(low)) + k % Span(high) / Span(low)
  {
    Spans();
  }

  // Trees.

  /** All blocks of the tree at `floor` levels or more above the data, each as often as it is pointed to. */
  ghost function Nodes(d: Disk, level: nat, b: int, floor: nat): multiset<int>
    decreases level, 0
  {
    if b == 0 || level < floor then multiset{}
    else if level == 0 then multiset{b}
    else multiset{b} + Sum(Trees(d, level - 1, Pointers(At(d, b)), floor))
  }

  ghost function Trees(d: Disk, level: nat, roots: seq<int>, floor: nat): (ms: seq<multiset<int>>)
    ensures |ms| == |roots|
    decreases level, 1
  {
    seq(|roots|, i requires 0 <= i < |roots| => Nodes(d, level, roots[i], floor))
  }

  /** The block `floor` levels above the data on the way to data block k, or 0. */
  function NodeAt(d: Disk, level: nat, b: int, k: nat, floor: nat): int
    requires k < Span(level) && floor <= level
  {
    if b == 0 || level == floor then b
    else NodeAt(d, level - 1, Pointers(At(d, b))[Slot(level, k)], Rest(level, k), floor)
  }

  /** Same contents in every block of m. */
  ghost predicate SameOn(d: Disk, d': Disk, m: multiset<int>) {
    forall x :: x in m ==> At(d', x) == At(d, x)
  }

  // One step of the definitions, for proofs that hide the bodies.

  lemma TreesAt(d: Disk, level: nat, roots: seq<int>, floor: nat, i: nat)
    requires i < |roots|
    ensures Trees(d, level, roots, floor)[i] == Nodes(d, level, roots[i], floor)
  {
    hide Nodes;
  }

  lemma TreesEqual(d: Disk, level: nat, roots: seq<int>, d': Disk, roots': seq<int>, floor: nat)
    requires |roots| == |roots'|
    requires forall i :: 0 <= i < |roots| ==> Nodes(d, level, roots[i], floor) == Nodes(d', level, roots'[i], floor)
    ensures Trees(d, level, roots, floor) == Trees(d', level, roots', floor)
  {
    hide Nodes;
  }

  lemma NodesStep(d: Disk, level: nat, b: int, floor: nat)
    ensures b == 0 || level < floor ==> Nodes(d, level, b, floor) == multiset{}
    ensures b != 0 && level == floor == 0 ==> Nodes(d, level, b, floor) == multiset{b}
    ensures b != 0 && level >= floor && level > 0 ==>
      Nodes(d, level, b, floor) == multiset{b} + Sum(Trees(d, level - 1, Pointers(At(d, b)), floor))
  {
    hide Sum, Trees, Pointers, At;
  }

  lemma NodeAtStep(d: Disk, level: nat, b: int, k: nat, floor: nat)
    requires k < Span(level) && floor <= level
    ensures b == 0 || level == floor ==> NodeAt(d, level, b, k, floor) == b
    ensures b != 0 && level > floor ==>
      NodeAt(d, level, b, k, floor)
      == NodeAt(d, level - 1, Pointers(At(d, b))[Slot(level, k)], Rest(level, k), floor)
  {
    hide Pointers, At, Slot, Rest, Span;
  }

  /** Below a missing block everything is missing. */
  lemma {:induction false} HoleBelow(d: Disk, level: nat, b: int, k: nat, t: nat, t': nat)
    requires k < Span(level) && t' <= t <= level && NodeAt(d, level, b, k, t) == 0
    ensures NodeAt(d, level, b, k, t') == 0
  {
    hide NodeAt, Span, Pointers, At, Slot, Rest;
    NodeAtStep(d, level, b, k, t);
    NodeAtStep(d, level, b, k, t');
    if b != 0 && level > t {
      HoleBelow(d, level - 1, Pointers(At(d, b))[Slot(level, k)], Rest(level, k), t, t');
    }
  }

  // Framing.

  /** A tree depends only on its indirect blocks. */
  lemma {:induction false} NodesFrame(d: Disk, d': Disk, level: nat, b: int, floor: nat)
    requires SameOn(d, d', Nodes(d, level, b, 1))
    ensures Nodes(d', level, b, floor) == Nodes(d, level, b, floor)
  {
    hide Nodes, Trees, Pointers, At, Sum;
    NodesStep(d, level, b, floor);
    NodesStep(d', level, b, floor);
    if b != 0 && level >= floor && level > 0 {
      NodesStep(d, level, b, 1);
      var p := Pointers(At(d, b));
      forall i | 0 <= i < NINDIR
        ensures Nodes(d, level - 1, p[i], floor) == Nodes(d', level - 1, p[i], floor)
      {
        TreesAt(d, level - 1, p, 1, i);
        SumMember(Trees(d, level - 1, p, 1), i);
        NodesFrame(d, d', level - 1, p[i], floor);
      }
      TreesEqual(d, level - 1, p, d', p, floor);
    }
  }

  lemma {:induction false} NodeAtFrame(d: Disk, d': Disk, level: nat, b: int, k: nat, floor: nat)
    requires SameOn(d, d', Nodes(d, level, b, 1)) && k < Span(level) && floor <= level
    ensures NodeAt(d', level, b, k, floor) == NodeAt(d, level, b, k, floor)
  {
    hide Nodes, NodeAt, Trees, Pointers, At, Sum, Span, Slot, Rest;
    NodeAtStep(d, level, b, k, floor);
    NodeAtStep(d', level, b, k, floor);
    if b != 0 && level > floor {
      NodesStep(d, level, b, 1);
      var p := Pointers(At(d, b));
      TreesAt(d, level - 1, p, 1, Slot(level, k));
      SumMember(Trees(d, level - 1, p, 1), Slot(level, k));
      NodeAtFrame(d, d', level - 1, p[Slot(level, k)], Rest(level, k), floor);
    }
  }

  /** The same tree, block for block, on both disks. */
  ghost predicate SameTree(d: Disk, d': Disk, level: nat, b: int) {
    && (forall floor: nat :: Nodes(d', level, b, floor) == Nodes(d, level, b, floor))
    && (forall k, floor :: 0 <= k < Span(level) && 0 <= floor <= level ==>
          NodeAt(d', level, b, k, floor) == NodeAt(d, level, b, k, floor))
  }

  lemma TreeFrame(d: Disk, d': Disk, level: nat, b: int)
    requires SameOn(d, d', Nodes(d, level, b, 1))
    ensures SameTree(d, d', level, b)
  {
    hide Nodes, NodeAt, SameOn, Span;
    forall floor: nat
      ensures Nodes(d', level, b, floor) == Nodes(d, level, b, floor)
    {
      NodesFrame(d, d', level, b, floor);
    }
    forall k, floor | 0 <= k < Span(level) && 0 <= floor <= level
      ensures NodeAt(d', level, b, k, floor) == NodeAt(d, level, b, k, floor)
    {
      NodeAtFrame(d, d', level, b, k, floor);
    }
  }

  // Counting.

  lemma {:induction false} FloorMonotone(d: Disk, level: nat, b: int, low: nat, high: nat)
    requires low <= high
    ensures Nodes(d, level, b, high) <= Nodes(d, level, b, low)
    decreases level, 1
  {
    hide *;
    NodesStep(d, level, b, low);
    NodesStep(d, level, b, high);
    if b != 0 && level >= high && level > 0 {
      var p := Pointers(At(d, b));
      TreesMonotone(d, level, p, low, high);
      SumMonotone(Trees(d, level - 1, p, high), Trees(d, level - 1, p, low));
    }
  }

  lemma {:induction false} TreesMonotone(d: Disk, level: nat, p: seq<int>, low: nat, high: nat)
    requires low <= high && level > 0
    ensures var less, more := Trees(d, level - 1, p, high), Trees(d, level - 1, p, low);
      forall i :: 0 <= i < |p| ==> less[i] <= more[i]
    decreases level, 0
  {
    hide *;
    var less, more := Trees(d, level - 1, p, high), Trees(d, level - 1, p, low);
    forall i | 0 <= i < |p|
      ensures less[i] <= more[i]
    {
      TreesAt(d, level - 1, p, low, i);
      TreesAt(d, level - 1, p, high, i);
      FloorMonotone(d, level - 1, p[i], low, high);
    }
  }

  /** Every block of the tree, data included, has the same contents on both disks. */
  ghost predicate Intact(d: Disk, d': Disk, level: nat, b: int) {
    SameOn(d, d', Nodes(d, level, b, 0))
  }

  lemma IntactTree(d: Disk, d': Disk, level: nat, b: int)
    requires Intact(d, d', level, b)
    ensures SameTree(d, d', level, b)
    ensures SameOn(d, d', Nodes(d, level, b, 1))
    ensures Nodes(d', level, b, 0) == Nodes(d, level, b, 0)
  {
    hide Nodes, NodeAt, Span, At;
    FloorMonotone(d, level, b, 0, 1);
    TreeFrame(d, d', level, b);
  }

  lemma IntactTwice(d0: Disk, d: Disk, d': Disk, level: nat, b: int)
    requires Intact(d0, d, level, b) && Intact(d, d', level, b)
    ensures Intact(d0, d', level, b)
  {
    hide Nodes, NodeAt, Span, At;
    IntactTree(d0, d, level, b);
  }

  /** A block on the way to some data block is counted once more at its own height than above it. */
  lemma {:induction false} NodeCounted(d: Disk, level: nat, b: int, k: nat, floor: nat)
    requires k < Span(level) && floor <= level && NodeAt(d, level, b, k, floor) != 0
    ensures var x := NodeAt(d, level, b, k, floor);
      Nodes(d, level, b, floor)[x] > Nodes(d, level, b, floor + 1)[x]
  {
    hide *;
    var x := NodeAt(d, level, b, k, floor);
    NodeAtStep(d, level, b, k, floor);
    NodesStep(d, level, b, floor);
    NodesStep(d, level, b, floor + 1);
    if level > floor {
      var p, c := Pointers(At(d, b)), Slot(level, k);
      NodeAtStep(d, level, 0, k, floor);
      NodeCounted(d, level - 1, p[c], Rest(level, k), floor);
      TreesAt(d, level - 1, p, floor, c);
      TreesAt(d, level - 1, p, floor + 1, c);
      TreesMonotone(d, level, p, floor, floor + 1);
      SumStrict(Trees(d, level - 1, p, floor + 1), Trees(d, level - 1, p, floor), c, x);
    }
  }

  lemma NodeAtMember(d: Disk, level: nat, b: int, k: nat, floor: nat, low: nat)
    requires k < Span(level) && low <= floor <= level
    requires NodeAt(d, level, b, k, floor) != 0
    ensures NodeAt(d, level, b, k, floor) in Nodes(d, level, b, low)
  {
    hide *;
    NodeCounted(d, level, b, k, floor);
    FloorMonotone(d, level, b, low, floor);
  }

  /** In a tree without repetitions a data block is not also an indirect block. */
  lemma LeafNotInner(d: Disk, level: nat, b: int, k: nat)
    requires k < Span(level) && Once(Nodes(d, level, b, 0))
    requires NodeAt(d, level, b, k, 0) != 0
    ensures NodeAt(d, level, b, k, 0) !in Nodes(d, level, b, 1)
  {
    hide Nodes, NodeAt, Span;
    NodeCounted(d, level, b, k, 0);
  }

  lemma OnceKids(d: Disk, level: nat, b: int)
    requires Once(Nodes(d, level, b, 0)) && b != 0 && 0 < level
    ensures var kids := Sum(Trees(d, level - 1, Pointers(At(d, b)), 0)); Once(kids) && b !in kids
  {
    hide Pointers, At, Trees, Nodes, Sum;
    NodesStep(d, level, b, 0);
    var kids := Sum(Trees(d, level - 1, Pointers(At(d, b)), 0));
    forall x
      ensures multiset{b}[x] + kids[x] <= 1
    {
      assert Nodes(d, level, b, 0)[x] == multiset{b}[x] + kids[x];
    }
    assert multiset{b}[b] == 1;
  }

  lemma OnceChild(d: Disk, level: nat, b: int, i: nat)
    requires Once(Nodes(d, level, b, 0)) && b != 0 && 0 < level && i < NINDIR
    ensures Once(Nodes(d, level - 1, Pointers(At(d, b))[i], 0))
    ensures b !in Nodes(d, level - 1, Pointers(At(d, b))[i], 0)
  {
    hide Pointers, At, Trees, Nodes, Sum;
    OnceKids(d, level, b);
    SumMember(Trees(d, level - 1, Pointers(At(d, b)), 0), i);
    TreesAt(d, level - 1, Pointers(At(d, b)), 0, i);
  }

  /** In a tree without repetitions different indices never share a data block. */
  lemma {:induction false} LeafUnique(d: Disk, level: nat, b: int, k: nat, k': nat)
    requires k < Span(level) && k' < Span(level) && Once(Nodes(d, level, b, 0))
    requires NodeAt(d, level, b, k, 0) != 0 && NodeAt(d, level, b, k, 0) == NodeAt(d, level, b, k', 0)
    ensures k == k'
  {
    hide *;
    Spans();
    if level > 0 {
      NodeAtStep(d, level, b, k, 0);
      NodeAtStep(d, level, b, k', 0);
      var p, i, j := Pointers(At(d, b)), Slot(level, k), Slot(level, k');
      if i == j {
        OnceChild(d, level, b, i);
        LeafUnique(d, level - 1, p[i], Rest(level, k), Rest(level, k'));
        SplitInjective(level, k, k');
      } else {
        OnceKids(d, level, b);
        NodeAtMember(d, level - 1, p[i], Rest(level, k), 0, 0);
        NodeAtMember(d, level - 1, p[j], Rest(level, k'), 0, 0);
        TreesAt(d, level - 1, p, 0, i);
        TreesAt(d, level - 1, p, 0, j);
        SumApart(Trees(d, level - 1, p, 0), i, j, NodeAt(d, level, b, k, 0));
      }
    }
  }

  // Hanging a new block into an empty slot.

  lemma FreshNodes(d: Disk, level: nat, n: int, floor: nat)
    requires n != 0 && At(d, n) == ZeroBlock()
    ensures Nodes(d, level, n, floor) == if level >= floor then multiset{n} else multiset{}
  {
    hide *;
    NodesStep(d, level, n, floor);
    if level > 0 {
      ZeroBlockPointers();
      var p := Pointers(ZeroBlock());
      var ms := Trees(d, level - 1, p, floor);
      forall i | 0 <= i < |ms|
        ensures ms[i] == multiset{}
      {
        TreesAt(d, level - 1, p, floor, i);
        NodesStep(d, level - 1, p[i], floor);
      }
      SumEmpty(ms);
    }
  }

  lemma FreshNodeAt(d: Disk, level: nat, n: int, k: nat, t: nat)
    requires n != 0 && At(d, n) == ZeroBlock() && k < Span(level) && t < level
    ensures NodeAt(d, level, n, k, t) == 0
  {
    hide *;
    ZeroBlockPointers();
    NodeAtStep(d, level, n, k, t);
    NodeAtStep(d, level - 1, 0, Rest(level, k), t);
  }

  /** The slot, in the indirect block at height t + 1, that leads on to data block k. */
  function SlotOf(k: nat, t: nat): (i: nat)
    ensures i < NINDIR
  {
    k / Span(t) % NINDIR
  }

  lemma SlotOfHere(level: nat, k: nat)
    requires 0 < level && k < Span(level)
    ensures SlotOf(k, level - 1) == Slot(level, k)
  {
  }

  lemma SlotOfBelow(level: nat, k: nat, t: nat)
    requires t + 1 < level <= 3 && k < Span(level)
    ensures SlotOf(Rest(level, k), t) == SlotOf(k, t)
  {
    Spans();
    hide Span;
    if level == 2 {
      assert k % 256 / 1 % 256 == k / 1 % 256;
    } else if t == 0 {
      assert k % 65536 / 1 % 256 == k / 1 % 256;
    } else {
      assert k % 65536 / 256 % 256 == k / 256 % 256;
    }
  }

  /** Following one more pointer on the way to data block k. */
  lemma {:induction false} PathStep(d: Disk, level: nat, b: int, k: nat, t: nat)
    requires t < level <= 3 && k < Span(level) && NodeAt(d, level, b, k, t + 1) != 0
    ensures NodeAt(d, level, b, k, t) == Pointers(At(d, NodeAt(d, level, b, k, t + 1)))[SlotOf(k, t)]
  {
    hide NodeAt, Span, Pointers, At, Slot, Rest, SlotOf;
    NodeAtStep(d, level, b, k, t);
    NodeAtStep(d, level, b, k, t + 1);
    if level == t + 1 {
      SlotOfHere(level, k);
      NodeAtStep(d, t, Pointers(At(d, b))[Slot(level, k)], Rest(level, k), t);
    } else {
      SlotOfBelow(level, k, t);
      PathStep(d, level - 1, Pointers(At(d, b))[Slot(level, k)], Rest(level, k), t);
    }
  }

  /** Data block k is missing because the block at height t on its way is; n can supply it. */
  ghost predicate Hangable(d: Disk, level: nat, b: int, k: nat, t: nat, n: Long) {
    && t < level <= 3 && k < Span(level)
    && Once(Nodes(d, level, b, 0))
    && 0 < n < |d| && n !in Nodes(d, level, b, 0)
    && 0 < NodeAt(d, level, b, k, t + 1) < |d|
    && NodeAt(d, level, b, k, t) == 0
  }

  /** Block n, cleared, is entered into the indirect block at height t + 1. */
  ghost function Hung(d: Disk, level: nat, b: int, k: nat, t: nat, n: Long): Disk
    requires Hangable(d, level, b, k, t, n)
  {
    NodeAtMember(d, level, b, k, t + 1, 0);
    var p := NodeAt(d, level, b, k, t + 1);
    d[n := ZeroBlock()][p := SetPointer(d[p], SlotOf(k, t), n)]
  }

  lemma HungBlocks(d: Disk, level: nat, b: int, k: nat, t: nat, n: Long)
    requires Hangable(d, level, b, k, t, n)
    ensures var p, d' := NodeAt(d, level, b, k, t + 1), Hung(d, level, b, k, t, n);
      && p in Nodes(d, level, b, 0) && p != n
      && At(d', n) == ZeroBlock()
      && Pointers(At(d', p)) == Pointers(At(d, p))[SlotOf(k, t) := n]
      && forall x :: x != n && x != p ==> At(d', x) == At(d, x)
  {
    hide Nodes, NodeAt, Span, Pointers, ZeroBlock, SetPointer;
    NodeAtMember(d, level, b, k, t + 1, 0);
    SetPointerPointers(d[NodeAt(d, level, b, k, t + 1)], SlotOf(k, t), n);
  }

  /** The siblings of the subtree that holds k are not touched. */
  lemma HungSibling(d: Disk, level: nat, b: int, k: nat, t: nat, n: Long, i: nat)
    requires Hangable(d, level, b, k, t, n) && i < NINDIR && i != Slot(level, k)
    ensures SameOn(d, Hung(d, level, b, k, t, n), Nodes(d, level - 1, Pointers(At(d, b))[i], 1))
  {
    hide Nodes, NodeAt, Span, Pointers, At, Trees, Sum, Slot, Rest, Hung;
    var p, x := Pointers(At(d, b)), NodeAt(d, level, b, k, t + 1);
    HungBlocks(d, level, b, k, t, n);
    NodeAtStep(d, level, b, k, t + 1);
    OnceChild(d, level, b, i);
    NodesStep(d, level, b, 0);
    OnceKids(d, level, b);
    var ms := Trees(d, level - 1, p, 0);
    SumMember(ms, i);
    TreesAt(d, level - 1, p, 0, i);
    FloorMonotone(d, level - 1, p[i], 0, 1);
    if level > t + 1 {
      NodeAtMember(d, level - 1, p[Slot(level, k)], Rest(level, k), t + 1, 0);
      TreesAt(d, level - 1, p, 0, Slot(level, k));
      SumApart(ms, Slot(level, k), i, x);
    }
  }

  /** Above the new block the problem is the same one level down. */
  lemma HungChild(d: Disk, level: nat, b: int, k: nat, t: nat, n: Long)
    requires Hangable(d, level, b, k, t, n) && t + 1 < level
    ensures var c := Pointers(At(d, b))[Slot(level, k)];
      && Hangable(d, level - 1, c, Rest(level, k), t, n)
      && Hung(d, level - 1, c, Rest(level, k), t, n) == Hung(d, level, b, k, t, n)
      && At(Hung(d, level, b, k, t, n), b) == At(d, b)
  {
    hide Nodes, NodeAt, Span, Pointers, At, Trees, Sum, Slot, Rest, SlotOf;
    var p, i := Pointers(At(d, b)), Slot(level, k);
    NodeAtStep(d, level, b, k, t);
    NodeAtStep(d, level, b, k, t + 1);
    OnceChild(d, level, b, i);
    NodesStep(d, level, b, 0);
    SumMember(Trees(d, level - 1, p, 0), i);
    TreesAt(d, level - 1, p, 0, i);
    NodeAtMember(d, level - 1, p[i], Rest(level, k), t + 1, 0);
    SlotOfBelow(level, k, t);
    HungBlocks(d, level, b, k, t, n);
  }

  /** What hanging does to the pointers of b: only the one towards k can change. */
  lemma HungPointers(d: Disk, level: nat, b: int, k: nat, t: nat, n: Long)
    requires Hangable(d, level, b, k, t, n)
    ensures var p, p' := Pointers(At(d, b)), Pointers(At(Hung(d, level, b, k, t, n), b));
      p' == p[Slot(level, k) := if level == t + 1 then n else p[Slot(level, k)]]
    ensures level == t + 1 ==> Pointers(At(d, b))[Slot(level, k)] == 0
  {
    hide Nodes, NodeAt, Span, Pointers, At, Slot, Rest, SlotOf, Hung;
    NodeAtStep(d, level, b, k, t);
    NodeAtStep(d, level, b, k, t + 1);
    if level == t + 1 {
      HungBlocks(d, level, b, k, t, n);
      SlotOfHere(level, k);
      NodeAtStep(d, t, Pointers(At(d, b))[Slot(level, k)], Rest(level, k), t);
    } else {
      HungChild(d, level, b, k, t, n);
    }
  }

  /** The sum over the subtrees grows as the subtree that holds k does. */
  lemma HungSum(d: Disk, level: nat, b: int, k: nat, t: nat, n: Long, floor: nat, more: multiset<int>)
    requires Hangable(d, level, b, k, t, n)
    requires var d', i := Hung(d, level, b, k, t, n), Slot(level, k);
      Nodes(d', level - 1, Pointers(At(d', b))[i], floor) == Nodes(d, level - 1, Pointers(At(d, b))[i], floor) + more
    ensures var d' := Hung(d, level, b, k, t, n);
      Sum(Trees(d', level - 1, Pointers(At(d', b)), floor)) ==
        Sum(Trees(d, level - 1, Pointers(At(d, b)), floor)) + more
  {
    hide Nodes, NodeAt, Span, Pointers, At, Trees, Sum, Slot, Rest, Hung;
    var d', i := Hung(d, level, b, k, t, n), Slot(level, k);
    var p, p' := Pointers(At(d, b)), Pointers(At(d', b));
    var ms, ms' := Trees(d, level - 1, p, floor), Trees(d', level - 1, p', floor);
    HungPointers(d, level, b, k, t, n);
    forall j | 0 <= j < NINDIR
      ensures ms'[j] == ms[i := ms[i] + more][j]
    {
      TreesAt(d, level - 1, p, floor, j);
      TreesAt(d', level - 1, p', floor, j);
      if j != i {
        HungSibling(d, level, b, k, t, n, j);
        NodesFrame(d, d', level - 1, p[j], floor);
      }
    }
    assert ms' == ms[i := ms[i] + more];
    SumGrow(ms, i, more);
  }

  /** Hanging adds the new block to the tree and nothing else. */
  lemma {:induction false} HungNodes(d: Disk, level: nat, b: int, k: nat, t: nat, n: Long, floor: nat)
    requires Hangable(d, level, b, k, t, n)
    ensures Nodes(Hung(d, level, b, k, t, n), level, b, floor)
      == Nodes(d, level, b, floor) + if floor <= t then multiset{n} else multiset{}
  {
    hide Nodes, NodeAt, Span, Pointers, At, Trees, Sum, Slot, Rest, Hung;
    var d', i := Hung(d, level, b, k, t, n), Slot(level, k);
    NodesStep(d, level, b, floor);
    NodesStep(d', level, b, floor);
    NodeAtStep(d, level, b, k, t + 1);
    if level >= floor {
      HungPointers(d, level, b, k, t, n);
      if level == t + 1 {
        HungBlocks(d, level, b, k, t, n);
        FreshNodes(d', t, n, floor);
        NodesStep(d, t, 0, floor);
      } else {
        HungChild(d, level, b, k, t, n);
        HungNodes(d, level - 1, Pointers(At(d, b))[i], Rest(level, k), t, n, floor);
      }
      HungSum(d, level, b, k, t, n, floor, if floor <= t then multiset{n} else multiset{});
    }
  }

  /** After hanging, the way to k has block n at height t and is empty below; above t it is as before. */
  lemma {:induction false} HungPath(d: Disk, level: nat, b: int, k: nat, t: nat, n: Long, floor: nat)
    requires Hangable(d, level, b, k, t, n) && floor <= level
    ensures NodeAt(Hung(d, level, b, k, t, n), level, b, k, floor) ==
      if floor < t then 0 else if floor == t then n else NodeAt(d, level, b, k, floor)
  {
    hide Nodes, NodeAt, Span, Pointers, At, Slot, Rest, Hung;
    var d', i := Hung(d, level, b, k, t, n), Slot(level, k);
    NodeAtStep(d, level, b, k, floor);
    NodeAtStep(d', level, b, k, floor);
    NodeAtStep(d, level, b, k, t + 1);
    if level > floor {
      HungPointers(d, level, b, k, t, n);
      if level == t + 1 {
        HungBlocks(d, level, b, k, t, n);
        NodeAtStep(d', t, n, Rest(level, k), floor);
        if floor < t {
          FreshNodeAt(d', t, n, Rest(level, k), floor);
        }
      } else {
        HungChild(d, level, b, k, t, n);
        HungPath(d, level - 1, Pointers(At(d, b))[i], Rest(level, k), t, n, floor);
      }
    }
  }

  /** Hanging leaves every block where it was that is not on the way to k. */
  lemma {:induction false} HungLookup(d: Disk, level: nat, b: int, k: nat, t: nat, n: Long, k': nat, floor: nat)
    requires Hangable(d, level, b, k, t, n) && k' < Span(level) && floor <= level && !Shared(k, k', floor)
    ensures NodeAt(Hung(d, level, b, k, t, n), level, b, k', floor) == NodeAt(d, level, b, k', floor)
  {
    hide Nodes, NodeAt, Span, Pointers, At, Slot, Rest, Hung, Shared;
    var d', i, i' := Hung(d, level, b, k, t, n), Slot(level, k), Slot(level, k');
    NodeAtStep(d, level, b, k', floor);
    NodeAtStep(d', level, b, k', floor);
    NodeAtStep(d, level, b, k, t + 1);
    SharedTop(level, k, k');
    SharedStep(level, k, k', floor);
    HungPointers(d, level, b, k, t, n);
    if i' != i {
      HungSibling(d, level, b, k, t, n, i');
      NodeAtFrame(d, d', level - 1, Pointers(At(d, b))[i'], Rest(level, k'), floor);
    } else if level == t + 1 {
      HungBlocks(d, level, b, k, t, n);
      NodeAtStep(d, t, 0, Rest(level, k'), floor);
      SharedTop(t, Rest(level, k), Rest(level, k'));
      FreshNodeAt(d', t, n, Rest(level, k'), floor);
    } else {
      HungChild(d, level, b, k, t, n);
      HungLookup(d, level - 1, Pointers(At(d, b))[i], Rest(level, k), t, n, Rest(level, k'), floor);
    }
  }

  /** A block serves all data blocks below it. */
  lemma {:induction false} SharedNode(d: Disk, level: nat, b: int, k: nat, k': nat, floor: nat)
    requires level <= 3 && k < Span(level) && k' < Span(level) && floor <= level && Shared(k, k', floor)
    ensures NodeAt(d, level, b, k', floor) == NodeAt(d, level, b, k, floor)
  {
    hide Nodes, NodeAt, Span, Pointers, At, Slot, Rest, Shared;
    NodeAtStep(d, level, b, k, floor);
    NodeAtStep(d, level, b, k', floor);
    if b != 0 && level > floor {
      SharedStep(level, k, k', floor);
      SharedNode(d, level - 1, Pointers(At(d, b))[Slot(level, k)], Rest(level, k), Rest(level, k'), floor);
    }
  }
}
