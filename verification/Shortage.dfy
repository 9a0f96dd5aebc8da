/** How many blocks are missing on the way to the blocks of a file: what bmap has to allocate before a range of
    logical blocks can be written. */
module Shortage {
  import opened DiskFormat
  import opened BlockTree
  import opened InodeMap
  import opened Growth

  /** The block at height `floor` on the way to bn is missing, and bn is the first block of the range that needs it. */
  predicate Wanting(d: Disk, addr: seq<int>, first: nat, bn: nat, floor: nat)
    requires |addr| == NADDR && first <= bn < MAX_BLOCKS && floor <= LevelOf(SlotFor(bn))
  {
    Way(d, addr, bn, floor) == 0 && !(first < bn && SameWay(bn - 1, bn, floor))
  }

  /** The number of such blocks at heights below n. */
  function Wanted(d: Disk, addr: seq<int>, first: nat, bn: nat, n: nat): (w: nat)
    requires |addr| == NADDR && first <= bn < MAX_BLOCKS && n <= LevelOf(SlotFor(bn)) + 1
    ensures w <= n
  {
    if n == 0 then 0
    else Wanted(d, addr, first, bn, n - 1) + if Wanting(d, addr, first, bn, n - 1) then 1 else 0
  }

  /** The number of blocks that are missing on the way to logical block bn. */
  function Need(d: Disk, addr: seq<int>, bn: nat): nat
    requires |addr| == NADDR && bn < MAX_BLOCKS
  {
    Wanted(d, addr, bn, bn, LevelOf(SlotFor(bn)) + 1)
  }

  /** The number of blocks, data and indirect, that are missing for logical blocks first..next - 1. */
  function Missing(d: Disk, addr: seq<int>, first: nat, next: nat): nat
    requires |addr| == NADDR && first <= next <= MAX_BLOCKS
    decreases next
  {
    if next == first then 0
    else Missing(d, addr, first, next - 1) + Wanted(d, addr, first, next - 1, LevelOf(SlotFor(next - 1)) + 1)
  }

  lemma {:induction false} MissingMore(d: Disk, addr: seq<int>, first: nat, next: nat, next': nat)
    requires |addr| == NADDR && first <= next <= next' <= MAX_BLOCKS
    ensures Missing(d, addr, first, next) <= Missing(d, addr, first, next')
    decreases next'
  {
    hide Wanted, SlotFor;
    if next < next' {
      MissingMore(d, addr, first, next, next' - 1);
    }
  }

  lemma MissingStep(d: Disk, addr: seq<int>, first: nat, bn: nat)
    requires |addr| == NADDR && first <= bn < MAX_BLOCKS
    ensures Missing(d, addr, first, first) == 0
    ensures Missing(d, addr, first, bn + 1)
      == Missing(d, addr, first, bn) + Wanted(d, addr, first, bn, LevelOf(SlotFor(bn)) + 1)
    ensures first == bn ==> Missing(d, addr, first, bn + 1) == Need(d, addr, bn)
  {
    hide Wanted, SlotFor;
  }

  /** What is missing is missing from some height down. */
  lemma {:induction false} NeedBelow(d: Disk, addr: seq<int>, bn: nat, t: nat, n: nat)
    requires |addr| == NADDR && bn < MAX_BLOCKS && t <= LevelOf(SlotFor(bn)) + 1 && n <= LevelOf(SlotFor(bn)) + 1
    requires t <= LevelOf(SlotFor(bn)) ==> Way(d, addr, bn, t) != 0
    requires t > 0 ==> Way(d, addr, bn, t - 1) == 0
    ensures Wanted(d, addr, bn, bn, n) == if n <= t then n else t
  {
    hide NodeAt, SlotFor, IndexIn, Span;
    if n > 0 {
      NeedBelow(d, addr, bn, t, n - 1);
      var level, root, k := LevelOf(SlotFor(bn)), addr[SlotFor(bn)], IndexIn(bn);
      if n - 1 < t {
        HoleBelow(d, level, root, k, t - 1, n - 1);
      } else if NodeAt(d, level, root, k, n - 1) == 0 {
        HoleBelow(d, level, root, k, n - 1, t);
      }
    }
  }

  lemma NeedIs(d: Disk, addr: seq<int>, bn: nat, t: nat)
    requires |addr| == NADDR && bn < MAX_BLOCKS && t <= LevelOf(SlotFor(bn)) + 1
    requires t <= LevelOf(SlotFor(bn)) ==> Way(d, addr, bn, t) != 0
    requires t > 0 ==> Way(d, addr, bn, t - 1) == 0
    ensures Need(d, addr, bn) == t
  {
    hide NodeAt, SlotFor, IndexIn, Span, Way, Wanted;
    NeedBelow(d, addr, bn, t, LevelOf(SlotFor(bn)) + 1);
  }

  /** A block is mapped exactly when nothing is missing. */
  lemma NeedNothing(d: Disk, addr: seq<int>, bn: nat)
    requires |addr| == NADDR && bn < MAX_BLOCKS
    ensures Need(d, addr, bn) == 0 <==> BlockOf(d, addr, bn) != 0
    ensures Need(d, addr, bn) <= 4
  {
    hide NodeAt, SlotFor, IndexIn, Span, Way;
    BlockIsWay(d, addr, bn);
    if BlockOf(d, addr, bn) != 0 {
      NeedIs(d, addr, bn, 0);
    } else {
      WantedSome(d, addr, bn, LevelOf(SlotFor(bn)) + 1);
    }
  }

  lemma {:induction false} WantedSome(d: Disk, addr: seq<int>, bn: nat, n: nat)
    requires |addr| == NADDR && bn < MAX_BLOCKS && 0 < n <= LevelOf(SlotFor(bn)) + 1 && Way(d, addr, bn, 0) == 0
    ensures Wanted(d, addr, bn, bn, n) > 0
  {
    hide SlotFor, Way;
    if n > 1 {
      WantedSome(d, addr, bn, n - 1);
    }
  }

  // Filling one block after the other.

  /** One of the logical blocks first..next - 1 has the block at height `floor` on its way in common with bn. */
  ghost predicate Touched(first: nat, next: nat, bn: nat, floor: nat)
    requires next <= MAX_BLOCKS && bn < MAX_BLOCKS
  {
    exists b :: first <= b < next && SameWay(b, bn, floor)
  }

  /** Since d0, logical blocks first..next - 1 have been mapped: what was missing for them is there, and nothing
      else. */
  ghost predicate Filled(d0: Disk, addr0: seq<int>, d: Disk, addr: seq<int>, first: nat, next: nat)
    requires |addr0| == |addr| == NADDR && next <= MAX_BLOCKS
  {
    forall bn, floor :: 0 <= bn < MAX_BLOCKS && 0 <= floor <= LevelOf(SlotFor(bn)) ==>
      (Way(d, addr, bn, floor) == 0 <==> Way(d0, addr0, bn, floor) == 0 && !Touched(first, next, bn, floor))
  }

  lemma FilledNot(d: Disk, addr: seq<int>, first: nat)
    requires |addr| == NADDR && first <= MAX_BLOCKS
    ensures Filled(d, addr, d, addr, first, first)
  {
    hide Way, SameWay;
  }

  /** The way to a mapped block is complete. */
  lemma WayThere(d: Disk, addr: seq<int>, bn: nat, floor: nat)
    requires |addr| == NADDR && bn < MAX_BLOCKS && floor <= LevelOf(SlotFor(bn)) && BlockOf(d, addr, bn) != 0
    ensures Way(d, addr, bn, floor) != 0
  {
    hide NodeAt, SlotFor, IndexIn, Span;
    if Way(d, addr, bn, floor) == 0 {
      HoleBelow(d, LevelOf(SlotFor(bn)), addr[SlotFor(bn)], IndexIn(bn), floor, 0);
      BlockIsWay(d, addr, bn);
    }
  }

  lemma FilledStep(d0: Disk, addr0: seq<int>, d1: Disk, addr1: seq<int>, d: Disk, addr: seq<int>, first: nat, bn: nat)
    requires |addr0| == |addr1| == |addr| == NADDR && first <= bn < MAX_BLOCKS
    requires Filled(d0, addr0, d1, addr1, first, bn)
    requires OffWay(d1, addr1, d, addr, bn) && BlockOf(d, addr, bn) != 0
    ensures Filled(d0, addr0, d, addr, first, bn + 1)
  {
    hide Way, SameWay, SlotFor, LevelOf, BlockOf;
    forall bn', floor | 0 <= bn' < MAX_BLOCKS && 0 <= floor <= LevelOf(SlotFor(bn'))
      ensures Way(d, addr, bn', floor) == 0 <==> Way(d0, addr0, bn', floor) == 0 && !Touched(first, bn + 1, bn', floor)
    {
      TouchedStep(first, bn, bn', floor);
      if SameWay(bn, bn', floor) {
        SameSlot(bn, bn', floor);
        WayShared(d, addr, bn, bn', floor);
        WayThere(d, addr, bn, floor);
      }
    }
  }

  lemma SameSlot(bn: nat, bn': nat, floor: nat)
    requires bn < MAX_BLOCKS && bn' < MAX_BLOCKS && SameWay(bn, bn', floor)
    ensures SlotFor(bn) == SlotFor(bn')
  {
    hide SlotFor, Shared;
  }

  lemma TouchedStep(first: nat, next: nat, bn: nat, floor: nat)
    requires first <= next < MAX_BLOCKS && bn < MAX_BLOCKS
    ensures Touched(first, next + 1, bn, floor) <==> Touched(first, next, bn, floor) || SameWay(next, bn, floor)
  {
    hide SameWay;
  }

  lemma FilledFrame(d0: Disk, addr0: seq<int>, d1: Disk, d: Disk, addr: seq<int>, first: nat, next: nat)
    requires |addr0| == |addr| == NADDR && next <= MAX_BLOCKS
    requires Filled(d0, addr0, d1, addr, first, next) && SameOn(d1, d, Claims(d1, addr, 1))
    ensures Filled(d0, addr0, d, addr, first, next)
  {
    hide Way, SlotFor, LevelOf, Touched, Claims, At;
    forall bn, floor | 0 <= bn < MAX_BLOCKS && 0 <= floor <= LevelOf(SlotFor(bn))
      ensures Way(d, addr, bn, floor) == 0 <==> Way(d0, addr0, bn, floor) == 0 && !Touched(first, next, bn, floor)
    {
      WayFrame(d1, d, addr, bn, floor);
    }
  }

  /** Blocks with a common way are consecutive. */
  lemma SameWayBetween(b: nat, bn: nat, floor: nat)
    requires b < bn < MAX_BLOCKS && SameWay(b, bn, floor)
    ensures SameWay(bn - 1, bn, floor)
  {
    hide Span;
    Quotients(IndexIn(b), IndexIn(bn - 1), IndexIn(bn), Span(floor));
  }

  lemma Quotients(a: nat, b: nat, c: nat, s: nat)
    requires a <= b <= c && s > 0 && a / s == c / s
    ensures b / s == c / s
  {
    QuotientOrder(a, b, s);
    QuotientOrder(b, c, s);
  }

  lemma QuotientOrder(a: nat, b: nat, s: nat)
    requires a <= b && s > 0
    ensures a / s <= b / s
  {
    var i, j := a / s, b / s;
    assert a == i * s + a % s && b == j * s + b % s;
    if j < i {
      DigitOrder(j, i, s, b % s, a % s);
    }
  }

  lemma TouchedBefore(first: nat, bn: nat, floor: nat)
    requires first <= bn < MAX_BLOCKS
    ensures Touched(first, bn, bn, floor) <==> first < bn && SameWay(bn - 1, bn, floor)
  {
    hide SameWay;
    if b :| first <= b < bn && SameWay(b, bn, floor) {
      SameWayBetween(b, bn, floor);
    }
  }

  /** After its predecessors in the range, a block needs what nobody before it needed. */
  lemma {:induction false} WantedLeft(d0: Disk, addr0: seq<int>, d: Disk, addr: seq<int>, first: nat, bn: nat, n: nat)
    requires |addr0| == |addr| == NADDR && first <= bn < MAX_BLOCKS && n <= LevelOf(SlotFor(bn)) + 1
    requires Filled(d0, addr0, d, addr, first, bn)
    ensures Wanted(d, addr, bn, bn, n) == Wanted(d0, addr0, first, bn, n)
  {
    hide Way, SameWay, SlotFor, LevelOf, Touched;
    if n > 0 {
      WantedLeft(d0, addr0, d, addr, first, bn, n - 1);
      TouchedBefore(first, bn, n - 1);
    }
  }

  lemma NeedLeft(d0: Disk, addr0: seq<int>, d: Disk, addr: seq<int>, first: nat, bn: nat)
    requires |addr0| == |addr| == NADDR && first <= bn < MAX_BLOCKS
    requires Filled(d0, addr0, d, addr, first, bn)
    ensures Missing(d0, addr0, first, bn + 1) == Missing(d0, addr0, first, bn) + Need(d, addr, bn)
  {
    hide Wanted, Filled, SlotFor, LevelOf;
    WantedLeft(d0, addr0, d, addr, first, bn, LevelOf(SlotFor(bn)) + 1);
    MissingStep(d0, addr0, first, bn);
  }

  lemma FilledOne(d0: Disk, addr0: seq<int>, d1: Disk, d: Disk, addr: seq<int>, bn: nat)
    requires |addr0| == |addr| == NADDR && bn < MAX_BLOCKS
    requires OffWay(d0, addr0, d1, addr, bn) && BlockOf(d1, addr, bn) != 0
    requires SameOn(d1, d, Claims(d1, addr, 1))
    ensures Filled(d0, addr0, d, addr, bn, bn + 1)
  {
    hide Filled, OffWay, BlockOf, SameOn;
    FilledNot(d0, addr0, bn);
    FilledStep(d0, addr0, d0, addr0, d1, addr, bn, bn);
    FilledFrame(d0, addr0, d1, d, addr, bn, bn + 1);
  }

  lemma FilledTwice(d0: Disk, addr0: seq<int>, d1: Disk, addr1: seq<int>, d: Disk, addr: seq<int>, first: nat, bn: nat)
    requires |addr0| == |addr1| == |addr| == NADDR && first <= bn < MAX_BLOCKS
    requires Filled(d0, addr0, d1, addr1, first, bn) && Filled(d1, addr1, d, addr, bn, bn + 1)
    ensures Filled(d0, addr0, d, addr, first, bn + 1)
  {
    hide Way, SameWay, SlotFor, LevelOf;
    forall bn', floor | 0 <= bn' < MAX_BLOCKS && 0 <= floor <= LevelOf(SlotFor(bn'))
      ensures Way(d, addr, bn', floor) == 0 <==> Way(d0, addr0, bn', floor) == 0 && !Touched(first, bn + 1, bn', floor)
    {
      TouchedStep(first, bn, bn', floor);
      TouchedStep(bn, bn, bn', floor);
    }
  }

  /** Logical blocks first..next - 1 have been mapped, with blocks from the free list. */
  ghost predicate Supplied(d0: Disk, addr0: seq<int>, avail0: seq<int>, d: Disk, addr: seq<int>, avail: seq<int>,
      first: nat, next: nat)
    requires |addr0| == |addr| == NADDR
  {
    first < MAX_BLOCKS ==>
      && first <= next <= MAX_BLOCKS
      && Filled(d0, addr0, d, addr, first, next)
      && |avail| + Missing(d0, addr0, first, next) == |avail0|
  }

  lemma SuppliedNot(d: Disk, addr: seq<int>, avail: seq<int>, first: nat)
    requires |addr| == NADDR
    ensures Supplied(d, addr, avail, d, addr, avail, first, first)
  {
    hide Wanted, Filled, SlotFor;
    if first < MAX_BLOCKS {
      FilledNot(d, addr, first);
    }
  }

  lemma SuppliedMore(d0: Disk, addr0: seq<int>, avail0: seq<int>, d1: Disk, addr1: seq<int>, avail1: seq<int>,
      d: Disk, addr: seq<int>, avail: seq<int>, first: nat, bn: nat)
    requires |addr0| == |addr1| == |addr| == NADDR && first <= bn < MAX_BLOCKS
    requires Supplied(d0, addr0, avail0, d1, addr1, avail1, first, bn)
    requires Filled(d1, addr1, d, addr, bn, bn + 1) && |avail| + Need(d1, addr1, bn) == |avail1|
    ensures Supplied(d0, addr0, avail0, d, addr, avail, first, bn + 1)
  {
    hide Missing, Need, Filled, SlotFor;
    FilledTwice(d0, addr0, d1, addr1, d, addr, first, bn);
    NeedLeft(d0, addr0, d1, addr1, first, bn);
  }

  /** A block that cannot be had now could not be had before either, together with those that were. */
  lemma SuppliedNoMore(d0: Disk, addr0: seq<int>, avail0: seq<int>, d: Disk, addr: seq<int>, avail: seq<int>,
      first: nat, bn: nat, last: nat)
    requires |addr0| == |addr| == NADDR && first <= bn <= last
    requires Supplied(d0, addr0, avail0, d, addr, avail, first, bn)
    requires bn >= MAX_BLOCKS || Need(d, addr, bn) > |avail|
    ensures last >= MAX_BLOCKS || Missing(d0, addr0, first, last + 1) > |avail0|
  {
    hide Missing, Need, Filled, SlotFor;
    if last < MAX_BLOCKS {
      NeedLeft(d0, addr0, d, addr, first, bn);
      MissingMore(d0, addr0, first, bn + 1, last + 1);
    }
  }

  // Which blocks are mapped.

  /** A mapped block stays where it is, and of the others those from first to end - 1 are mapped and no more. */
  ghost predicate MapsOnly(d0: Disk, addr0: seq<int>, d: Disk, addr: seq<int>, first: nat, end: nat)
    requires |addr0| == |addr| == NADDR
  {
    forall bn :: 0 <= bn < MAX_BLOCKS ==>
      && (BlockOf(d0, addr0, bn) != 0 ==> BlockOf(d, addr, bn) == BlockOf(d0, addr0, bn))
      && (BlockOf(d, addr, bn) != 0 <==> BlockOf(d0, addr0, bn) != 0 || first <= bn < end)
  }

  lemma MapsNone(d: Disk, addr: seq<int>, first: nat)
    requires |addr| == NADDR
    ensures MapsOnly(d, addr, d, addr, first, first)
  {
    hide BlockOf;
  }

  lemma MapsOne(d0: Disk, addr0: seq<int>, avail0: seq<int>, d: Disk, addr: seq<int>, avail: seq<int>, bn: nat)
    requires Mapped(d0, addr0, avail0, d, addr, avail, bn) && bn < MAX_BLOCKS
    requires BlockOf(d0, addr0, bn) != 0 ==> BlockOf(d, addr, bn) == BlockOf(d0, addr0, bn)
    ensures MapsOnly(d0, addr0, d, addr, bn, if BlockOf(d, addr, bn) != 0 then bn + 1 else bn)
  {
    hide BlockOf, Claims, At, OffWay;
  }

  lemma MapsTwice(d0: Disk, addr0: seq<int>, d1: Disk, addr1: seq<int>, d: Disk, addr: seq<int>, first: nat, mid: nat,
      end: nat)
    requires |addr0| == |addr1| == |addr| == NADDR && first <= mid <= end
    requires MapsOnly(d0, addr0, d1, addr1, first, mid) && MapsOnly(d1, addr1, d, addr, mid, end)
    ensures MapsOnly(d0, addr0, d, addr, first, end)
  {
    hide BlockOf;
  }

  lemma MapsFrame(d0: Disk, addr0: seq<int>, d1: Disk, d: Disk, addr: seq<int>, first: nat, end: nat)
    requires |addr0| == |addr| == NADDR && MapsOnly(d0, addr0, d1, addr, first, end)
    requires forall bn :: 0 <= bn < MAX_BLOCKS ==> BlockOf(d, addr, bn) == BlockOf(d1, addr, bn)
    ensures MapsOnly(d0, addr0, d, addr, first, end)
  {
    hide BlockOf;
  }
}
