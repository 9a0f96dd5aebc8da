/** Building the first free list: the interleaved order of bsd211fs_initfreelist (the same code in
    v7fs.c and bsd29fs.c) and of v6fs_initfreelist. */
module Mkfs {
  import opened DiskFormat
  import opened FreeChain
  import opened Volume

  const MAX_FN := 750   // BSD211FS_MAX_FN

  /** Different numbers, all below n. */
  ghost predicate Selection(order: seq<int>, n: nat) {
    && (forall i :: 0 <= i < |order| ==> 0 <= order[i] < n)
    && (forall i, j :: 0 <= i < j < |order| ==> order[i] != order[j])
  }

  /** order lists each of 0..n - 1 once. */
  ghost predicate Permutation(order: seq<int>, n: nat) {
    Selection(order, n) && |order| == n && forall x :: 0 <= x < n ==> x in order
  }

  ghost function Below(n: nat): (s: set<int>)
    ensures forall x :: x in s <==> 0 <= x < n
    ensures |s| == n
  {
    if n == 0 then {} else Below(n - 1) + {n - 1}
  }

  lemma SubsetSize(a: set<int>, b: set<int>)
    requires a <= b
    ensures |a| <= |b|
  {
    assert b == a + (b - a);
  }

  ghost function Elements(order: seq<int>): (s: set<int>)
    ensures forall x :: x in s <==> x in order
  {
    set x | x in order
  }

  lemma SelectionPrefix(order: seq<int>, i: nat, n: nat)
    requires Selection(order, n) && i < |order|
    ensures 0 <= order[i] < n && order[i] !in order[..i] && Selection(order[..i], n)
    ensures order[..i + 1] == order[..i] + [order[i]]
  {
  }

  lemma {:induction false} SelectionSize(order: seq<int>, n: nat)
    requires Selection(order, n)
    ensures |Elements(order)| == |order|
  {
    hide Selection;
    if order != [] {
      var k := |order| - 1;
      SelectionPrefix(order, k, n);
      SelectionSize(order[..k], n);
      assert order == order[..k] + [order[k]];
      assert Elements(order) == Elements(order[..k]) + {order[k]};
    }
  }

  /** Fewer than n numbers leave one of 0..n - 1 out. */
  lemma Unused(order: seq<int>, n: nat) returns (k: nat)
    requires Selection(order, n) && |order| < n
    ensures k < n && k !in order
  {
    hide Selection;
    SelectionSize(order, n);
    if Below(n) <= Elements(order) {
      SubsetSize(Below(n), Elements(order));
    }
    var x :| x in Below(n) && x !in Elements(order);
    k := x;
  }

  /** n different numbers below n are all of them. */
  lemma AllUsed(order: seq<int>, n: nat)
    requires Selection(order, n) && |order| == n
    ensures Permutation(order, n)
  {
    SelectionSize(order, n);
    forall x | 0 <= x < n
      ensures x in order
    {
      if x !in order {
        SubsetSize(Elements(order), Below(n) - {x});
      }
    }
  }

  /** Steps from i up to k, going round at n. */
  function Ahead(i: nat, k: nat, n: nat): nat
    requires i < n && k < n
  {
    if k >= i then k - i else k - i + n
  }

  /** x is the first number from start on, going round at n, that is not in `used`. */
  ghost predicate FirstUnused(used: seq<int>, start: nat, n: nat, x: int)
    requires start < n
  {
    && 0 <= x < n && x !in used
    && forall k :: 0 <= k < n && Ahead(start, k, n) < Ahead(start, x, n) ==> k in used
  }

  /** The order that interleaves by m: start at 0; after each number skip m ahead and take the first
      number from there on that is still unused. */
  ghost predicate Interleaved(order: seq<int>, n: nat, m: nat)
    requires 1 <= n
  {
    forall j :: 0 <= j < |order| ==> FirstUnused(order[..j], Start(order, j, n, m), n, order[j])
  }

  function Start(order: seq<int>, j: nat, n: nat, m: nat): (i: nat)
    requires 1 <= n && j <= |order|
    ensures i < n
  {
    if j == 0 || order[j - 1] < 0 then 0 else (order[j - 1] + m) % n
  }

  lemma NextRound(i: nat, n: nat)
    requires i < n
    ensures (i + 1) % n == if i + 1 == n then 0 else i + 1
  {
  }

  /** The interleave: starting at 0, take the next unused number, then skip m ahead. */
  method Interleave(n: nat, m: nat) returns (order: seq<int>)
    requires 1 <= n <= MAX_FN
    ensures Permutation(order, n) && Interleaved(order, n, m)
  {
    hide Selection, Permutation, Interleaved, Start;
    var flg := new bool[MAX_FN](_ => false);
    order := [];
    NoneSelected(n, m);
    var i := 0;
    for j := 0 to n
      invariant 0 <= i < n
      invariant forall x :: 0 <= x < MAX_FN ==> (flg[x] <==> x in order)
      invariant Selection(order, n) && |order| == j
      invariant Interleaved(order, n, m) && i == Start(order, j, n, m)
    {
      ghost var free := Unused(order, n);
      i := SkipUsed(flg, i, n, free);
      OneMore(order, i, n, m);
      StartNext(order, i, j, n, m);
      order := order + [i];
      flg[i] := true;
      i := (i + m) % n;
    }
    AllUsed(order, n);
  }

  lemma NoneSelected(n: nat, m: nat)
    requires 1 <= n
    ensures Selection([], n) && Interleaved([], n, m) && Start([], 0, n, m) == 0
  {
  }

  lemma StartNext(order: seq<int>, x: nat, j: nat, n: nat, m: nat)
    requires 1 <= n && j <= |order|
    ensures Start(order + [x], j, n, m) == Start(order, j, n, m)
    ensures Start(order + [x], |order| + 1, n, m) == (x + m) % n
  {
  }

  lemma OneMore(order: seq<int>, i: nat, n: nat, m: nat)
    requires 1 <= n && Selection(order, n) && Interleaved(order, n, m)
    requires FirstUnused(order, Start(order, |order|, n, m), n, i)
    ensures Selection(order + [i], n) && Interleaved(order + [i], n, m)
  {
    hide Start, FirstUnused, Selection;
    var more := order + [i];
    forall j | 0 <= j < |more|
      ensures FirstUnused(more[..j], Start(more, j, n, m), n, more[j])
    {
      assert more[..j] == order[..j];
      assert order[..|order|] == order;
      StartNext(order, i, j, n, m);
    }
    OneMoreSelected(order, i, n, Start(order, |order|, n, m));
  }

  lemma OneMoreSelected(order: seq<int>, i: nat, n: nat, start: nat)
    requires Selection(order, n) && start < n && FirstUnused(order, start, n, i)
    ensures Selection(order + [i], n)
  {
  }

  /** The inner loop: on to the next number that is not used yet, going round at n. */
  method SkipUsed(flg: array<bool>, start: nat, n: nat, ghost free: nat) returns (i: nat)
    requires 1 <= n <= flg.Length && start < n && free < n && !flg[free]
    ensures i < n && !flg[i]
    ensures forall k :: 0 <= k < n && Ahead(start, k, n) < Ahead(start, i, n) ==> flg[k]
  {
    i := start;
    while flg[i]
      invariant 0 <= i < n
      invariant forall k :: 0 <= k < n && Ahead(start, k, n) < Ahead(start, i, n) ==> flg[k]
      invariant Ahead(start, i, n) + Ahead(i, free, n) == Ahead(start, free, n)
      decreases Ahead(i, free, n)
    {
      NextRound(i, n);
      i := (i + 1) % n;
    }
  }

  /** The block after the last full group of n blocks: fsize - 1 rounded up to a multiple of n. */
  function GroupEnd(fsize: nat, n: nat): (d: nat)
    requires 1 <= n && 1 <= fsize
    ensures d % n == 0 && fsize - 1 <= d < fsize - 1 + n
  {
    RoundUp(fsize - 1, n);
    (fsize - 1 + n - 1) / n * n
  }

  // Multiples.

  lemma TimesAtLeast(n: nat, x: int)
    ensures x >= 1 ==> n * x >= n
    ensures x <= -1 ==> n * x <= -(n as int)
  {
    assert n * x == n * (x - 1) + n;
    assert n * x == n * (x + 1) - n;
  }

  lemma SmallMultiple(n: nat, x: int, y: int)
    requires n * x == y && -(n as int) < y < n
    ensures x == 0
  {
    TimesAtLeast(n, x);
  }

  lemma ModOf(q: int, n: nat, r: nat)
    requires r < n
    ensures (n * q + r) % n == r
  {
    var a := n * q + r;
    assert a == n * (a / n) + a % n;
    assert n * (a / n - q) == n * (a / n) - n * q;
    SmallMultiple(n, a / n - q, r - a % n);
  }

  lemma RoundUp(x: nat, n: nat)
    requires 1 <= n
    ensures (x + n - 1) / n * n % n == 0
    ensures x <= (x + n - 1) / n * n < x + n
  {
    var q := (x + n - 1) / n;
    assert x + n - 1 == n * q + (x + n - 1) % n;
    assert q * n == n * q + 0;
    ModOf(q, n, 0);
  }

  lemma AddMod(a: int, n: nat)
    requires 1 <= n && a % n == 0
    ensures (a + n) % n == 0 && (a - n) % n == 0
  {
    var q := a / n;
    assert a == n * q;
    assert a + n == n * (q + 1) + 0 && a - n == n * (q - 1) + 0;
    ModOf(q + 1, n, 0);
    ModOf(q - 1, n, 0);
  }

  lemma NoMultipleBetween(a: nat, b: nat, n: nat)
    requires 1 <= n && a % n == 0 && b % n == 0 && a < b
    ensures a + n <= b
  {
    var p, q := a / n, b / n;
    assert a == n * p && b == n * q;
    assert n * (q - p) == n * q - n * p;
    if b - a < n {
      SmallMultiple(n, q - p, b - a);
    }
  }

  /** The blocks freed for the first i entries of a group that ends at d. */
  function GroupOrder(d: int, order: seq<int>, i: nat, lo: int, hi: int): seq<int>
    requires i <= |order|
  {
    if i == 0 then []
    else
      var f := d - (order[i - 1] + 1);
      GroupOrder(d, order, i - 1, lo, hi) + if lo <= f < hi then [f] else []
  }

  /** The blocks freed from group end d down. */
  function FreeOrder(d: int, n: nat, order: seq<int>, lo: int, hi: int): seq<int>
    requires 1 <= n
    decreases if d > 0 then d else 0
  {
    if d <= 0 then [] else GroupOrder(d, order, |order|, lo, hi) + FreeOrder(d - n, n, order, lo, hi)
  }

  /** Of two blocks of one group, x has its place in the order before y. */
  ghost predicate Placed(order: seq<int>, n: nat, x: int, y: int)
    requires 1 <= n
  {
    exists i, j :: 0 <= i < j < |order| && order[i] == n - 1 - x % n && order[j] == n - 1 - y % n
  }

  /** Higher groups come first, and each group in the order. */
  ghost predicate Before(order: seq<int>, n: nat, x: int, y: int)
    requires 1 <= n
  {
    x / n > y / n || (x / n == y / n && Placed(order, n, x, y))
  }

  ghost predicate InSequence(list: seq<int>, order: seq<int>, n: nat)
    requires 1 <= n
  {
    forall k, l :: 0 <= k < l < |list| ==> Before(order, n, list[k], list[l])
  }

  /** Where block d - (x + 1) lies, in the group that ends at d. */
  lemma InGroup(d: nat, n: nat, x: int)
    requires 1 <= n && d >= n && d % n == 0 && 0 <= x < n
    ensures (d - (x + 1)) / n == d / n - 1 && (d - (x + 1)) % n == n - 1 - x
  {
    var q := d / n - 1;
    assert d == n * (d / n);
    assert n * (d / n) == n * q + n;
    TimesAtLeast(n, q);
    DivOf(q, n, n - 1 - x);
  }

  lemma DivOf(q: nat, n: nat, r: nat)
    requires r < n
    ensures (n * q + r) / n == q && (n * q + r) % n == r
  {
    var a := n * q + r;
    ModOf(q, n, r);
    assert a == n * (a / n) + r;
    assert n * (a / n - q) == n * (a / n) - n * q;
    SmallMultiple(n, a / n - q, 0);
  }

  lemma {:induction false} GroupSorted(d: nat, n: nat, order: seq<int>, i: nat, lo: int, hi: int)
    requires 1 <= n && d >= n && d % n == 0 && Selection(order, n) && i <= |order|
    ensures InSequence(GroupOrder(d, order, i, lo, hi), order, n)
    ensures forall b :: b in GroupOrder(d, order, i, lo, hi) ==> b / n == d / n - 1 && n - 1 - b % n in order[..i]
  {
    if i > 0 {
      var f, less := d - (order[i - 1] + 1), GroupOrder(d, order, i - 1, lo, hi);
      GroupSorted(d, n, order, i - 1, lo, hi);
      InGroup(d, n, order[i - 1]);
      assert order[..i] == order[..i - 1] + [order[i - 1]];
      forall b | b in less
        ensures Before(order, n, b, f)
      {
        assert n - 1 - b % n in order[..i - 1];
      }
    }
  }

  lemma {:induction false} FreeSorted(d: int, n: nat, order: seq<int>, lo: int, hi: int)
    requires 1 <= n && d >= 0 && d % n == 0 && Selection(order, n)
    ensures InSequence(FreeOrder(d, n, order, lo, hi), order, n)
    ensures forall b :: b in FreeOrder(d, n, order, lo, hi) ==> b / n < d / n
    decreases d
  {
    hide Selection, Placed;
    if d > 0 {
      NoMultipleBetween(0, d, n);
      AddMod(d, n);
      GroupSorted(d, n, order, |order|, lo, hi);
      FreeSorted(d - n, n, order, lo, hi);
      InGroup(d, n, n - 1);
      var group, more := GroupOrder(d, order, |order|, lo, hi), FreeOrder(d - n, n, order, lo, hi);
      forall x, y | x in group && y in more
        ensures Before(order, n, x, y)
      {
      }
    }
  }

  /** One group of n blocks, in interleaved order. */
  method FreeGroup(fs: FileSystem, d: int, n: nat, adr: seq<int>, ghost end: int)
    requires fs.Sound() && Permutation(adr, n) && d <= end
    requires forall b :: b in fs.avail <==> fs.isize <= b < fs.fsize && d <= b < end
    modifies fs
    ensures fs.Sound() && fs.error == old(fs.error)
    ensures fs.avail == old(fs.avail) + GroupOrder(d, adr, n, fs.isize, fs.fsize)
    ensures forall b :: !(fs.isize <= b < fs.fsize) ==> At(fs.disk, b) == At(old(fs.disk), b)
    ensures forall b :: b in fs.avail <==> fs.isize <= b < fs.fsize && d - n <= b < end
  {
    hide FreeList, Selection, At, Permutation;
    PermutationSize(adr, n);
    for i := 0 to n
      invariant fs.Sound() && fs.error == old(fs.error)
      invariant fs.avail == old(fs.avail) + GroupOrder(d, adr, i, fs.isize, fs.fsize)
      invariant forall b :: !(fs.isize <= b < fs.fsize) ==> At(fs.disk, b) == At(old(fs.disk), b)
      invariant forall b :: b in fs.avail <==>
        fs.isize <= b < fs.fsize && (d <= b < end || (d - n <= b < d && d - b - 1 in adr[..i]))
    {
      var f := d - (adr[i] + 1);
      SelectionPrefix(adr, i, n);
      if f < fs.fsize && f >= fs.isize {
        fs.Free(f);
      }
    }
    assert adr[..n] == adr;
  }

  /** Frees every block of the data area below the group end, once: the groups of n blocks from the last
      to the first, each in the interleaved order. */
  method InitFreeList(fs: FileSystem, n: nat, m: nat) returns (ghost order: seq<int>)
    requires fs.Sound() && fs.avail == [] && 1 <= n <= MAX_FN
    modifies fs
    ensures fs.Sound() && fs.error == old(fs.error)
    ensures Permutation(order, n) && Interleaved(order, n, m)
    ensures fs.avail == FreeOrder(GroupEnd(fs.fsize, n), n, order, fs.isize, fs.fsize)
    ensures InSequence(fs.avail, order, n)
    ensures forall b :: b in fs.avail <==> fs.isize <= b < fs.fsize && b < GroupEnd(fs.fsize, n)
    ensures fs.isize < fs.fsize ==> (fs.fsize - 1 in fs.avail <==> (fs.fsize - 1) % n != 0)
    ensures forall b :: !(fs.isize <= b < fs.fsize) ==> At(fs.disk, b) == At(old(fs.disk), b)
  {
    hide FreeList, Permutation, Interleaved, GroupOrder, At, InSequence;
    var adr := Interleave(n, m);
    order := adr;
    assert |adr| == n by {
      PermutationSize(adr, n);
    }
    var d := fs.fsize - 1;
    while d % n != 0
      invariant fs.fsize - 1 <= d <= GroupEnd(fs.fsize, n)
      decreases GroupEnd(fs.fsize, n) - d
    {
      d := d + 1;
    }
    if d < GroupEnd(fs.fsize, n) {
      NoMultipleBetween(d, GroupEnd(fs.fsize, n), n);
    }
    ghost var end := d;
    while d > 0
      invariant 0 <= d <= end && d % n == 0
      invariant fs.Sound() && fs.error == old(fs.error)
      invariant fs.avail + FreeOrder(d, n, adr, fs.isize, fs.fsize) == FreeOrder(end, n, adr, fs.isize, fs.fsize)
      invariant forall b :: !(fs.isize <= b < fs.fsize) ==> At(fs.disk, b) == At(old(fs.disk), b)
      invariant forall b :: b in fs.avail <==> fs.isize <= b < fs.fsize && d <= b < end
    {
      NoMultipleBetween(0, d, n);
      FreeGroup(fs, d, n, adr, end);
      AddMod(d, n);
      d := d - n;
    }
    PermutationSize(adr, n);
    FreeSorted(end, n, adr, fs.isize, fs.fsize);
    if fs.isize < fs.fsize {
      LastBlockLost(fs.isize, fs.fsize, n, fs.avail);
    }
  }

  lemma PermutationSize(order: seq<int>, n: nat)
    requires Permutation(order, n)
    ensures |order| == n && Selection(order, n) && forall x :: 0 <= x < n ==> x in order
  {
  }

  /** The last block of the volume is not on the list that mkfs builds, exactly when n divides fsize - 1; every
      other block of the data area is. */
  lemma LastBlockLost(isize: nat, fsize: nat, n: nat, avail: seq<int>)
    requires 2 <= isize < fsize && 1 <= n
    requires forall b :: b in avail <==> isize <= b < fsize && b < GroupEnd(fsize, n)
    ensures fsize - 1 in avail <==> (fsize - 1) % n != 0
    ensures forall b :: isize <= b < fsize - 1 ==> b in avail
  {
    if (fsize - 1) % n == 0 && fsize - 1 < GroupEnd(fsize, n) {
      NoMultipleBetween(fsize - 1, GroupEnd(fsize, n), n);
    }
  }

  // The sixth edition variant.

  const V6_MAX_FN := 100

  /** Groups that lie within the volume, the lowest block left out, are freed in the order; other blocks one by one,
      from the top down. */
  ghost predicate V6Before(order: seq<int>, low: int, high: int, x: int, y: int)
    requires order != []
  {
    var n := |order|;
    || x / n > y / n
    || (x / n == y / n && if V6Grouped(n, low, high, x) then Placed(order, n, x, y) else x > y)
  }

  predicate V6Grouped(n: nat, low: int, high: int, x: int)
    requires 1 <= n
  {
    low < x - x % n && x - x % n + n - 1 <= high
  }

  ghost predicate V6Sequence(freed: seq<int>, order: seq<int>, low: int, high: int)
    requires order != []
  {
    forall k, l :: 0 <= k < l < |freed| ==> V6Before(order, low, high, freed[k], freed[l])
  }

  /** The calls of v6_free that v6fs_initfreelist makes, in order: single blocks down to a group boundary,
      whole groups in interleaved order, and single blocks down to the inode list. Sizes are 16-bit. */
  method V6InitFreeList(isize: nat, fsize: nat, fn: nat, m: nat) returns (freed: seq<int>, ghost order: seq<int>)
    requires 1 <= fsize < 0x1_0000 && isize + 2 < 0x1_0000 && 1 <= fn < 0x1_0000
    ensures forall k, l :: 0 <= k < l < |freed| ==> freed[k] != freed[l]
    ensures forall b :: b in freed <==> isize + 2 <= b < fsize
    ensures |order| == (if fn > V6_MAX_FN then V6_MAX_FN else fn)
    ensures Permutation(order, |order|) && Interleaved(order, |order|, m)
    ensures V6Sequence(freed, order, isize + 2, fsize - 1)
  {
    hide Permutation, Interleaved, V6Sequence, V6Grouped, Covers;
    var n := if fn > V6_MAX_FN then V6_MAX_FN else fn;
    var adr := Interleave(n, m);
    PermutationSize(adr, n);
    order := adr;
    var high, low := fsize - 1, isize + 2;
    var i;
    freed, i := V6Top(low, high, n, adr);
    freed, i := V6Groups(freed, i, low, high, n, adr);
    freed := V6Bottom(freed, i, low, high, n, adr);
  }

  method V6Top(low: nat, high: nat, n: nat, adr: seq<int>) returns (freed: seq<int>, i: nat)
    requires 1 <= n == |adr| && low >= 2
    ensures i <= high && (i >= low - 1 || i == high) && (i < low || (i + 1) % n == 0)
    ensures Covers(freed, i, high) && V6Sequence(freed, adr, low, high)
  {
    hide V6Sequence, V6Grouped, Covers;
    freed, i := [], high;
    V6None(adr, low, high);
    while (i + 1) % n != 0
      invariant i <= high && (i >= low - 1 || i == high)
      invariant Covers(freed, i, high) && V6Sequence(freed, adr, low, high)
      invariant (i + 1) / n == (high + 1) / n
      decreases i
    {
      if i < low {
        break;
      }
      AboveGroups(n, low, high, i);
      freed := V6Single(freed, adr, low, i, high);
      i := i - 1;
    }
  }

  method V6Groups(before: seq<int>, top: nat, low: nat, high: nat, n: nat, adr: seq<int>)
    returns (freed: seq<int>, i: nat)
    requires Permutation(adr, n) && 1 <= n == |adr|
    requires top <= high && (top >= low - 1 || top == high) && (top < low || (top + 1) % n == 0)
    requires Covers(before, top, high) && V6Sequence(before, adr, low, high)
    ensures i < low + n && i <= high && (i >= low - 1 || i == high) && (i < low || (i + 1) % n == 0)
    ensures Covers(freed, i, high) && V6Sequence(freed, adr, low, high)
  {
    hide V6Sequence, V6Grouped, Covers, Permutation;
    freed, i := before, top;
    while i >= low + n
      invariant i <= high && (i >= low - 1 || i == high) && (i < low || (i + 1) % n == 0)
      invariant Covers(freed, i, high) && V6Sequence(freed, adr, low, high)
      decreases i
    {
      freed := V6Group(freed, i, low, high, n, adr);
      AddMod(i + 1, n);
      i := i - n;
    }
  }

  method V6Bottom(before: seq<int>, top: nat, low: nat, high: nat, n: nat, adr: seq<int>) returns (freed: seq<int>)
    requires 1 <= n == |adr| && low >= 2
    requires top < low + n && top <= high && (top >= low - 1 || top == high) && (top < low || (top + 1) % n == 0)
    requires Covers(before, top, high) && V6Sequence(before, adr, low, high)
    ensures V6Sequence(freed, adr, low, high)
    ensures forall k, l :: 0 <= k < l < |freed| ==> freed[k] != freed[l]
    ensures forall b :: b in freed <==> low <= b <= high
  {
    hide V6Sequence, V6Grouped, Covers;
    freed := before;
    var i := top;
    if i >= low {
      InGroup(i + 1, n, 0);
    }
    while i >= low
      invariant i <= high && (i >= low - 1 || i == high)
      invariant Covers(freed, i, high) && V6Sequence(freed, adr, low, high)
      invariant i < low || i - i % n <= low
      decreases i
    {
      LowGroup(n, low, high, i);
      freed := V6Single(freed, adr, low, i, high);
      OneDown(i, n);
      i := i - 1;
    }
    Covered(freed, i, low, high);
  }

  lemma V6None(order: seq<int>, low: int, high: int)
    requires order != []
    ensures V6Sequence([], order, low, high) && Covers([], high, high)
  {
  }

  /** The group of i ends above the volume if no group ends between i and the top. */
  lemma AboveGroups(n: nat, low: int, high: int, i: nat)
    requires 1 <= n && i <= high && (i + 1) % n != 0 && (i + 1) / n == (high + 1) / n
    ensures !V6Grouped(n, low, high, i) && i / n == (high + 1) / n
  {
    var q, r := (i + 1) / n, (i + 1) % n;
    assert i + 1 == n * q + r && high + 1 == n * q + (high + 1) % n;
    ModOf(q, n, r - 1);
    assert i == n * (i / n) + i % n && n * (i / n) == n * q;
    assert n * (i / n - q) == n * (i / n) - n * q;
    SmallMultiple(n, i / n - q, 0);
  }

  lemma LowGroup(n: nat, low: int, high: int, i: nat)
    requires 1 <= n && i - i % n <= low
    ensures !V6Grouped(n, low, high, i)
  {
  }

  lemma Covered(freed: seq<int>, i: int, low: int, high: int)
    requires Covers(freed, i, high) && i < low && (i == low - 1 || i == high)
    ensures forall k, l :: 0 <= k < l < |freed| ==> freed[k] != freed[l]
    ensures forall b :: b in freed <==> low <= b <= high
  {
  }

  lemma OneDown(i: nat, n: nat)
    requires 1 <= n && i > 0
    ensures i % n != 0 ==> (i - 1) - (i - 1) % n == i - i % n
  {
    if i % n != 0 {
      assert i - 1 == n * (i / n) + (i % n - 1);
      ModOf(i / n, n, i % n - 1);
    }
  }

  /** Blocks in order have groups in order. */
  lemma GroupsOrdered(x: nat, y: nat, n: nat)
    requires 1 <= n && x <= y
    ensures x / n <= y / n && (x / n == y / n ==> x - x % n == y - y % n)
  {
    var p, q := x / n, y / n;
    assert x == n * p + x % n && y == n * q + y % n;
    assert n * (p - q) == n * p - n * q;
    TimesAtLeast(n, p - q);
  }

  function V6Single(freed: seq<int>, ghost order: seq<int>, ghost low: int, i: nat, ghost high: int): (freed': seq<int>)
    requires Covers(freed, i, high) && i <= high
    requires order != [] && V6Sequence(freed, order, low, high) && !V6Grouped(|order|, low, high, i)
    ensures Covers(freed', i - 1, high) && V6Sequence(freed', order, low, high)
  {
    V6Next(freed, order, low, high, i);
    assert i !in freed;
    freed + [i]
  }

  lemma V6Next(freed: seq<int>, order: seq<int>, low: int, high: int, i: nat)
    requires order != [] && V6Sequence(freed, order, low, high) && !V6Grouped(|order|, low, high, i)
    requires Covers(freed, i, high)
    ensures V6Sequence(freed + [i], order, low, high)
  {
    hide Placed;
    forall b | b in freed
      ensures V6Before(order, low, high, b, i)
    {
      GroupsOrdered(i, b, |order|);
    }
  }

  method V6Group(freed: seq<int>, i: nat, low: int, high: int, n: nat, adr: seq<int>) returns (freed': seq<int>)
    requires Covers(freed, i, high) && Permutation(adr, n) && |adr| == n && 1 <= n && low + n <= i <= high
    requires (i + 1) % n == 0 && low >= 0 && V6Sequence(freed, adr, low, high)
    ensures Covers(freed', i - n, high) && V6Sequence(freed', adr, low, high)
  {
    hide Selection, V6Sequence, V6Grouped;
    freed' := freed;
    for j := 0 to n
      invariant forall k, l :: 0 <= k < l < |freed'| ==> freed'[k] != freed'[l]
      invariant forall b :: b in freed' <==> i < b <= high || (i - n < b <= i && i - b in adr[..j])
      invariant V6Sequence(freed', adr, low, high)
    {
      SelectionPrefix(adr, j, n);
      assert i - adr[j] !in freed';
      V6InGroup(freed', adr, low, high, i, j);
      freed' := freed' + [i - adr[j]];
    }
    assert adr[..n] == adr;
  }

  lemma V6InGroup(freed: seq<int>, adr: seq<int>, low: int, high: int, i: nat, j: nat)
    requires adr != [] && Selection(adr, |adr|) && j < |adr| && low + |adr| <= i <= high && (i + 1) % |adr| == 0
    requires low >= 0 && V6Sequence(freed, adr, low, high)
    requires forall b :: b in freed ==> i < b <= high || (i - |adr| < b <= i && i - b in adr[..j])
    ensures V6Sequence(freed + [i - adr[j]], adr, low, high)
  {
    var n, f := |adr|, i - adr[j];
    InGroup(i + 1, n, adr[j]);
    forall b | b in freed
      ensures V6Before(adr, low, high, b, f)
    {
      if b > i {
        GroupsOrdered(i + 1, b, n);
      } else {
        InGroup(i + 1, n, i - b);
        var k :| 0 <= k < j && adr[..j][k] == i - b;
        assert adr[k] == n - 1 - b % n && adr[j] == n - 1 - f % n;
        assert Placed(adr, n, b, f);
      }
    }
  }

  /** The calls so far have freed the blocks above i, each once. */
  ghost predicate Covers(freed: seq<int>, i: int, high: int) {
    && (forall k, l :: 0 <= k < l < |freed| ==> freed[k] != freed[l])
    && (forall b :: b in freed <==> i < b <= high)
  }
}
