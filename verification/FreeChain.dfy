/** The chained free list: a table in the superblock whose first entry names a block holding the
    next table, and so on. Seen from outside it is a stack of block numbers. */
module FreeChain {
  import opened DiskFormat
  import opened Tally

  /** Table t and the link blocks behind it spell the stack `list`, bottom first. Every table read
      from a link block holds at least `least` entries. */
  ghost predicate Chain(d: Disk, t: FreeTable, list: seq<int>, least: nat)
    decreases |list|
  {
    t.Sized() && 0 <= t.nfree <= NICFREE &&
    if t.nfree == 0 then
      list == []
    else if t.free[0] == 0 then
      list == t.free[1..t.nfree]
    else
      && t.nfree <= |list|
      && list[|list| - t.nfree..] == t.free[..t.nfree]
      && NextTable(d, t).nfree >= least
      && Chain(d, NextTable(d, t), list[..|list| - t.nfree], least)
  }

  /** The table in the link block that t names. */
  function NextTable(d: Disk, t: FreeTable): FreeTable
    requires t.Sized()
  {
    TableAt(At(d, t.free[0]), 0)
  }

  lemma ChainUnique(d: Disk, t: FreeTable, list: seq<int>, other: seq<int>, least: nat)
    requires Chain(d, t, list, least) && Chain(d, t, other, least)
    ensures list == other
    decreases |list|
  {
    if t.nfree > 0 && t.free[0] != 0 {
      var rest, rest' := |list| - t.nfree, |other| - t.nfree;
      ChainUnique(d, NextTable(d, t), list[..rest], other[..rest'], least);
      assert list == list[..rest] + list[rest..];
      assert other == other[..rest'] + other[rest'..];
    }
  }

  /** Writing blocks that are not on the list leaves the list alone. */
  lemma {:induction false} ChainFrame(d: Disk, d': Disk, t: FreeTable, list: seq<int>, least: nat)
    requires Chain(d, t, list, least)
    requires forall b :: b in list ==> At(d', b) == At(d, b)
    ensures Chain(d', t, list, least)
    decreases |list|
  {
    if t.nfree > 0 && t.free[0] != 0 {
      var rest := |list| - t.nfree;
      assert list[rest] == list[rest..][0] == t.free[0];
      assert list[rest] in list;
      ChainFrame(d, d', NextTable(d, t), list[..rest], least);
    }
  }

  /** The list is empty exactly in the two "full" representations of the superblock table. */
  lemma ChainEmpty(d: Disk, t: FreeTable, list: seq<int>)
    requires Chain(d, t, list, 1) && 0 !in list
    ensures list == [] <==> t.nfree == 0 || (t.nfree == 1 && t.free[0] == 0)
    ensures list == [] <==> t.nfree == 0 || t.free[t.nfree - 1] == 0
  {
    if t.nfree > 0 && list != [] {
      assert t.free[t.nfree - 1] == list[|list| - 1];
    }
  }

  /** Taking the last entry of the table pops the stack; when that entry is the link block, the table
      found in the block represents what is left. */
  lemma ChainPop(d: Disk, t: FreeTable, list: seq<int>)
    requires Chain(d, t, list, 1) && 0 !in list && list != []
    ensures 0 < t.nfree <= NICFREE && t.free[t.nfree - 1] == list[|list| - 1]
    ensures t.nfree > 1 ==> Chain(d, t.(nfree := t.nfree - 1), list[..|list| - 1], 1)
    ensures t.nfree == 1 ==>
      var next := NextTable(d, t);
      next.nfree > 0 && Chain(d, next, list[..|list| - 1], 1)
  {
    ChainEmpty(d, t, list);
    var less := list[..|list| - 1];
    if t.free[0] == 0 {
      assert less == t.free[1..t.nfree - 1];
    } else {
      var rest := |list| - t.nfree;
      assert list[rest..][t.nfree - 1] == list[|list| - 1];
      assert less[..rest] == list[..rest];
      assert less[rest..] == t.free[..t.nfree - 1];
    }
  }

  /** The same, when in addition blocks that stay off the list are written. */
  lemma ChainAfterPop(d: Disk, t: FreeTable, list: seq<int>, d': Disk, t': FreeTable)
    requires Chain(d, t, list, 1) && 0 !in list && list != []
    requires t' == if t.nfree > 1 then t.(nfree := t.nfree - 1) else NextTable(d, t)
    requires forall b :: b in list[..|list| - 1] ==> At(d', b) == At(d, b)
    ensures Chain(d', t', list[..|list| - 1], 1)
  {
    hide Chain, At, NextTable;
    ChainPop(d, t, list);
    ChainFrame(d, d', t', list[..|list| - 1], 1);
  }

  /** An empty table first gets the terminating zero. */
  function Terminated(t: FreeTable): FreeTable
    requires t.Sized()
  {
    if t.nfree <= 0 then FreeTable(1, t.free[0 := 0]) else t
  }

  lemma ChainTerminated(d: Disk, t: FreeTable, list: seq<int>)
    requires Chain(d, t, list, 1)
    ensures t.Sized() && Chain(d, Terminated(t), list, 1) && 0 < Terminated(t).nfree <= NICFREE
  {
    assert t.nfree == 0 ==> list == Terminated(t).free[1..1];
  }

  /** A table that is not full gets another entry. */
  lemma ChainMore(d: Disk, t: FreeTable, list: seq<int>, b: Long)
    requires Chain(d, t, list, 1) && 0 < t.nfree < NICFREE
    ensures Chain(d, FreeTable(t.nfree + 1, t.free[t.nfree := b]), list + [b], 1)
  {
    var t2, more := FreeTable(t.nfree + 1, t.free[t.nfree := b]), list + [b];
    if t.free[0] == 0 {
      assert t2.free[1..t2.nfree] == t.free[1..t.nfree] + [b];
    } else {
      var rest := |list| - t.nfree;
      assert more[..rest] == list[..rest];
      assert more[rest..] == list[rest..] + [b];
      assert t2.free[..t2.nfree] == t.free[..t.nfree] + [b];
    }
  }

  /** A full table is saved in the block being freed, which becomes the only entry. */
  lemma ChainSpill(d: Disk, t: FreeTable, list: seq<int>, b: Long)
    requires Chain(d, t, list, 1) && t.nfree > 0 && 0 < b < |d| && b !in list
    ensures Chain(d[b := PutTable(d[b], 0, t)], FreeTable(1, t.free[0 := b]), list + [b], 1)
  {
    hide PutTable, TableAt;
    var d', more := d[b := PutTable(d[b], 0, t)], list + [b];
    TableRoundTrip(d[b], 0, t);
    AtWrite(d, b, PutTable(d[b], 0, t));
    ChainFrame(d, d', t, list, 1);
    assert more[..|list|] == list && more[|list|..] == [b];
    assert t.free[0 := b][..1] == [b];
  }

  /** Adding an entry pushes; a full table is first saved in the block being freed. */
  lemma ChainPush(d: Disk, t: FreeTable, list: seq<int>, b: Long)
    requires Chain(d, t, list, 1) && 0 < b < |d| && b !in list
    ensures var t1 := Terminated(t);
      if t1.nfree < NICFREE then
        Chain(d, FreeTable(t1.nfree + 1, t1.free[t1.nfree := b]), list + [b], 1)
      else
        Chain(d[b := PutTable(d[b], 0, t1)], FreeTable(1, t1.free[0 := b]), list + [b], 1)
  {
    hide Chain, PutTable;
    ChainTerminated(d, t, list);
    if Terminated(t).nfree < NICFREE {
      ChainMore(d, Terminated(t), list, b);
    } else {
      ChainSpill(d, Terminated(t), list, b);
    }
  }

  // The list of a volume whose data area is lo..hi.

  /** Table t and the chain behind it spell the stack `list` of distinct blocks of the data area. */
  ghost predicate FreeList(d: Disk, t: FreeTable, list: seq<int>, lo: int, hi: int) {
    && Chain(d, t, list, 1)
    && (forall b :: b in list ==> lo <= b < hi)
    && Once(multiset(list))
  }

  lemma FreeListPop(d: Disk, t: FreeTable, list: seq<int>, lo: int, hi: int, d': Disk, t': FreeTable)
    requires FreeList(d, t, list, lo, hi) && 0 < lo && list != []
    requires t' == if t.nfree > 1 then t.(nfree := t.nfree - 1) else NextTable(d, t)
    requires forall b :: b in list[..|list| - 1] ==> At(d', b) == At(d, b)
    ensures FreeList(d', t', list[..|list| - 1], lo, hi)
  {
    hide Chain, At, NextTable;
    var rest := list[..|list| - 1];
    assert forall b :: b in rest ==> b in list;
    assert 0 !in list;
    ChainAfterPop(d, t, list, d', t');
    TopOnce(list);
  }

  lemma FreeListFrame(d: Disk, d': Disk, t: FreeTable, list: seq<int>, lo: int, hi: int)
    requires FreeList(d, t, list, lo, hi)
    requires forall b :: b in list ==> At(d', b) == At(d, b)
    ensures FreeList(d', t, list, lo, hi)
  {
    hide Chain, At;
    ChainFrame(d, d', t, list, 1);
  }

  lemma TopOnce(list: seq<int>)
    requires list != [] && Once(multiset(list))
    ensures var top, rest := list[|list| - 1], list[..|list| - 1];
      multiset(list) == multiset(rest) + multiset{top} && Once(multiset(rest)) && top !in rest
  {
    var top, rest := list[|list| - 1], list[..|list| - 1];
    assert list == rest + [top];
    forall b
      ensures multiset(rest)[b] + multiset{top}[b] <= 1
    {
      assert multiset(list)[b] == multiset(rest)[b] + multiset{top}[b];
    }
  }

  /** The first entry taken from the table of a list, and when there is none. */
  lemma FreeListTop(d: Disk, t: FreeTable, list: seq<int>, lo: int, hi: int)
    requires FreeList(d, t, list, lo, hi) && 0 < lo
    ensures list == [] <==> t.nfree == 0 || t.free[t.nfree - 1] == 0
    ensures list != [] ==>
      && 0 < t.nfree <= NICFREE && t.free[t.nfree - 1] == list[|list| - 1] && lo <= list[|list| - 1] < hi
      && (t.nfree == 1 ==> NextTable(d, t).nfree > 0)
  {
    hide At, NextTable;
    ChainEmpty(d, t, list);
    if list != [] {
      ChainPop(d, t, list);
      assert list[|list| - 1] in list;
    }
  }

  lemma FreeListPush(d: Disk, t: FreeTable, list: seq<int>, lo: int, hi: int, b: Long)
    requires FreeList(d, t, list, lo, hi) && 0 < lo <= b < hi <= |d| && b !in list
    ensures var t1 := Terminated(t);
      if t1.nfree < NICFREE then
        FreeList(d, FreeTable(t1.nfree + 1, t1.free[t1.nfree := b]), list + [b], lo, hi)
      else
        FreeList(d[b := PutTable(d[b], 0, t1)], FreeTable(1, t1.free[0 := b]), list + [b], lo, hi)
  {
    hide Chain, PutTable;
    ChainPush(d, t, list, b);
    forall x
      ensures multiset(list + [b])[x] <= 1
    {
      assert multiset(list + [b])[x] == multiset(list)[x] + multiset{b}[x];
    }
  }
}
