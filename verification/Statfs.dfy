/** Counting the free blocks of a seventh edition or 2.9BSD volume by walking the chain (v7fs_statfs,
    bsd29fs_statfs), on any disk image whatever. */
module Statfs {
  import opened DiskFormat
  import opened FreeChain
  import opened Superblock

  datatype Count = Counted(free: nat) | BadCount | LoopDetected | BadLink

  /** The table in the n-th link block behind t. */
  function TableAfter(d: Disk, t: FreeTable, n: nat): (after: FreeTable)
    requires t.Sized()
    ensures after.Sized()
  {
    if n == 0 then t else NextTable(d, TableAfter(d, t, n - 1))
  }

  predicate CountOk(t: FreeTable) {
    0 <= t.nfree <= NICFREE
  }

  predicate Links(t: FreeTable)
    requires t.Sized()
  {
    CountOk(t) && t.nfree > 0 && t.free[0] != 0
  }

  predicate Follows(t: FreeTable, isize: int, fsize: int)
    requires t.Sized()
  {
    Links(t) && isize <= t.free[0] < fsize
  }

  /** The walk, for any superblock: s_isize is unsigned, s_fsize may be anything. `links` counts the link blocks that
      are read. */
  method CountFree(d: Disk, t: FreeTable, isize: nat, fsize: int) returns (r: Count, links: nat)
    requires t.Sized()
    ensures links <= if fsize < 0 then 0 else fsize
    ensures forall i :: 0 <= i < links ==> Follows(TableAfter(d, t, i), isize, fsize)
    ensures var last := TableAfter(d, t, links);
            && (r.BadCount? <==> !CountOk(last)) && (r.Counted? <==> CountOk(last) && !Links(last))
            && (r.LoopDetected? <==> Links(last) && links >= fsize)
            && (r.BadLink? <==> Links(last) && links < fsize && !Follows(last, isize, fsize))
    ensures r.Counted? ==> exists list :: Chain(d, t, list, 0) && |list| == r.free
    ensures forall list :: FreeList(d, t, list, isize, fsize) ==> r == Counted(|list|)
  {
    hide Chain, TableAt, At, FreeList, Leads;
    links := 0;
    var nfree, next, bfree, listlen := t.nfree, t.free[0], 0, 0;
    ghost var cur, above := t, [];
    WalkStart(d, t, isize, fsize);
    while true
      invariant cur.Sized() && nfree == cur.nfree && next == cur.free[0] && cur == TableAfter(d, t, links)
      invariant forall i :: 0 <= i < links ==> Follows(TableAfter(d, t, i), isize, fsize)
      invariant bfree == |above| && listlen == links <= if fsize < 0 then 0 else fsize
      invariant Leads(d, t, cur, above)
      invariant forall list :: FreeList(d, t, list, isize, fsize) ==> OnTheWay(d, cur, list, above, links, isize, fsize)
      decreases fsize - links
    {
      if nfree < 0 || nfree > NICFREE {
        StopBad(d, cur, above, links, t, isize, fsize);
        return BadCount, links;
      }
      if nfree > 0 {
        bfree := bfree + if next != 0 then nfree else nfree - 1;
      }
      if nfree == 0 || next == 0 {
        WalkEnd(d, t, cur, above, links, isize, fsize);
        return Counted(bfree), links;
      }
      listlen := listlen + 1;
      WalkLink(d, t, cur, above, links, isize, fsize);
      if listlen > fsize {
        return LoopDetected, links;
      }
      if next < isize || next >= fsize {
        return BadLink, links;
      }
      var fb := TableAt(At(d, next), 0);
      links := links + 1;
      WalkStep(d, t, cur, fb, above, links, isize, fsize);
      above := cur.free[..nfree] + above;
      cur := fb;
      nfree, next := fb.nfree, fb.free[0];
    }
  }

  /** Whatever list table cur stands for, with `above` on top it is a list of t. */
  ghost predicate Leads(d: Disk, t: FreeTable, cur: FreeTable, above: seq<int>) {
    forall rest :: Chain(d, cur, rest, 0) ==> Chain(d, t, rest + above, 0)
  }

  /** Of the list that is being walked, `above` has been counted and table cur stands for the rest. */
  ghost predicate OnTheWay(d: Disk, cur: FreeTable, list: seq<int>, above: seq<int>, links: nat, lo: int, hi: int) {
    && |above| <= |list|
    && list == list[..|list| - |above|] + above
    && Chain(d, cur, list[..|list| - |above|], 1)
    && links <= |above|
    && FreeListInside(list, lo, hi)
  }

  ghost predicate FreeListInside(list: seq<int>, lo: int, hi: int) {
    (forall b :: b in list ==> lo <= b < hi) && |list| <= if lo <= hi then hi - lo else 0
  }

  lemma ListInside(d: Disk, t: FreeTable, list: seq<int>, lo: int, hi: int)
    requires FreeList(d, t, list, lo, hi)
    ensures FreeListInside(list, lo, hi)
  {
    hide Chain;
    assert list != [] ==> lo < hi by {
      if list != [] {
        var b := list[0];
        assert b in list;
      }
    }
    if lo <= hi {
      ListFits(list, lo, hi);
    }
  }

  lemma WalkStart(d: Disk, t: FreeTable, lo: int, hi: int)
    ensures Leads(d, t, t, [])
    ensures forall list :: FreeList(d, t, list, lo, hi) ==> OnTheWay(d, t, list, [], 0, lo, hi)
  {
    hide Chain;
    forall rest | Chain(d, t, rest, 0)
      ensures Chain(d, t, rest + [], 0)
    {
      assert rest + [] == rest;
    }
    forall list | FreeList(d, t, list, lo, hi)
      ensures OnTheWay(d, t, list, [], 0, lo, hi)
    {
      ListInside(d, t, list, lo, hi);
      assert list[..|list|] == list && list + [] == list;
    }
  }

  lemma StopBad(d: Disk, cur: FreeTable, above: seq<int>, links: nat, t: FreeTable, lo: int, hi: int)
    requires cur.Sized() && (cur.nfree < 0 || cur.nfree > NICFREE)
    ensures forall list :: !OnTheWay(d, cur, list, above, links, lo, hi)
  {
  }

  /** The last table. */
  lemma WalkEnd(d: Disk, t: FreeTable, cur: FreeTable, above: seq<int>, links: nat, lo: int, hi: int)
    requires cur.Sized() && 0 <= cur.nfree <= NICFREE && (cur.nfree == 0 || cur.free[0] == 0)
    requires Leads(d, t, cur, above)
    ensures var n := |above| + if cur.nfree > 0 then cur.nfree - 1 else 0;
      && (exists list :: Chain(d, t, list, 0) && |list| == n)
      && forall list :: OnTheWay(d, cur, list, above, links, lo, hi) ==> |list| == n
  {
    var rest: seq<int> := if cur.nfree > 0 then cur.free[1..cur.nfree] else [];
    assert Chain(d, cur, rest, 0);
    assert Chain(d, t, rest + above, 0);
    forall list | OnTheWay(d, cur, list, above, links, lo, hi)
      ensures |list| == |above| + |rest|
    {
      assert list[..|list| - |above|] == rest;
    }
  }

  /** A table that names a link block of a good list: the block is in range and not too many were read. */
  lemma WalkLink(d: Disk, t: FreeTable, cur: FreeTable, above: seq<int>, links: nat, lo: int, hi: int)
    requires cur.Sized() && 0 < cur.nfree <= NICFREE && cur.free[0] != 0 && 0 <= lo
    ensures forall list :: OnTheWay(d, cur, list, above, links, lo, hi) ==> links + 1 <= hi && lo <= cur.free[0] < hi
  {
    forall list | OnTheWay(d, cur, list, above, links, lo, hi)
      ensures links + 1 <= hi && lo <= cur.free[0] < hi
    {
      var rest := list[..|list| - |above|];
      assert rest[|rest| - cur.nfree..][0] == cur.free[0];
      assert rest[|rest| - cur.nfree] in list;
    }
  }

  /** Going on to the table in the link block. */
  lemma WalkStep(d: Disk, t: FreeTable, cur: FreeTable, fb: FreeTable, above: seq<int>, links: nat, lo: int, hi: int)
    requires cur.Sized() && 0 < cur.nfree <= NICFREE && cur.free[0] != 0 && fb == NextTable(d, cur) && links > 0
    requires Leads(d, t, cur, above)
    ensures var more := cur.free[..cur.nfree] + above;
      && Leads(d, t, fb, more)
      && forall list :: OnTheWay(d, cur, list, above, links - 1, lo, hi) ==> OnTheWay(d, fb, list, more, links, lo, hi)
  {
    hide Chain, OnTheWay;
    var entries: seq<int> := cur.free[..cur.nfree];
    forall rest | Chain(d, fb, rest, 0)
      ensures Chain(d, t, rest + (entries + above), 0)
    {
      ChainLink(d, cur, rest);
      assert rest + (entries + above) == rest + entries + above;
    }
    forall list | OnTheWay(d, cur, list, above, links - 1, lo, hi)
      ensures OnTheWay(d, fb, list, entries + above, links, lo, hi)
    {
      WalkOn(d, cur, fb, list, above, links, lo, hi);
    }
  }

  lemma WalkOn(d: Disk, cur: FreeTable, fb: FreeTable, list: seq<int>, above: seq<int>, links: nat, lo: int, hi: int)
    requires cur.Sized() && 0 < cur.nfree <= NICFREE && cur.free[0] != 0 && fb == NextTable(d, cur) && links > 0
    requires OnTheWay(d, cur, list, above, links - 1, lo, hi)
    ensures OnTheWay(d, fb, list, cur.free[..cur.nfree] + above, links, lo, hi)
  {
    hide NextTable, FreeListInside;
    var entries: seq<int> := cur.free[..cur.nfree];
    var rest := list[..|list| - |above|];
    Split3(list, above, entries);
  }

  /** Cutting two pieces off the end of a list. */
  lemma Split3(list: seq<int>, above: seq<int>, entries: seq<int>)
    requires |above| + |entries| <= |list|
    ensures var n := |list| - |above|;
      && list[..n][..n - |entries|] == list[..|list| - |entries + above|]
      && (list == list[..n] + above && list[..n][n - |entries|..] == entries ==>
            list == list[..|list| - |entries + above|] + (entries + above))
  {
    var n := |list| - |above|;
    if list == list[..n] + above && list[..n][n - |entries|..] == entries {
      assert list[..n] == list[..n - |entries|] + entries;
    }
  }

  lemma ChainLink(d: Disk, t: FreeTable, rest: seq<int>)
    requires t.Sized() && 0 < t.nfree <= NICFREE && t.free[0] != 0
    requires Chain(d, NextTable(d, t), rest, 0)
    ensures Chain(d, t, rest + t.free[..t.nfree], 0)
  {
    var list := rest + t.free[..t.nfree];
    assert list[..|list| - t.nfree] == rest;
    assert list[|list| - t.nfree..] == t.free[..t.nfree];
  }
}
