/** The table of in-core inodes (iget, igrab, irele and iupdat in ufs_inode.c; syncinodes in ufs_syscalls2.c). */
module InodeTables {
  import opened HashChains
  import opened FreeInodes

  const INOHSZ := 16
  const ALONE := INOHSZ       // the chain of inodes that are on no hash chain

  /** What is kept of an inode on the disk, but for its times. */
  datatype Dinode = Dinode(mode: nat, nlink: int, uid: nat, gid: nat, size: nat, addr: seq<int>, flags: nat)

  /** struct inode without its links. dirty stands for IUPD, IACC, ICHG or IMOD. */
  datatype Incore = Incore(number: nat, count: nat, locked: bool, dirty: bool, hashed: bool, d: Dinode) {
    function Home(): nat {
      if hashed then number % INOHSZ else ALONE
    }

    predicate Is(ino: nat) {
      hashed && number == ino
    }
  }

  type Blocks = map<nat, Dinode>

  function Homes(t: seq<Incore>): (h: seq<nat>)
    ensures |h| == |t| && forall i :: 0 <= i < |t| ==> h[i] == t[i].Home() <= ALONE
  {
    seq(|t|, i requires 0 <= i < |t| => t[i].Home())
  }

  /** At most one in-core inode per inode number. */
  ghost predicate OneEach(t: seq<Incore>) {
    forall i, j :: 0 <= i < j < |t| && t[i].hashed && t[j].hashed ==> t[i].number != t[j].number
  }

  /** The free list holds the inodes without references. */
  ghost predicate Counted(t: seq<Incore>, free: seq<nat>) {
    forall i :: 0 <= i < |t| ==> (t[i].count == 0 <==> i in free)
  }

  /** What is not marked as changed is as it is on the disk; without references nothing is locked or marked. */
  ghost predicate Written(t: seq<Incore>, dinode: Blocks) {
    forall i :: 0 <= i < |t| ==>
      && (t[i].hashed ==> t[i].number in dinode && (!t[i].dirty ==> dinode[t[i].number] == t[i].d))
      && (t[i].count == 0 ==> !t[i].dirty && !t[i].locked)
      && (!t[i].hashed ==> t[i].count == 0)
  }

  /** The inode ino, as any process sees it: the in-core copy, or else the one on the disk. */
  ghost function Current(t: seq<Incore>, dinode: Blocks, ino: nat): Dinode
    requires ino in dinode
  {
    if exists i :: 0 <= i < |t| && t[i].Is(ino) then
      var i :| 0 <= i < |t| && t[i].Is(ino); t[i].d
    else dinode[ino]
  }

  lemma CurrentIn(t: seq<Incore>, dinode: Blocks, i: nat)
    requires OneEach(t) && i < |t| && t[i].hashed && t[i].number in dinode
    ensures Current(t, dinode, t[i].number) == t[i].d
  {
    assert t[i].Is(t[i].number);
  }

  /** Nothing changes for the users of any inode. */
  ghost predicate Same(t: seq<Incore>, dinode: Blocks, t': seq<Incore>, dinode': Blocks) {
    dinode'.Keys == dinode.Keys && forall ino :: ino in dinode ==> Current(t', dinode', ino) == Current(t, dinode, ino)
  }

  /** Only references, locks and marks change. */
  lemma SameContents(t: seq<Incore>, dinode: Blocks, i: nat, v: Incore)
    requires i < |t| && OneEach(t) && v.hashed == t[i].hashed && v.number == t[i].number && v.d == t[i].d
    ensures OneEach(t[i := v]) && Same(t, dinode, t[i := v], dinode)
  {
    var t' := t[i := v];
    forall ino | ino in dinode
      ensures Current(t', dinode, ino) == Current(t, dinode, ino)
    {
      assert forall j :: 0 <= j < |t| ==> (t'[j].Is(ino) <==> t[j].Is(ino)) && t'[j].d == t[j].d;
      if j :| 0 <= j < |t| && t[j].Is(ino) {
        CurrentIn(t, dinode, j);
        CurrentIn(t', dinode, j);
      }
    }
  }

  /** An unreferenced inode makes room for another one, which is read from the disk. */
  lemma SameLoaded(t: seq<Incore>, dinode: Blocks, i: nat, v: Incore)
    requires i < |t| && OneEach(t) && Written(t, dinode) && t[i].count == 0
    requires v.hashed && v.number in dinode && v.d == dinode[v.number] && forall j :: 0 <= j < |t| ==>
      !t[j].Is(v.number)
    ensures OneEach(t[i := v]) && Same(t, dinode, t[i := v], dinode)
  {
    var t' := t[i := v];
    assert forall j :: 0 <= j < |t| && j != i ==> t'[j] == t[j];
    forall ino | ino in dinode
      ensures Current(t', dinode, ino) == Current(t, dinode, ino)
    {
      if ino == v.number {
        CurrentIn(t', dinode, i);
      } else if j :| 0 <= j < |t| && t[j].Is(ino) {
        CurrentIn(t, dinode, j);
        if j != i {
          CurrentIn(t', dinode, j);
        } else {
          assert forall k :: 0 <= k < |t| ==> !t'[k].Is(ino);
        }
      } else {
        assert forall k :: 0 <= k < |t| ==> !t'[k].Is(ino);
      }
    }
  }

  /** An inode is written out. */
  lemma SameWritten(t: seq<Incore>, dinode: Blocks, i: nat, v: Incore)
    requires i < |t| && OneEach(t) && t[i].hashed && t[i].number in dinode && v == t[i].(dirty := false)
    ensures OneEach(t[i := v]) && Same(t, dinode, t[i := v], dinode[t[i].number := t[i].d])
  {
    var t', dinode' := t[i := v], dinode[t[i].number := t[i].d];
    SameContents(t, dinode, i, v);
    forall ino | ino in dinode
      ensures Current(t', dinode', ino) == Current(t, dinode, ino)
    {
      if ino == t[i].number {
        CurrentIn(t', dinode', i);
        CurrentIn(t, dinode, i);
      } else {
        assert dinode'[ino] == dinode[ino];
      }
    }
  }

  lemma CountedSame(t: seq<Incore>, free: seq<nat>, i: nat, v: Incore)
    requires Counted(t, free) && i < |t| && (v.count == 0 <==> t[i].count == 0)
    ensures Counted(t[i := v], free)
  {
  }

  /** An inode is taken off the free list. */
  lemma CountedTaken(t: seq<Incore>, free: seq<nat>, k: nat, v: Incore)
    requires Counted(t, free) && HashChains.Distinct(free) && k < |free| && free[k] < |t| && v.count > 0
    ensures Counted(t[free[k] := v], Remove(free, k))
  {
    var r := Remove(free, k);
    forall i | 0 <= i < |t|
      ensures t[free[k] := v][i].count == 0 <==> i in r
    {
      if i in free {
        var j :| 0 <= j < |free| && free[j] == i;
        if j != k {
          assert r[if j < k then j else j - 1] == i;
        }
      }
      if i in r {
        var j :| 0 <= j < |r| && r[j] == i;
        assert free[if j < k then j else j + 1] == i;
      }
    }
  }

  lemma CountedGiven(t: seq<Incore>, free: seq<nat>, i: nat, v: Incore)
    requires Counted(t, free) && i < |t| && v.count == 0
    ensures Counted(t[i := v], free + [i])
  {
  }

  lemma WrittenOne(t: seq<Incore>, dinode: Blocks, i: nat, v: Incore)
    requires Written(t, dinode) && i < |t|
    requires v.hashed ==> v.number in dinode && (!v.dirty ==> dinode[v.number] == v.d)
    requires v.count == 0 ==> !v.dirty && !v.locked
    requires !v.hashed ==> v.count == 0
    ensures Written(t[i := v], dinode)
  {
  }

  /** The inode on the disk changes with the in-core one. */
  lemma WrittenBack(t: seq<Incore>, dinode: Blocks, i: nat, v: Incore)
    requires Written(t, dinode) && OneEach(t) && i < |t| && t[i].hashed && v.hashed && v.number == t[i].number
    requires v.count == 0 ==> !v.dirty && !v.locked
    ensures Written(t[i := v], dinode[v.number := v.d])
  {
  }

  lemma HomesSame(t: seq<Incore>, i: nat, v: Incore)
    requires i < |t| && v.Home() == t[i].Home()
    ensures Homes(t[i := v]) == Homes(t)
  {
  }

  lemma OnItsChain(t: seq<Incore>, chains: seq<seq<nat>>, ino: nat)
    requires Chained(Homes(t), chains, ALONE + 1)
    ensures |chains| == ALONE + 1
    ensures forall k :: 0 <= k < |chains[ino % INOHSZ]| ==>
      chains[ino % INOHSZ][k] < |t| && t[chains[ino % INOHSZ][k]].hashed
    ensures forall i :: 0 <= i < |t| && t[i].Is(ino) ==> i in chains[ino % INOHSZ]
  {
    var chain := chains[ino % INOHSZ];
    assert ChainOk(Homes(t), chain, ino % INOHSZ);
    assert forall k :: 0 <= k < |chain| ==> chain[k] in chain;
  }

  class InodeTable {
    const inode: array<Incore>
    const free: FreeList
    var chains: seq<seq<nat>>   // ihead[], front first
    var dinode: Blocks          // the inodes in the blocks of the disk, through the buffer cache

    ghost predicate Valid()
      reads this, inode, free, free.freef, free.freeb
    {
      && free.Valid() && free.freef.Length == inode.Length
      && Chained(Homes(inode[..]), chains, ALONE + 1)
      && OneEach(inode[..]) && Counted(inode[..], free.list) && Written(inode[..], dinode)
    }

    /** ihinit: every inode is free, and on no hash chain. */
    constructor (ninode: nat, dinode: Blocks)
      requires ninode > 0
      ensures Valid() && fresh(inode) && fresh(free) && fresh(free.freef) && fresh(free.freeb)
      ensures inode.Length == ninode && this.dinode == dinode && free.list == seq(ninode, i => i)
      ensures forall i :: 0 <= i < ninode ==> inode[i].count == 0 && !inode[i].hashed && !inode[i].locked
    {
      inode := new Incore[ninode](_ => Incore(0, 0, false, false, false, Dinode(0, 0, 0, 0, 0, [], 0)));
      free := new FreeList(ninode);
      chains := seq(ALONE, _ => []) + [seq(ninode, i => i)];
      this.dinode := dinode;
      new;
      forall i | 0 <= i < ninode
        ensures i in free.list && i in chains[ALONE]
      {
        assert free.list[i] == i && chains[ALONE][i] == i;
      }
    }

    /** The search of a hash chain; -1 when the inode is not in core. */
    method Ifind(ino: nat) returns (ip: int)
      requires Valid()
      ensures ip >= 0 ==> ip < inode.Length && inode[ip].Is(ino)
      ensures ip < 0 ==> ip == -1 && forall i :: 0 <= i < inode.Length ==> !inode[i].Is(ino)
    {
      hide Chained, ChainOk, Homes, OneEach, Counted, Written, Linked;
      OnItsChain(inode[..], chains, ino);
      var chain := chains[ino % INOHSZ];
      var k := 0;
      while k < |chain|
        invariant k <= |chain|
        invariant forall j :: 0 <= j < k ==> !inode[chain[j]].Is(ino)
      {
        if inode[chain[k]].number == ino {
          return chain[k];
        }
        k := k + 1;
      }
      ip := -1;
    }

    /** igrab: one more reference, and the inode is locked. It is not locked yet. */
    method Igrab(ip: nat)
      requires Valid() && ip < inode.Length && inode[ip].hashed && !inode[ip].locked
      modifies this`chains, inode, free, free.freef, free.freeb
      ensures Valid() && dinode == old(dinode) && chains == old(chains)
      ensures inode[..] == old(inode[..])[ip := old(inode[ip]).(count := old(inode[ip]).count + 1, locked := true)]
      ensures Same(old(inode[..]), old(dinode), inode[..], dinode)
    {
      hide Chained, ChainOk, Homes, OneEach, Counted, Written, Linked, Same, Current;
      ghost var t := inode[..];
      ghost var v := inode[ip].(count := inode[ip].count + 1, locked := true);
      WrittenAt(t, dinode, ip);
      SameContents(t, dinode, ip, v);
      HomesSame(t, ip, v);
      WrittenOne(t, dinode, ip, v);
      if inode[ip].count == 0 {
        InFree(t, free.list, ip);
        ghost var k :| 0 <= k < |free.list| && free.list[k] == ip;
        FreeDistinct();
        CountedTaken(t, free.list, k, v);
        free.Grab(ip, k);
      } else {
        CountedSame(t, free.list, ip, v);
      }
      inode[ip] := inode[ip].(count := inode[ip].count + 1, locked := true);
      assert inode[..] == t[ip := v];
    }

    lemma FreeDistinct()
      requires Valid()
      ensures HashChains.Distinct(free.list) && forall k :: 0 <= k < |free.list| ==> free.list[k] < inode.Length
    {
      forall k | 0 <= k < |free.list|
        ensures free.list[k] < inode.Length
      {
        assert LinkedAt(free.freef[..], free.freeb[..], free.list, k);
      }
    }

    /** iget: the inode is locked, with one more reference. If it is not in core, the first free one makes room
        for it; without a free one the table is full. */
    method Iget(ino: nat) returns (ip: int)
      requires Valid() && ino in dinode && forall i :: 0 <= i < inode.Length && inode[i].Is(ino) ==> !inode[i].locked
      modifies this`chains, inode, free, free.freef, free.freeb
      ensures Valid() && dinode == old(dinode)
      ensures ip < 0 <==> old(free.list) == [] && forall i :: 0 <= i < inode.Length ==> !old(inode[i]).Is(ino)
      ensures ip < 0 ==> inode[..] == old(inode[..])
      ensures ip >= 0 ==> ip < inode.Length && inode[ip].Is(ino) && inode[ip].locked
      ensures ip >= 0 ==> inode[ip].d == Current(old(inode[..]), dinode, ino)
      ensures forall i :: 0 <= i < inode.Length && i != ip ==> inode[i] == old(inode[i])
      ensures forall i :: 0 <= i < inode.Length && old(inode[i]).Is(ino) ==>
        i == ip && inode[ip].count == old(inode[ip]).count + 1
      ensures ip >= 0 && (forall i :: 0 <= i < inode.Length ==> !old(inode[i]).Is(ino)) ==>
        inode[ip].count == 1 && ip == old(free.list)[0]
      ensures Same(old(inode[..]), old(dinode), inode[..], dinode)
    {
      hide Chained, ChainOk, Homes, OneEach, Counted, Written, Linked, Same, Current;
      ghost var t := inode[..];
      ip := Ifind(ino);
      if ip >= 0 {
        OnlyOne(t, ino, ip);
        CurrentIn(t, dinode, ip);
        Igrab(ip);
        return;
      }
      FreeDistinct();
      ghost var list := free.list;
      ip := free.TakeHead();
      if ip < 0 {
        SameSame(t, dinode);
        return;
      }
      Load(ip, ino, dinode[ino], list);
    }

    /** The rest of iget: the inode is put on its new hash chain, and read. */
    method Load(ip: nat, ino: nat, d: Dinode, ghost list: seq<nat>)
      requires free.Valid() && free.freef.Length == inode.Length && ip < inode.Length && ino in dinode
      requires d == dinode[ino]
      requires Chained(Homes(inode[..]), chains, ALONE + 1) && OneEach(inode[..]) && Written(inode[..], dinode)
      requires HashChains.Distinct(list) && list != [] && list[0] == ip && free.list == list[1..]
      requires Counted(inode[..], list)
      requires forall i :: 0 <= i < inode.Length ==> !inode[i].Is(ino)
      modifies this`chains, inode
      ensures Valid()
      ensures inode[..] == old(inode[..])[ip := Incore(ino, 1, true, false, true, d)]
      ensures Same(old(inode[..]), old(dinode), inode[..], dinode)
      ensures d == Current(old(inode[..]), dinode, ino)
    {
      hide Chained, ChainOk, Homes, OneEach, Counted, Written, Linked, Same, Current;
      ghost var t := inode[..];
      ghost var v := Incore(ino, 1, true, false, true, d);
      InFree(t, list, ip);
      SameLoaded(t, dinode, ip, v);
      NotIn(t, dinode, ino);
      WrittenOne(t, dinode, ip, v);
      CountedTaken(t, list, 0, v);
      assert Remove(list, 0) == list[1..];
      HomeOf(t, ip);
      ChainedMove(Homes(t), chains, ALONE + 1, ip, ino % INOHSZ);
      HomesMoved(t, ip, v);
      ChainCount(Homes(t), chains, ALONE + 1);
      chains := Rehash(chains, ip, inode[ip].Home(), ino % INOHSZ);
      inode[ip] := Incore(ino, 1, true, false, true, d);
      assert inode[..] == t[ip := v];
    }

    /** iupdat, when there is something to write. */
    method Iupdat(ip: nat)
      requires Valid() && ip < inode.Length && inode[ip].hashed
      modifies this`dinode, inode
      ensures Valid()
      ensures inode[..] == old(inode[..])[ip := old(inode[ip]).(dirty := false)]
      ensures dinode == if old(inode[ip].dirty) then old(dinode)[inode[ip].number := inode[ip].d] else old(dinode)
      ensures Same(old(inode[..]), old(dinode), inode[..], dinode)
    {
      hide Chained, ChainOk, Homes, OneEach, Counted, Written, Linked, Same, Current;
      ghost var t := inode[..];
      if !inode[ip].dirty {
        SameSame(t, dinode);
        assert inode[..] == t[ip := t[ip].(dirty := false)];
        return;
      }
      ghost var v := inode[ip].(dirty := false);
      WrittenAt(t, dinode, ip);
      SameWritten(t, dinode, ip, v);
      HomesSame(t, ip, v);
      WrittenBack(t, dinode, ip, v);
      CountedSame(t, free.list, ip, v);
      inode[ip] := inode[ip].(dirty := false);
      dinode := dinode[inode[ip].number := inode[ip].d];
      assert inode[..] == t[ip := v];
    }

    /** The owner of a locked or referenced inode changes it, and marks it if there is a change. */
    method Change(ip: nat, d: Dinode, mark: bool)
      requires Valid() && ip < inode.Length && inode[ip].hashed && inode[ip].count > 0
      requires mark || d == inode[ip].d
      modifies inode
      ensures Valid()
      ensures inode[..] == old(inode[..])[ip := old(inode[ip]).(d := d, dirty := old(inode[ip].dirty) || mark)]
    {
      hide Chained, ChainOk, Homes, OneEach, Counted, Written, Linked;
      ghost var t := inode[..];
      ghost var v := inode[ip].(d := d, dirty := inode[ip].dirty || mark);
      WrittenAt(t, dinode, ip);
      OneEachKept(t, ip, v);
      HomesSame(t, ip, v);
      WrittenOne(t, dinode, ip, v);
      CountedSame(t, free.list, ip, v);
      inode[ip] := inode[ip].(d := d, dirty := inode[ip].dirty || mark);
      assert inode[..] == t[ip := v];
    }

    /** irele: with its last reference an inode without links is truncated and freed, and what has changed is
        written; the inode stays in core, at the end of the free list. `left` is what itrunc leaves of the block
        addresses. */
    method Irele(ip: nat, left: seq<int>)
      requires Valid() && ip < inode.Length && inode[ip].hashed && inode[ip].count > 0
      modifies this`dinode, inode, free, free.freef, free.freeb
      ensures Valid() && chains == old(chains)
      ensures old(inode[ip].count) > 1 ==>
        inode[..] == old(inode[..])[ip := old(inode[ip]).(count := old(inode[ip]).count - 1)]
      ensures old(inode[ip].count) > 1 ==> dinode == old(dinode) && free.list == old(free.list)
      ensures old(inode[ip].count) == 1 ==>
                && inode[..] == old(inode[..])[ip := Released(old(inode[ip]), left)]
                && dinode == old(dinode)[old(inode[ip]).number := Released(old(inode[ip]), left).d]
                && free.list == old(free.list) + [ip]
      ensures old(inode[ip].count) > 1 || Released(old(inode[ip]), left).d == old(inode[ip]).d ==>
        Same(old(inode[..]), old(dinode), inode[..], dinode)
    {
      hide Chained, ChainOk, Homes, OneEach, Counted, Written, Linked, Same, Current;
      ghost var t, blocks := inode[..], dinode;
      WrittenAt(t, dinode, ip);
      if inode[ip].count > 1 {
        ghost var v := inode[ip].(count := inode[ip].count - 1);
        SameContents(t, dinode, ip, v);
        HomesSame(t, ip, v);
        WrittenOne(t, dinode, ip, v);
        CountedSame(t, free.list, ip, v);
        inode[ip] := inode[ip].(count := inode[ip].count - 1);
        assert inode[..] == t[ip := v];
        return;
      }
      ghost var r := Released(inode[ip], left);
      SameReleased(t, dinode, ip, r);
      if inode[ip].d.nlink <= 0 {
        Change(ip, inode[ip].d.(mode := 0, size := 0, addr := left), true);
      }
      WrittenAt(inode[..], dinode, ip);
      Iupdat(ip);
      WrittenAt(inode[..], dinode, ip);
      assert inode[..] == t[ip := r.(count := 1, locked := t[ip].locked)];
      assert dinode == blocks[r.number := r.d];
      LastReference(ip, r);
      assert inode[..] == t[ip := r];
    }

    /** The end of irele. */
    method LastReference(ip: nat, ghost r: Incore)
      requires Valid() && ip < inode.Length && inode[ip].hashed && inode[ip].count == 1 && !inode[ip].dirty
      requires r == inode[ip].(count := 0, locked := false)
      modifies inode, free, free.freef, free.freeb
      ensures Valid() && free.list == old(free.list) + [ip]
      ensures inode[..] == old(inode[..])[ip := r]
    {
      hide Chained, ChainOk, Homes, OneEach, Counted, Written, Linked;
      ghost var t := inode[..];
      WrittenAt(t, dinode, ip);
      OneEachKept(t, ip, r);
      HomesSame(t, ip, r);
      WrittenOne(t, dinode, ip, r);
      InFree(t, free.list, ip);
      CountedGiven(t, free.list, ip, r);
      free.Append(ip);
      inode[ip] := inode[ip].(count := 0, locked := false);
      assert inode[..] == t[ip := r];
    }

    /** The body of the loop of syncinodes, for an inode that is to be written. */
    method WriteOne(ip: nat)
      requires Valid() && ip < inode.Length && inode[ip].hashed && inode[ip].count > 0 && !inode[ip].locked
      modifies this`dinode, inode, free, free.freef, free.freeb
      ensures Valid() && chains == old(chains)
      ensures inode[..] == old(inode[..])[ip := old(inode[ip]).(dirty := false)]
      ensures dinode == if old(inode[ip].dirty) then old(dinode)[inode[ip].number := inode[ip].d] else old(dinode)
      ensures Same(old(inode[..]), old(dinode), inode[..], dinode)
    {
      hide Chained, ChainOk, Homes, OneEach, Counted, Written, Linked, Same, Current;
      ghost var t, blocks := inode[..], dinode;
      ghost var v := inode[ip].(count := inode[ip].count + 1, locked := true);
      WrittenAt(t, dinode, ip);
      SameContents(t, dinode, ip, v);
      HomesSame(t, ip, v);
      WrittenOne(t, dinode, ip, v);
      CountedSame(t, free.list, ip, v);
      inode[ip] := inode[ip].(count := inode[ip].count + 1, locked := true);
      assert inode[..] == t[ip := v];
      Iupdat(ip);
      ghost var t2, blocks2 := inode[..], dinode;
      SameTwice(t, blocks, t[ip := v], blocks, t2, blocks2);
      // iput: unlock and release.
      ghost var w := inode[ip].(locked := false);
      WrittenAt(t2, dinode, ip);
      SameContents(t2, dinode, ip, w);
      HomesSame(t2, ip, w);
      WrittenOne(t2, dinode, ip, w);
      CountedSame(t2, free.list, ip, w);
      inode[ip] := inode[ip].(locked := false);
      assert inode[..] == t2[ip := w];
      SameTwice(t, blocks, t2, blocks2, inode[..], dinode);
      ghost var t3 := inode[..];
      Irele(ip, []);
      SameTwice(t, blocks, t3, blocks2, inode[..], dinode);
      assert inode[..] == t[ip := t[ip].(dirty := false)];
    }
  }

  /** The in-core inode after irele has taken its last reference. */
  function Released(v: Incore, left: seq<int>): Incore {
    v.(count := 0, locked := false, dirty := false, d :=
      if v.d.nlink <= 0 then v.d.(mode := 0, size := 0, addr := left) else v.d)
  }

  lemma OneEachKept(t: seq<Incore>, i: nat, v: Incore)
    requires OneEach(t) && i < |t| && v.hashed == t[i].hashed && v.number == t[i].number
    ensures OneEach(t[i := v])
  {
  }

  lemma SameReleased(t: seq<Incore>, dinode: Blocks, i: nat, r: Incore)
    requires i < |t| && OneEach(t) && t[i].hashed && t[i].number in dinode
    requires r.hashed && r.number == t[i].number
    ensures r.d == t[i].d ==> Same(t, dinode, t[i := r], dinode[r.number := r.d])
  {
    if r.d == t[i].d {
      SameContents(t, dinode, i, r);
      SameWritten(t[i := r], dinode, i, r.(dirty := false));
      var t', dinode' := t[i := r], dinode[r.number := r.d];
      OneEachKept(t, i, r);
      forall ino | ino in dinode
        ensures Current(t', dinode', ino) == Current(t, dinode, ino)
      {
        if ino == r.number {
          CurrentIn(t', dinode', i);
          CurrentIn(t, dinode, i);
        } else {
          assert Current(t', dinode, ino) == Current(t, dinode, ino);
        }
      }
    }
  }

  lemma SameTwice(t: seq<Incore>, dinode: Blocks, t': seq<Incore>, dinode': Blocks, t'': seq<Incore>, dinode'': Blocks)
    requires Same(t, dinode, t', dinode') && Same(t', dinode', t'', dinode'')
    ensures Same(t, dinode, t'', dinode'')
  {
  }

  lemma AllOnDisk(t: seq<Incore>, dinode: Blocks)
    requires OneEach(t) && Written(t, dinode) && forall i :: 0 <= i < |t| ==> !t[i].dirty
    ensures forall ino :: ino in dinode ==> dinode[ino] == Current(t, dinode, ino)
  {
    forall ino | ino in dinode
      ensures dinode[ino] == Current(t, dinode, ino)
    {
      if i :| 0 <= i < |t| && t[i].Is(ino) {
        CurrentIn(t, dinode, i);
      }
    }
  }

  lemma OnlyOne(t: seq<Incore>, ino: nat, i: nat)
    requires OneEach(t) && i < |t| && t[i].Is(ino)
    ensures forall j :: 0 <= j < |t| && t[j].Is(ino) ==> j == i
  {
  }

  lemma SameSame(t: seq<Incore>, dinode: Blocks)
    ensures Same(t, dinode, t, dinode)
  {
  }

  lemma NotIn(t: seq<Incore>, dinode: Blocks, ino: nat)
    requires ino in dinode && forall i :: 0 <= i < |t| ==> !t[i].Is(ino)
    ensures Current(t, dinode, ino) == dinode[ino]
  {
  }

  lemma HomeOf(t: seq<Incore>, i: nat)
    requires i < |t|
    ensures Homes(t)[i] == t[i].Home() <= ALONE
  {
  }

  lemma HomesMoved(t: seq<Incore>, i: nat, v: Incore)
    requires i < |t|
    ensures Homes(t[i := v]) == Homes(t)[i := v.Home()]
  {
  }

  lemma WrittenAt(t: seq<Incore>, dinode: Blocks, i: nat)
    requires Written(t, dinode) && i < |t|
    ensures t[i].hashed ==> t[i].number in dinode && (!t[i].dirty ==> dinode[t[i].number] == t[i].d)
    ensures t[i].count == 0 ==> !t[i].dirty && !t[i].locked
    ensures !t[i].hashed ==> t[i].count == 0
  {
  }

  lemma InFree(t: seq<Incore>, free: seq<nat>, i: nat)
    requires Counted(t, free) && i < |t|
    ensures t[i].count == 0 <==> i in free
  {
  }
}
