/** The write-back buffer cache (ufs_bio.c, buf.h): hash chains, two free queues and delayed writes over
    a raw device. Seen from its callers it is a plain array of blocks. */
module BufferCache {
  import opened DiskFormat
  import opened HashChains

  const BUFHSZ := 16
  const UNHASHED := BUFHSZ     // the chain headed by bfreelist[BQ_AGE], for buffers without a block
  const NODEV := -1
  const ROOTDEV := 0

  /** struct buf without its links. A buffer with dev == NODEV stands for no block. */
  datatype Buf = Buf(dev: int, blkno: int, data: Block, busy: bool, read: bool, done: bool,
                     delwri: bool, age: bool, async: bool, inval: bool) {
    predicate Holds(b: int) {
      dev != NODEV && blkno == b
    }

    /** The hash chain the buffer is linked into. */
    function Home(): nat {
      if dev == NODEV then UNHASHED else Hash(dev, blkno)
    }
  }

  /** BUFHASH: the low four bits. */
  function Hash(dev: int, blkno: int): (h: nat)
    ensures h < BUFHSZ
  {
    (dev + blkno) % BUFHSZ
  }

  function Homes(bufs: seq<Buf>): (h: seq<nat>)
    ensures |h| == |bufs| && forall i :: 0 <= i < |bufs| ==> h[i] == bufs[i].Home() <= BUFHSZ
  {
    seq(|bufs|, i requires 0 <= i < |bufs| => bufs[i].Home())
  }

  /** A buffer is on exactly one free queue, once, when it is not busy, and on none when it is. */
  ghost predicate Queued(bufs: seq<Buf>, lru: seq<nat>, age: seq<nat>) {
    && (forall i :: i in lru || i in age ==> i < |bufs| && !bufs[i].busy)
    && (forall i :: 0 <= i < |bufs| && !bufs[i].busy ==> i in lru || i in age)
    && (forall i :: i in lru ==> i !in age)
    && Distinct(lru) && Distinct(age)
  }

  /** At most one buffer per block; idle buffers and, where no write is pending, the device agree with
      the contents `store` last written. No idle buffer with a delayed write is marked for the AGE queue. */
  ghost predicate Coherent(bufs: seq<Buf>, disk: Disk, store: Disk) {
    && |disk| == |store|
    && (forall i :: 0 <= i < |bufs| && bufs[i].dev != NODEV ==> bufs[i].dev == ROOTDEV && 0 <= bufs[i].blkno < |disk|)
    && (forall i, j :: 0 <= i < j < |bufs| && bufs[i].dev != NODEV && bufs[j].dev != NODEV ==>
          bufs[i].blkno != bufs[j].blkno)
    && (forall i :: 0 <= i < |bufs| && bufs[i].delwri ==> bufs[i].done && bufs[i].dev != NODEV)
    && (forall i :: 0 <= i < |bufs| && bufs[i].inval ==> bufs[i].dev == NODEV)
    && (forall i :: 0 <= i < |bufs| && bufs[i].async ==> bufs[i].busy)
    && (forall i :: 0 <= i < |bufs| && bufs[i].delwri && bufs[i].age ==> bufs[i].busy)
    && (forall i :: 0 <= i < |bufs| && bufs[i].dev != NODEV && !bufs[i].busy && bufs[i].done ==>
          bufs[i].data == store[bufs[i].blkno])
    && (forall b :: 0 <= b < |disk| && disk[b] != store[b] ==> Pending(bufs, b))
  }

  /** A delayed write of block b is waiting in some buffer. */
  ghost predicate Pending(bufs: seq<Buf>, b: int) {
    exists i :: 0 <= i < |bufs| && bufs[i].Holds(b) && bufs[i].delwri
  }

  /** Number of idle buffers that still have to be written: what every retry loop brings down. */
  ghost function Dirty(bufs: seq<Buf>): nat {
    if bufs == [] then 0 else Dirty(bufs[..|bufs| - 1]) + if bufs[|bufs| - 1].delwri then 1 else 0
  }

  lemma {:induction false} DirtyUpdate(bufs: seq<Buf>, i: nat, v: Buf)
    requires i < |bufs|
    ensures Dirty(bufs[i := v]) + (if bufs[i].delwri then 1 else 0) == Dirty(bufs) + (if v.delwri then 1 else 0)
  {
    var n := |bufs| - 1;
    if i < n {
      DirtyUpdate(bufs[..n], i, v);
      assert bufs[i := v][..n] == bufs[..n][i := v];
    } else {
      assert bufs[i := v][..n] == bufs[..n];
    }
  }

  // One buffer changes.

  lemma QueuedSame(bufs: seq<Buf>, lru: seq<nat>, age: seq<nat>, i: nat, v: Buf)
    requires Queued(bufs, lru, age) && i < |bufs| && v.busy == bufs[i].busy
    ensures Queued(bufs[i := v], lru, age)
  {
  }

  /** notavail: off its queue, busy. */
  lemma QueuedTake(bufs: seq<Buf>, lru: seq<nat>, age: seq<nat>, i: nat, v: Buf)
    requires Queued(bufs, lru, age) && i < |bufs| && v.busy
    ensures Queued(bufs[i := v], Unlink(lru, i), Unlink(age, i))
  {
    UnlinkDistinct(lru, i);
    UnlinkDistinct(age, i);
  }

  /** brelse: a busy buffer goes back to one end of a queue. */
  lemma QueuedGive(bufs: seq<Buf>, lru: seq<nat>, age: seq<nat>, i: nat, v: Buf)
    requires Queued(bufs, lru, age) && i < |bufs| && bufs[i].busy && !v.busy
    ensures Queued(bufs[i := v], lru + [i], age)
    ensures Queued(bufs[i := v], lru, age + [i])
    ensures Queued(bufs[i := v], lru, [i] + age)
  {
    AppendDistinct(lru, i);
    AppendDistinct(age, i);
  }

  /** A change that keeps the block of a buffer, and does not drop a pending write. */
  lemma CoherentUpdate(bufs: seq<Buf>, disk: Disk, store: Disk, i: nat, v: Buf)
    requires Coherent(bufs, disk, store) && i < |bufs|
    requires v.dev == bufs[i].dev && v.blkno == bufs[i].blkno && v.delwri == bufs[i].delwri
    requires v.delwri ==> v.done
    requires v.inval ==> v.dev == NODEV
    requires v.async || (v.delwri && v.age) ==> v.busy
    requires v.dev != NODEV && !v.busy && v.done ==> v.data == store[v.blkno]
    ensures Coherent(bufs[i := v], disk, store)
  {
    var bufs' := bufs[i := v];
    forall b | 0 <= b < |disk| && disk[b] != store[b]
      ensures Pending(bufs', b)
    {
      var k :| 0 <= k < |bufs| && bufs[k].Holds(b) && bufs[k].delwri;
      assert bufs'[k].Holds(b) && bufs'[k].delwri;
    }
  }

  /** Writing a buffer out: the device and the store get its data, and no write is pending any more. */
  lemma CoherentWrite(bufs: seq<Buf>, disk: Disk, store: Disk, i: nat, v: Buf)
    requires Coherent(bufs, disk, store) && i < |bufs| && bufs[i].dev != NODEV
    requires v.dev == bufs[i].dev && v.blkno == bufs[i].blkno && v.data == bufs[i].data
    requires !v.delwri && !v.inval && (v.async ==> v.busy)
    ensures Coherent(bufs[i := v], disk[v.blkno := v.data], store[v.blkno := v.data])
  {
    var bufs' := bufs[i := v];
    forall b | 0 <= b < |disk| && disk[v.blkno := v.data][b] != store[v.blkno := v.data][b]
      ensures Pending(bufs', b)
    {
      var k :| 0 <= k < |bufs| && bufs[k].Holds(b) && bufs[k].delwri;
      assert bufs'[k].Holds(b) && bufs'[k].delwri;
    }
  }

  /** Before a write is started the buffer is marked as not done. Until the transfer is over, the block's
      contents are those on the device. */
  lemma CoherentStart(bufs: seq<Buf>, disk: Disk, store: Disk, i: nat, v: Buf)
    requires Coherent(bufs, disk, store) && i < |bufs| && bufs[i].dev != NODEV
    requires v.dev == bufs[i].dev && v.blkno == bufs[i].blkno && v.busy && !v.done && !v.delwri && !v.inval
    ensures Coherent(bufs[i := v], disk, store[v.blkno := disk[v.blkno]])
  {
    var bufs' := bufs[i := v];
    var store' := store[v.blkno := disk[v.blkno]];
    forall b | 0 <= b < |disk| && disk[b] != store'[b]
      ensures Pending(bufs', b)
    {
      var k :| 0 <= k < |bufs| && bufs[k].Holds(b) && bufs[k].delwri;
      assert bufs'[k].Holds(b) && bufs'[k].delwri;
    }
  }

  /** A delayed write: only the store gets the data, the buffer keeps it. */
  lemma CoherentDelay(bufs: seq<Buf>, disk: Disk, store: Disk, i: nat, v: Buf)
    requires Coherent(bufs, disk, store) && i < |bufs| && bufs[i].dev != NODEV
    requires v.dev == bufs[i].dev && v.blkno == bufs[i].blkno && v.data == bufs[i].data
    requires v.delwri && v.done && !v.inval && (v.async || v.age ==> v.busy)
    ensures Coherent(bufs[i := v], disk, store[v.blkno := v.data])
  {
    var bufs' := bufs[i := v];
    assert bufs'[i].Holds(v.blkno) && bufs'[i].delwri;
    forall b | 0 <= b < |disk| && disk[b] != store[v.blkno := v.data][b]
      ensures Pending(bufs', b)
    {
      if b != v.blkno {
        var k :| 0 <= k < |bufs| && bufs[k].Holds(b) && bufs[k].delwri;
        assert bufs'[k].Holds(b) && bufs'[k].delwri;
      }
    }
  }

  /** A buffer without pending write is reassigned to a block that no other buffer holds. */
  lemma CoherentAssign(bufs: seq<Buf>, disk: Disk, store: Disk, i: nat, v: Buf)
    requires Coherent(bufs, disk, store) && i < |bufs| && !bufs[i].delwri
    requires v.busy && !v.done && !v.delwri && (v.inval ==> v.dev == NODEV)
    requires v.dev == NODEV || (v.dev == ROOTDEV && 0 <= v.blkno < |disk| && forall j ::
      0 <= j < |bufs| && j != i ==> !bufs[j].Holds(v.blkno))
    ensures Coherent(bufs[i := v], disk, store)
  {
    var bufs' := bufs[i := v];
    forall b | 0 <= b < |disk| && disk[b] != store[b]
      ensures Pending(bufs', b)
    {
      var k :| 0 <= k < |bufs| && bufs[k].Holds(b) && bufs[k].delwri;
      assert bufs'[k].Holds(b) && bufs'[k].delwri;
    }
  }

  /** A block whose buffer has no delayed write is up to date on the device. */
  lemma NoPending(bufs: seq<Buf>, disk: Disk, store: Disk, i: nat)
    requires Coherent(bufs, disk, store) && i < |bufs| && bufs[i].dev != NODEV && !bufs[i].delwri
    ensures disk[bufs[i].blkno] == store[bufs[i].blkno]
  {
    assert !Pending(bufs, bufs[i].blkno);
  }

  /** With no write pending, the device is up to date. */
  lemma AllWritten(bufs: seq<Buf>, disk: Disk, store: Disk)
    requires Coherent(bufs, disk, store)
    requires forall i :: 0 <= i < |bufs| ==> !bufs[i].delwri
    ensures disk == store
  {
    forall b | 0 <= b < |disk|
      ensures disk[b] == store[b]
    {
      assert !Pending(bufs, b);
    }
  }

  /** What Coherent says of one buffer. */
  lemma CoherentBuf(bufs: seq<Buf>, disk: Disk, store: Disk, i: nat)
    requires Coherent(bufs, disk, store) && i < |bufs|
    ensures |disk| == |store|
    ensures bufs[i].dev != NODEV ==> bufs[i].dev == ROOTDEV && 0 <= bufs[i].blkno < |disk|
    ensures bufs[i].delwri ==> bufs[i].done && bufs[i].dev != NODEV
    ensures bufs[i].inval ==> bufs[i].dev == NODEV
    ensures bufs[i].async || (bufs[i].delwri && bufs[i].age) ==> bufs[i].busy
    ensures bufs[i].dev != NODEV && !bufs[i].busy && bufs[i].done ==> bufs[i].data == store[bufs[i].blkno]
  {
  }

  /** A buffer once its transfer is over, `contents` being the block's contents. */
  function Finished(v: Buf, contents: Block): Buf {
    var done := v.(done := true, data := if v.read then contents else v.data);
    if v.async then done.(busy := false, async := false, age := false) else done
  }

  /** A buffer once it has been written and released. */
  function Written(v: Buf): Buf {
    v.(read := false, done := true, delwri := false, busy := false, async := false, age := v.async && v.delwri)
  }

  /** An idle buffer once its delayed write has been done. */
  function Flushed(v: Buf): Buf {
    v.(read := false, delwri := false, age := true)
  }

  lemma HomesSame(bufs: seq<Buf>, i: nat, v: Buf)
    requires i < |bufs| && v.Home() == bufs[i].Home()
    ensures Homes(bufs[i := v]) == Homes(bufs)
  {
  }

  /** The first buffer of a queue that has no delayed write; -1 when all have one. */
  function Oldest(bufs: seq<Buf>, s: seq<nat>): (r: int)
    ensures r >= 0 ==> r in s && r < |bufs| && !bufs[r].delwri
    ensures r < 0 ==> forall x :: x in s && x < |bufs| ==> bufs[x].delwri
  {
    if s == [] then -1 else if s[0] < |bufs| && !bufs[s[0]].delwri then s[0] else Oldest(bufs, s[1..])
  }

  /** Moving a written buffer from the front of a queue behind the others does not change the choice. */
  lemma {:induction false} OldestKept(bufs: seq<Buf>, s: seq<nat>, i: nat, v: Buf, back: seq<nat>)
    requires i < |bufs| && i !in s && Oldest(bufs, s) >= 0
    ensures Oldest(bufs[i := v], s + back) == Oldest(bufs, s)
  {
    if Oldest(bufs, s) != s[0] {
      OldestKept(bufs, s[1..], i, v, back);
      assert (s + back)[1..] == s[1..] + back;
    }
  }

  /** If all have a delayed write, the one that is written and put behind the others becomes the choice. */
  lemma {:induction false} OldestNone(bufs: seq<Buf>, s: seq<nat>, i: nat, v: Buf)
    requires i < |bufs| && i !in s && Oldest(bufs, s) < 0 && (forall x :: x in s ==> x < |bufs|) && !v.delwri
    ensures Oldest(bufs[i := v], s) < 0 && Oldest(bufs[i := v], s + [i]) == i
  {
    if s != [] {
      assert forall x :: x in s[1..] ==> x in s;
      OldestNone(bufs, s[1..], i, v);
      assert (s + [i])[1..] == s[1..] + [i];
    } else {
      assert s + [i] == [i];
    }
  }

  /** The buffer that getnewbuf takes: the first without a delayed write, of the AGE queue and then of the LRU queue;
      if all have one, the first of all. */
  ghost function Choice(bufs: seq<Buf>, lru: seq<nat>, age: seq<nat>): int {
    if Oldest(bufs, age) >= 0 then Oldest(bufs, age)
    else if Oldest(bufs, lru) >= 0 then Oldest(bufs, lru)
    else if age != [] then age[0]
    else if lru != [] then lru[0]
    else -1
  }

  /** A pass over the front of the queues: either it is the choice, or it goes behind the LRU queue, and the choice
      stays. */
  lemma ChoicePass(bufs: seq<Buf>, lru: seq<nat>, age: seq<nat>, i: nat, v: Buf)
    requires Queued(bufs, lru, age) && i < |bufs| && !v.delwri
    requires if age != [] then i == age[0] else lru != [] && i == lru[0]
    ensures !bufs[i].delwri ==> Choice(bufs, lru, age) == i
    ensures bufs[i].delwri ==>
      Choice(bufs[i := v], Unlink(lru, i) + [i], Unlink(age, i)) == Choice(bufs, lru, age)
  {
    hide Oldest;
    UnlinkHead(if age != [] then age else lru);
    OldestFront(bufs, age);
    OldestFront(bufs, lru);
    if bufs[i].delwri {
      if age != [] {
        UnlinkAbsent(lru, i);
        PassFront(bufs, age, i, v);
        PassBehind(bufs, lru, i, v);
      } else {
        PassFront(bufs, lru, i, v);
        PassBehind(bufs, lru[1..], i, v);
        OldestFront(bufs[i := v], []);
      }
    }
  }

  lemma PassFront(bufs: seq<Buf>, s: seq<nat>, i: nat, v: Buf)
    requires s != [] && s[0] == i < |bufs| && i !in s[1..] && bufs[i].delwri && !v.delwri
    requires forall x :: x in s ==> x < |bufs|
    ensures Oldest(bufs, s[1..]) == Oldest(bufs, s)
    ensures if Oldest(bufs, s) >= 0 then Oldest(bufs[i := v], s[1..]) == Oldest(bufs, s)
            else Oldest(bufs[i := v], s[1..]) < 0
  {
    assert forall x :: x in s[1..] ==> x in s;
    if Oldest(bufs, s[1..]) >= 0 {
      OldestKept(bufs, s[1..], i, v, []);
      assert s[1..] + [] == s[1..];
    } else {
      OldestNone(bufs, s[1..], i, v);
    }
  }

  lemma PassBehind(bufs: seq<Buf>, s: seq<nat>, i: nat, v: Buf)
    requires i < |bufs| && i !in s && !v.delwri && forall x :: x in s ==> x < |bufs|
    ensures Oldest(bufs[i := v], s + [i]) == if Oldest(bufs, s) >= 0 then Oldest(bufs, s) else i
  {
    if Oldest(bufs, s) >= 0 {
      OldestKept(bufs, s, i, v, [i]);
    } else {
      OldestNone(bufs, s, i, v);
    }
  }

  lemma OldestFront(bufs: seq<Buf>, s: seq<nat>)
    ensures s == [] ==> Oldest(bufs, s) < 0
    ensures s != [] && s[0] < |bufs| && !bufs[s[0]].delwri ==> Oldest(bufs, s) == s[0]
  {
  }

  lemma QueuedMember(bufs: seq<Buf>, lru: seq<nat>, age: seq<nat>, i: nat)
    requires Queued(bufs, lru, age) && (i in lru || i in age)
    ensures i < |bufs| && !bufs[i].busy
    ensures |Unlink(lru, i)| + |Unlink(age, i)| + 1 == |lru| + |age|
  {
    UnlinkLength(lru, i);
    UnlinkLength(age, i);
  }

  /** n - 1, ..., 1, 0. */
  function Down(n: nat): (s: seq<nat>)
    ensures Distinct(s) && |s| == n && forall x :: x in s <==> 0 <= x < n
  {
    if n == 0 then [] else AppendDistinct(Down(n - 1), n - 1); [n - 1] + Down(n - 1)
  }

  /** A block held by some buffer is found on its hash chain. */
  lemma OnItsChain(bufs: seq<Buf>, chains: seq<seq<nat>>, b: int)
    requires Chained(Homes(bufs), chains, BUFHSZ + 1)
    requires forall i :: 0 <= i < |bufs| && bufs[i].dev != NODEV ==> bufs[i].dev == ROOTDEV
    ensures forall k :: 0 <= k < |chains[Hash(ROOTDEV, b)]| ==> chains[Hash(ROOTDEV, b)][k] < |bufs|
    ensures forall i :: 0 <= i < |bufs| && bufs[i].Holds(b) ==> i in chains[Hash(ROOTDEV, b)]
  {
    var chain := chains[Hash(ROOTDEV, b)];
    assert ChainOk(Homes(bufs), chain, Hash(ROOTDEV, b));
    assert forall k :: 0 <= k < |chain| ==> chain[k] in chain;
  }

  lemma IdleQueued(bufs: seq<Buf>, lru: seq<nat>, age: seq<nat>, i: nat)
    requires Queued(bufs, lru, age) && i < |bufs| && !bufs[i].busy
    ensures i in lru || i in age
  {
  }

  lemma QueuedAll(bufs: seq<Buf>, lru: seq<nat>, age: seq<nat>)
    requires Queued(bufs, lru, age)
    ensures forall k :: 0 <= k < |lru + age| ==> (lru + age)[k] < |bufs|
    ensures forall i :: 0 <= i < |bufs| && !bufs[i].busy ==> i in lru + age
  {
    assert forall k :: 0 <= k < |lru| ==> lru[k] in lru;
    assert forall k :: 0 <= k < |age| ==> age[k] in age;
  }

  lemma CoherentSizes(bufs: seq<Buf>, disk: Disk, store: Disk)
    requires Coherent(bufs, disk, store)
    ensures |disk| == |store|
  {
  }

  class Cache {
    const buf: array<Buf>
    var chains: seq<seq<nat>>   // hash chains, front first
    var lru: seq<nat>           // bfreelist[BQ_LRU], front first
    var aged: seq<nat>          // bfreelist[BQ_AGE], front first
    var disk: Disk              // the device
    ghost var store: Disk       // the contents last written to every block

    ghost predicate Valid()
      reads this, buf
    {
      && Chained(Homes(buf[..]), chains, BUFHSZ + 1)
      && Queued(buf[..], lru, aged)
      && Coherent(buf[..], disk, store)
    }

    /** The busy buffers that a caller holds, other than i, are as before. */
    twostate predicate HeldSame(i: int)
      reads buf
    {
      forall j :: 0 <= j < buf.Length && j != i && old(buf[j].busy) ==> buf[j] == old(buf[j])
    }

    /** Idle buffers other than i may have been written out; nothing else happened to any buffer but i. */
    twostate predicate Flushes(i: int)
      reads buf
    {
      forall j :: 0 <= j < buf.Length && j != i ==>
        buf[j] == old(buf[j]) || (old(buf[j].delwri && !buf[j].busy) && buf[j] == Flushed(old(buf[j])))
    }

    /** bhinit and binit: nbuf buffers without a block, the last one first on the AGE queue and on the chain
        for buffers without a block. */
    constructor (nbuf: nat, image: Disk)
      ensures Valid() && fresh(buf) && buf.Length == nbuf
      ensures disk == store == image && lru == [] && |aged| == nbuf
      ensures forall j :: 0 <= j < nbuf ==> !buf[j].busy && !buf[j].delwri
    {
      buf := new Buf[nbuf](_ => Buf(NODEV, 0, ZeroBlock(), false, false, false, false, false, false, true));
      chains := seq(BUFHSZ + 1, _ => []);
      lru := [];
      aged := [];
      disk := image;
      store := image;
      new;
      var i := 0;
      while i < nbuf
        invariant i <= nbuf && lru == [] && disk == store == image
        invariant aged == Down(i)
        invariant chains == seq(BUFHSZ + 1, _ => [])[UNHASHED := Down(i)]
        invariant forall j :: 0 <= j < nbuf ==>
          buf[j] == Buf(NODEV, 0, ZeroBlock(), false, false, false, false, false, false, true)
      {
        chains := chains[UNHASHED := [i] + chains[UNHASHED]];
        aged := [i] + aged;
        i := i + 1;
      }
    }

    /** brelse: an idle buffer goes to the front of the AGE queue when it holds nothing, to its end when it
        is marked for it, and otherwise to the end of the LRU queue. */
    method Brelse(i: nat)
      requires Valid() && i < buf.Length && buf[i].busy
      requires buf[i].dev != NODEV && buf[i].done ==> buf[i].data == store[buf[i].blkno]
      modifies this`lru, this`aged, buf
      ensures Valid()
      ensures buf[..] == old(buf[..])[i := old(buf[i]).(busy := false, async := false, age := false)]
      ensures lru == if old(buf[i].inval || buf[i].age) then old(lru) else old(lru) + [i]
      ensures aged == if old(buf[i].inval) then [i] + old(aged) else if old(buf[i].age) then old(aged) + [i]
        else old(aged)
    {
      hide ChainOk, Coherent, Queued;
      ghost var v := buf[i].(busy := false, async := false, age := false);
      CoherentBuf(buf[..], disk, store, i);
      CoherentUpdate(buf[..], disk, store, i, v);
      QueuedGive(buf[..], lru, aged, i, v);
      if buf[i].inval {
        aged := [i] + aged;
      } else if buf[i].age {
        aged := aged + [i];
      } else {
        lru := lru + [i];
      }
      buf[i] := buf[i].(busy := false, async := false, age := false);
      assert buf[..] == old(buf[..])[i := v];
      assert Homes(buf[..]) == old(Homes(buf[..]));
    }

    /** notavail: takes an idle buffer off its queue. */
    method Notavail(i: nat)
      requires Valid() && i < buf.Length && !buf[i].busy
      modifies this`lru, this`aged, buf
      ensures Valid()
      ensures buf[..] == old(buf[..])[i := old(buf[i]).(busy := true)]
      ensures lru == Unlink(old(lru), i) && aged == Unlink(old(aged), i)
    {
      hide ChainOk, Coherent, Queued;
      ghost var v := buf[i].(busy := true);
      CoherentBuf(buf[..], disk, store, i);
      CoherentUpdate(buf[..], disk, store, i, v);
      QueuedTake(buf[..], lru, aged, i, v);
      lru := Unlink(lru, i);
      aged := Unlink(aged, i);
      buf[i] := buf[i].(busy := true);
      assert buf[..] == old(buf[..])[i := v];
      assert Homes(buf[..]) == old(Homes(buf[..]));
    }

    /** bsd211_dsk_strategy and biodone: the transfer is synchronous, and an asynchronous request is released
        as soon as it is done. The "dup biodone" panic needs a buffer that is done already. */
    method Strategy(i: nat)
      requires Valid() && i < buf.Length && buf[i].busy && buf[i].dev != NODEV
      requires !buf[i].done && !buf[i].delwri
      modifies this, buf
      ensures Valid() && chains == old(chains)
      ensures old(buf[i].read) ==> store == old(store) && disk == old(disk)
      ensures !old(buf[i].read) ==> store == old(store[buf[i].blkno := buf[i].data])
      ensures !old(buf[i].read) ==> disk == old(disk[buf[i].blkno := buf[i].data])
      ensures buf[..] == old(buf[..])[i := Finished(old(buf[i]), old(store[buf[i].blkno]))]
      ensures !old(buf[i].async) ==> lru == old(lru) && aged == old(aged)
      ensures old(buf[i].async) ==> lru == if old(buf[i].age) then old(lru) else old(lru) + [i]
      ensures old(buf[i].async) ==> aged == if old(buf[i].age) then old(aged) + [i] else old(aged)
    {
      hide ChainOk, Coherent, Queued, Homes;
      ghost var before := buf[..];
      CoherentBuf(buf[..], disk, store, i);
      ghost var v := buf[i].(done := true, data := if buf[i].read then store[buf[i].blkno] else buf[i].data);
      QueuedSame(buf[..], lru, aged, i, v);
      HomesSame(buf[..], i, v);
      if buf[i].read {
        NoPending(buf[..], disk, store, i);
        CoherentUpdate(buf[..], disk, store, i, v);
        buf[i] := buf[i].(data := disk[buf[i].blkno]);
      } else {
        CoherentWrite(buf[..], disk, store, i, v);
        disk := disk[buf[i].blkno := buf[i].data];
        store := store[buf[i].blkno := buf[i].data];
      }
      buf[i] := buf[i].(done := true);
      assert buf[..] == before[i := v];
      if buf[i].async {
        Brelse(i);
      }
    }

    /** bwrite: the block's contents become the buffer's. A delayed write that is now done asynchronously marks
        the buffer for the AGE queue after it was released. */
    method Bwrite(i: nat)
      requires Valid() && i < buf.Length && buf[i].busy && buf[i].dev != NODEV
      modifies this, buf
      ensures Valid() && chains == old(chains)
      ensures store == old(store[buf[i].blkno := buf[i].data])
      ensures disk == old(disk[buf[i].blkno := buf[i].data])
      ensures buf[..] == old(buf[..])[i := Written(old(buf[i]))]
      ensures lru == if old(buf[i].age) then old(lru) else old(lru) + [i]
      ensures aged == if old(buf[i].age) then old(aged) + [i] else old(aged)
    {
      hide ChainOk, Coherent, Queued, Homes;
      ghost var before := buf[..];
      CoherentBuf(buf[..], disk, store, i);
      var flags := buf[i];
      ghost var v := buf[i].(read := false, done := false, delwri := false);
      CoherentStart(buf[..], disk, store, i, v);
      QueuedSame(buf[..], lru, aged, i, v);
      HomesSame(buf[..], i, v);
      buf[i] := buf[i].(read := false, done := false, delwri := false);
      store := store[buf[i].blkno := disk[buf[i].blkno]];
      assert buf[..] == before[i := v];
      Strategy(i);
      if !flags.async {
        Brelse(i);
      } else if flags.delwri {
        ghost var w := buf[i].(age := true);
        CoherentBuf(buf[..], disk, store, i);
        CoherentUpdate(buf[..], disk, store, i, w);
        QueuedSame(buf[..], lru, aged, i, w);
        HomesSame(buf[..], i, w);
        buf[i] := buf[i].(age := true);
      }
      assert buf[..] == before[i := Written(before[i])];
    }

    /** A caller changes the contents of a buffer it holds (clrbuf, uiomove, bcopy). */
    method Fill(i: nat, data: Block)
      requires Valid() && i < buf.Length && buf[i].busy
      modifies buf
      ensures Valid()
      ensures buf[..] == old(buf[..])[i := old(buf[i]).(data := data)]
    {
      hide ChainOk, Coherent, Queued, Homes;
      ghost var before := buf[..];
      ghost var v := buf[i].(data := data);
      CoherentBuf(buf[..], disk, store, i);
      CoherentUpdate(buf[..], disk, store, i, v);
      QueuedSame(buf[..], lru, aged, i, v);
      HomesSame(buf[..], i, v);
      buf[i] := buf[i].(data := data);
      assert buf[..] == before[i := v];
    }

    /** bdwrite: the block's contents become the buffer's, and the device is left alone. */
    method Bdwrite(i: nat)
      requires Valid() && i < buf.Length && buf[i].busy && buf[i].dev != NODEV
      modifies this`lru, this`aged, this`store, buf
      ensures Valid()
      ensures store == old(store[buf[i].blkno := buf[i].data])
      ensures buf[..] == old(buf[..])[i :=
        old(buf[i]).(delwri := true, done := true, busy := false, async := false, age := false)]
      ensures lru == if old(buf[i].age) then old(lru) else old(lru) + [i]
      ensures aged == if old(buf[i].age) then old(aged) + [i] else old(aged)
    {
      hide ChainOk, Coherent, Queued, Homes;
      ghost var before := buf[..];
      CoherentBuf(buf[..], disk, store, i);
      ghost var v := buf[i].(delwri := true, done := true);
      CoherentDelay(buf[..], disk, store, i, v);
      QueuedSame(buf[..], lru, aged, i, v);
      HomesSame(buf[..], i, v);
      buf[i] := buf[i].(delwri := true, done := true);
      store := store[buf[i].blkno := buf[i].data];
      assert buf[..] == before[i := v];
      Brelse(i);
    }

    /** A caller marks a buffer it holds for the AGE queue. */
    method MarkAge(i: nat)
      requires Valid() && i < buf.Length && buf[i].busy
      modifies buf
      ensures Valid()
      ensures buf[..] == old(buf[..])[i := old(buf[i]).(age := true)]
    {
      hide ChainOk, Coherent, Queued, Homes;
      ghost var before := buf[..];
      ghost var v := buf[i].(age := true);
      CoherentBuf(buf[..], disk, store, i);
      CoherentUpdate(buf[..], disk, store, i, v);
      QueuedSame(buf[..], lru, aged, i, v);
      HomesSame(buf[..], i, v);
      buf[i] := buf[i].(age := true);
      assert buf[..] == before[i := v];
    }

    /** bawrite, of a buffer that its holder may have filled, or of one with a delayed write: the block's contents
        become the buffer's, on the device and for later readers. */
    method Bawrite(i: nat)
      requires Valid() && i < buf.Length && buf[i].busy && buf[i].dev != NODEV
      modifies this, buf
      ensures Valid() && chains == old(chains)
      ensures store == old(store[buf[i].blkno := buf[i].data])
      ensures disk == old(disk[buf[i].blkno := buf[i].data])
      ensures buf[..] == old(buf[..])[i := Written(old(buf[i]).(async := true))]
      ensures lru == if old(buf[i].age) then old(lru) else old(lru) + [i]
      ensures aged == if old(buf[i].age) then old(aged) + [i] else old(aged)
    {
      hide ChainOk, Coherent, Queued, Homes;
      ghost var before := buf[..];
      CoherentBuf(buf[..], disk, store, i);
      ghost var v := buf[i].(async := true);
      CoherentUpdate(buf[..], disk, store, i, v);
      QueuedSame(buf[..], lru, aged, i, v);
      HomesSame(buf[..], i, v);
      buf[i] := buf[i].(async := true);
      assert buf[..] == before[i := v];
      Bwrite(i);
      assert buf[..] == before[i := Written(v)];
    }

    /** What rwip does with a buffer that it has filled: bwrite for a synchronous write, bawrite if the block is written
        to its end, whose buffer goes to the AGE queue, and bdwrite otherwise. */
    method WriteFilled(i: nat, sync: bool, toEnd: bool)
      requires Valid() && i < buf.Length && buf[i].busy && buf[i].dev != NODEV
      modifies this, buf
      ensures Valid() && chains == old(chains) && store == old(store[buf[i].blkno := buf[i].data])
      ensures disk == if sync || toEnd then old(disk[buf[i].blkno := buf[i].data]) else old(disk)
      ensures buf[..] == old(buf[..])[i := buf[i]] && !buf[i].busy
      ensures buf[i].delwri <==> !sync && !toEnd
      ensures old(!buf[i].age) ==> lru == old(lru) + (if toEnd && !sync then [] else [i])
      ensures old(!buf[i].age) ==> aged == old(aged) + (if toEnd && !sync then [i] else [])
    {
      hide ChainOk, Coherent, Queued, Homes, Chained;
      if sync {
        Bwrite(i);
      } else if toEnd {
        MarkAge(i);
        Bawrite(i);
      } else {
        Bdwrite(i);
      }
    }

    /** One pass of the retry loops: an idle buffer with a delayed write is written and put back. */
    method WriteBack(i: nat)
      requires Valid() && (i in lru || i in aged) && i < buf.Length && buf[i].delwri
      modifies this, buf
      ensures Valid() && chains == old(chains) && store == old(store)
      ensures buf[..] == old(buf[..])[i := Flushed(old(buf[i]))]
      ensures lru == Unlink(old(lru), i) + [i] && aged == Unlink(old(aged), i)
      ensures |lru| + |aged| == old(|lru| + |aged|)
      ensures Dirty(buf[..]) < old(Dirty(buf[..]))
      ensures old(if aged != [] then aged[0] == i else lru[0] == i) ==>
        Choice(buf[..], lru, aged) == old(Choice(buf[..], lru, aged))
    {
      hide ChainOk, Coherent, Homes, Queued, Choice, Chained;
      ghost var before := buf[..];
      ghost var v := Flushed(buf[i]);
      QueuedMember(buf[..], lru, aged, i);
      CoherentBuf(buf[..], disk, store, i);
      if if aged != [] then aged[0] == i else lru[0] == i {
        ChoicePass(buf[..], lru, aged, i, v);
      }
      DirtyUpdate(buf[..], i, v);
      Notavail(i);
      Bawrite(i);
      assert buf[..] == before[i := v];
    }

    /** An idle buffer is taken and its flags are reset; it still stands for its old block. */
    method Claim(i: nat)
      requires Valid() && (i in lru || i in aged) && i < buf.Length && !buf[i].delwri
      modifies this`lru, this`aged, buf
      ensures Valid()
      ensures buf[..] == old(buf[..])[i :=
        Buf(old(buf[i].dev), old(buf[i].blkno), old(buf[i].data), true, false, false, false, false, false, false)]
      ensures |lru| + |aged| + 1 == old(|lru| + |aged|)
      ensures !old(buf[i].busy)
    {
      hide ChainOk, Coherent, Homes, Queued, Chained;
      ghost var before := buf[..];
      QueuedMember(buf[..], lru, aged, i);
      CoherentBuf(buf[..], disk, store, i);
      Notavail(i);
      ghost var v := Buf(buf[i].dev, buf[i].blkno, buf[i].data, true, false, false, false, false, false, false);
      CoherentUpdate(buf[..], disk, store, i, v);
      QueuedSame(buf[..], lru, aged, i, v);
      HomesSame(buf[..], i, v);
      buf[i] := Buf(buf[i].dev, buf[i].blkno, buf[i].data, true, false, false, false, false, false, false);
      assert buf[..] == before[i := v];
    }

    /** getnewbuf: an idle buffer, from the AGE queue if there is one. Buffers with a delayed write are written
        and put behind the LRU queue; each such pass leaves one fewer, so the search ends. */
    method Getnewbuf() returns (r: nat)
      requires Valid() && lru + aged != []
      modifies this, buf
      ensures Valid() && chains == old(chains) && store == old(store)
      ensures r < buf.Length && !old(buf[r].busy) && Flushes(r)
      ensures buf[r] == Buf(old(buf[r].dev), old(buf[r].blkno), old(buf[r].data), true, false, false, false, false,
        false, false)
      ensures |lru| + |aged| + 1 == old(|lru| + |aged|)
      ensures r == old(Choice(buf[..], lru, aged))
    {
      hide ChainOk, Coherent, Homes, Queued, Choice, Dirty, Chained;
      while true
        invariant Valid() && chains == old(chains) && store == old(store) && Flushes(-1)
        invariant |lru| + |aged| == old(|lru| + |aged|)
        invariant Choice(buf[..], lru, aged) == old(Choice(buf[..], lru, aged))
        decreases Dirty(buf[..])
      {
        var i := if aged != [] then aged[0] else lru[0];
        QueuedMember(buf[..], lru, aged, i);
        ChoicePass(buf[..], lru, aged, i, Flushed(buf[i]));
        if buf[i].delwri {
          WriteBack(i);
        } else {
          Claim(i);
          r := i;
          return;
        }
      }
    }

    /** The search of a block's hash chain, as incore and getblk do it; -1 when no buffer holds the block. */
    method Search(b: int) returns (r: int)
      requires Valid() && 0 <= b < |disk|
      ensures r >= 0 ==> r < buf.Length && buf[r].Holds(b)
      ensures r < 0 ==> r == -1 && forall i :: 0 <= i < buf.Length ==> !buf[i].Holds(b)
    {
      var chain := chains[Hash(ROOTDEV, b)];
      hide ChainOk, Chained, Queued, Homes;
      OnItsChain(buf[..], chains, b);
      var k := 0;
      while k < |chain|
        invariant k <= |chain|
        invariant forall j :: 0 <= j < k ==> !buf[chain[j]].Holds(b)
      {
        var i := chain[k];
        if buf[i].blkno == b && buf[i].dev == ROOTDEV && !buf[i].inval {
          return i;
        }
        k := k + 1;
      }
      r := -1;
    }

    /** incore. */
    method Incore(b: int) returns (r: bool)
      requires Valid() && 0 <= b < |disk|
      ensures r <==> exists i :: 0 <= i < buf.Length && buf[i].Holds(b)
    {
      var i := Search(b);
      r := i >= 0;
    }

    /** The end of getblk and geteblk: a claimed buffer moves to chain h and stands for dev and b. */
    method Reassign(i: nat, dev: int, b: int, inval: bool)
      requires Valid() && i < buf.Length && buf[i].busy && !buf[i].done && !buf[i].delwri
      requires inval == (dev == NODEV)
      requires dev == NODEV || (dev == ROOTDEV && 0 <= b < |disk| && forall j :: 0 <= j < buf.Length && j != i ==>
        !buf[j].Holds(b))
      modifies this`chains, buf
      ensures Valid()
      ensures buf[..] == old(buf[..])[i := old(buf[i]).(dev := dev, blkno := b, inval := inval)]
    {
      hide ChainOk, Queued, Coherent, Chained;
      ghost var before := buf[..];
      ghost var v := buf[i].(dev := dev, blkno := b, inval := inval);
      var from, to := buf[i].Home(), if dev == NODEV then UNHASHED else Hash(dev, b);
      ChainCount(Homes(buf[..]), chains, BUFHSZ + 1);
      CoherentAssign(buf[..], disk, store, i, v);
      QueuedSame(buf[..], lru, aged, i, v);
      ChainedMove(Homes(buf[..]), chains, BUFHSZ + 1, i, to);
      chains := Rehash(chains, i, from, to);
      buf[i] := buf[i].(dev := dev, blkno := b, inval := inval);
      assert buf[..] == before[i := v];
      assert Homes(buf[..]) == Homes(before)[i := to];
    }

    /** getblk: the one buffer for block b, taken from its queue. What it holds is the block's contents if it
        is done. A busy buffer for b would be waited for. */
    method Getblk(b: int) returns (r: nat)
      requires Valid() && 0 <= b < |disk| && lru + aged != []
      requires forall i :: 0 <= i < buf.Length && buf[i].Holds(b) ==> !buf[i].busy
      modifies this, buf
      ensures Valid() && store == old(store) && |disk| == |old(disk)|
      ensures r < buf.Length && !old(buf[r].busy) && Flushes(r)
      ensures buf[r].busy && buf[r].Holds(b) && !buf[r].async
      ensures buf[r].done ==> buf[r].data == store[b]
      ensures (forall i :: 0 <= i < buf.Length ==> !old(buf[i].delwri)) ==> !buf[r].delwri
      ensures |lru| + |aged| + 1 == old(|lru| + |aged|)
      ensures forall i :: 0 <= i < buf.Length && old(buf[i].Holds(b)) ==> i == r && buf[i] == old(buf[i]).(busy := true)
      ensures (forall i :: 0 <= i < buf.Length ==> !old(buf[i].Holds(b))) ==> r == old(Choice(buf[..], lru, aged))
    {
      hide ChainOk, Queued, Chained, Homes, Dirty, Choice, Unlink;
      var i := Search(b);
      if i >= 0 {
        r := i;
        IdleQueued(buf[..], lru, aged, r);
        QueuedMember(buf[..], lru, aged, r);
        CoherentBuf(buf[..], disk, store, r);
        hide Coherent;
        Notavail(r);
        return;
      }
      hide Coherent;
      CoherentSizes(buf[..], disk, store);
      r := Getnewbuf();
      CoherentSizes(buf[..], disk, store);
      CoherentBuf(buf[..], disk, store, r);
      Reassign(r, ROOTDEV, b, false);
    }

    /** geteblk: a buffer that stands for no block. */
    method Geteblk() returns (r: nat)
      requires Valid() && lru + aged != []
      modifies this, buf
      ensures Valid() && store == old(store)
      ensures r < buf.Length && !old(buf[r].busy) && Flushes(r)
      ensures buf[r].busy && buf[r].dev == NODEV && buf[r].inval
      ensures |lru| + |aged| + 1 == old(|lru| + |aged|)
    {
      hide ChainOk, Queued, Chained, Homes, Dirty, Choice, Unlink, Coherent;
      r := Getnewbuf();
      Reassign(r, NODEV, buf[r].blkno, true);
    }

    /** bread: the contents last written to block b. */
    method Bread(b: int) returns (r: nat)
      requires Valid() && 0 <= b < |disk| && lru + aged != []
      requires forall i :: 0 <= i < buf.Length && buf[i].Holds(b) ==> !buf[i].busy
      modifies this, buf
      ensures Valid() && store == old(store) && |disk| == |old(disk)|
      ensures r < buf.Length && !old(buf[r].busy) && Flushes(r)
      ensures buf[r].busy && buf[r].Holds(b) && buf[r].done
      ensures buf[r].data == store[b]
      ensures |lru| + |aged| + 1 == old(|lru| + |aged|)
    {
      hide ChainOk, Queued, Chained, Homes, Dirty, Choice, Unlink, Coherent;
      CoherentSizes(buf[..], disk, store);
      r := Getblk(b);
      if buf[r].done || buf[r].delwri {
        CoherentBuf(buf[..], disk, store, r);
        return;
      }
      StartRead(r, false);
    }

    /** B_READ is set, with B_ASYNC for a read-ahead, and the strategy routine is called. */
    method StartRead(r: nat, async: bool)
      requires Valid() && r < buf.Length && buf[r].busy && buf[r].dev != NODEV
      requires !buf[r].done && !buf[r].delwri && !buf[r].async
      modifies this, buf
      ensures Valid() && store == old(store) && disk == old(disk)
      ensures buf[..] == old(buf[..])[r :=
        Finished(old(buf[r]).(read := true, async := async), old(store[buf[r].blkno]))]
      ensures |lru| + |aged| == old(|lru| + |aged|) + if async then 1 else 0
    {
      hide ChainOk, Queued, Chained, Homes, Dirty, Choice, Unlink, Coherent;
      ghost var before := buf[..];
      ghost var v := buf[r].(read := true, async := async);
      CoherentBuf(buf[..], disk, store, r);
      CoherentUpdate(buf[..], disk, store, r, v);
      QueuedSame(buf[..], lru, aged, r, v);
      HomesSame(buf[..], r, v);
      buf[r] := buf[r].(read := true, async := async);
      assert buf[..] == before[r := v];
      Strategy(r);
    }

    /** The read-ahead of breada: the block is brought in, if it is not there, and released. */
    method ReadAhead(rablkno: int)
      requires Valid() && 0 <= rablkno < |disk| && lru + aged != []
      modifies this, buf
      ensures Valid() && store == old(store) && |disk| == |old(disk)| && HeldSame(-1)
      ensures forall j :: 0 <= j < buf.Length ==> buf[j].busy == old(buf[j].busy)
      ensures |lru| + |aged| == old(|lru| + |aged|)
      ensures exists j :: 0 <= j < buf.Length && buf[j].Holds(rablkno)
    {
      hide ChainOk, Queued, Chained, Homes, Dirty, Choice, Unlink, Coherent;
      CoherentSizes(buf[..], disk, store);
      var ahead := Incore(rablkno);
      if !ahead {
        var rabp := Getblk(rablkno);
        if buf[rabp].done || buf[rabp].delwri {
          Brelse(rabp);
        } else {
          StartRead(rabp, true);
        }
        assert buf[rabp].Holds(rablkno);
      }
    }

    /** breada: like bread; the block to read ahead is brought in and released. Reading ahead may evict the
        block itself, which is then read again. */
    method Breada(b: int, rablkno: int) returns (r: nat)
      requires Valid() && 0 <= b < |disk| && 0 <= rablkno < |disk| && |lru| + |aged| >= if rablkno == 0 then 1 else 2
      requires forall i :: 0 <= i < buf.Length && buf[i].Holds(b) ==> !buf[i].busy
      modifies this, buf
      ensures Valid() && store == old(store) && |disk| == |old(disk)| && HeldSame(-1)
      ensures r < buf.Length && !old(buf[r].busy)
      ensures buf[r].busy && buf[r].Holds(b) && buf[r].done
      ensures buf[r].data == store[b]
      ensures |lru| + |aged| + 1 == old(|lru| + |aged|)
    {
      hide ChainOk, Queued, Chained, Homes, Dirty, Choice, Unlink, Coherent;
      CoherentSizes(buf[..], disk, store);
      var bp := -1;
      var present := Incore(b);
      if !present {
        bp := Getblk(b);
        CoherentBuf(buf[..], disk, store, bp);
        if !buf[bp].done && !buf[bp].delwri {
          StartRead(bp, false);
        }
      }
      if rablkno != 0 {
        ReadAhead(rablkno);
      }
      if bp < 0 {
        r := Bread(b);
      } else {
        r := bp;
      }
    }

    /** The scan of bflush: an idle buffer with a delayed write, the LRU queue first; -1 when there is none. */
    method FirstDelayed() returns (r: int)
      requires Valid()
      ensures r >= 0 ==> r < buf.Length && buf[r].delwri && r in lru + aged
      ensures r < 0 ==> forall i :: 0 <= i < buf.Length && !buf[i].busy ==> !buf[i].delwri
    {
      hide Chained, Homes, Queued;
      var queue := lru + aged;
      QueuedAll(buf[..], lru, aged);
      var k := 0;
      while k < |queue|
        invariant k <= |queue|
        invariant forall j :: 0 <= j < k ==> !buf[queue[j]].delwri
      {
        if buf[queue[k]].delwri && buf[queue[k]].dev == ROOTDEV {
          return queue[k];
        }
        k := k + 1;
      }
      r := -1;
    }

    /** bflush: every idle buffer with a delayed write is written, starting over after each; no other buffer
        changes. With no busy buffer, the device then holds the contents last written to every block. */
    method Bflush()
      requires Valid()
      modifies this, buf
      ensures Valid() && chains == old(chains) && store == old(store) && Flushes(-1)
      ensures forall i :: 0 <= i < buf.Length && !buf[i].busy ==> !buf[i].delwri
      ensures (forall i :: 0 <= i < buf.Length ==> !buf[i].busy) ==> disk == store
    {
      hide ChainOk, Queued, Chained, Homes, Dirty, Choice, Unlink, Coherent;
      var i := FirstDelayed();
      while i >= 0
        invariant Valid() && chains == old(chains) && store == old(store) && Flushes(-1)
        invariant i >= 0 ==> i < buf.Length && buf[i].delwri && i in lru + aged
        invariant i < 0 ==> forall i :: 0 <= i < buf.Length && !buf[i].busy ==> !buf[i].delwri
        decreases Dirty(buf[..])
      {
        QueuedMember(buf[..], lru, aged, i);
        WriteBack(i);
        i := FirstDelayed();
      }
      if forall i :: 0 <= i < buf.Length ==> !buf[i].busy {
        AllWritten(buf[..], disk, store);
      }
    }
  }
}
