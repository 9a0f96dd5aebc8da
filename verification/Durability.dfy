/** A mounted volume: the storage engine, the buffer cache and the table of inodes together, from bsd211fs_init
    (bsd211fs.c) to ufs_sync (ufs_syscalls2.c). The storage engine and the inode table work on the blocks as the
    buffer cache has them. */
module Durability {
  import opened DiskFormat
  import opened BlockTree
  import opened InodeMap
  import opened FreeChain
  import opened Superblock
  import opened Growth
  import opened FileTrim
  import opened FileContents
  import opened Store
  import opened Volume
  import opened Shortage
  import HashChains
  import FreeInodes
  import opened DirEntries
  import opened InodeTables
  import opened InodeBlocks
  import opened FileSets
  import opened BufferCache

  /** The blocks outside the inode list. */
  ghost predicate OthersSame(store: Disk, store': Disk, isize: int) {
    |store'| == |store| && forall b :: 0 <= b < |store| && !(2 <= b < isize) ==> store'[b] == store[b]
  }

  lemma OthersTwice(store: Disk, store': Disk, store'': Disk, isize: int)
    requires OthersSame(store, store', isize) && OthersSame(store', store'', isize)
    ensures OthersSame(store, store'', isize)
  {
  }

  /** What clearing i_rdev, which shares its place with the upper half of the first address, leaves. */
  function ClearRdev(addr: seq<int>): seq<int>
    requires addr != []
  {
    addr[0 := addr[0] % 0x1_0000]
  }

  /** The in-core inode with new contents, marked if there is a change. */
  function Marked(v: Incore, d: Dinode, mark: bool): Incore {
    v.(d := d, dirty := v.dirty || mark)
  }

  lemma MarkConsistent(d: Disk, t: seq<Incore>, dinode: Blocks, i: nat, v: Dinode, mark: bool, avail: seq<int>,
      isize: int, fsize: int)
    requires i < |t| && OneEach(t)
    requires Consistent(d, t[i := t[i].(d := v, dirty := true)], dinode, avail, isize, fsize)
    ensures Consistent(d, t[i := Marked(t[i], v, mark)], dinode, avail, isize, fsize)
    ensures Numbered(dinode, InodeCount(isize))
    ensures Currents(t[i := Marked(t[i], v, mark)], dinode, InodeCount(isize))
      == Currents(t[i := t[i].(d := v, dirty := true)], dinode, InodeCount(isize))
  {
    hide FilesOk, Current, Stored, Storable, OneEach, Same;
    var t1 := t[i := t[i].(d := v, dirty := true)];
    OneEachKept(t, i, t1[i]);
    SameContents(t1, dinode, i, Marked(t[i], v, mark));
    assert t1[i := Marked(t[i], v, mark)] == t[i := Marked(t[i], v, mark)];
    ConsistentSame(d, t1, dinode, t[i := Marked(t[i], v, mark)], avail, isize, fsize);
  }

  class Mounted {
    const fs: FileSystem
    const cache: Cache
    const table: InodeTable

    ghost function Files(): seq<Dinode>
      reads fs, table, table.inode
      requires Numbered(table.dinode, InodeCount(fs.isize))
    {
      Currents(table.inode[..], table.dinode, InodeCount(fs.isize))
    }

    ghost predicate Valid()
      reads fs, cache, cache.buf, table, table.inode, table.free, table.free.freef, table.free.freeb
    {
      && fs.Sound() && cache.Valid() && table.Valid()
      && cache.store == fs.disk
      && Numbered(table.dinode, InodeCount(fs.isize))
      && Consistent(fs.disk, table.inode[..], table.dinode, fs.avail, fs.isize, fs.fsize)
    }

    /** No buffer is held by anyone. */
    ghost predicate Quiet()
      reads cache, cache.buf
    {
      cache.buf.Length > 0 && forall j :: 0 <= j < cache.buf.Length ==> !cache.buf[j].busy
    }

    /** Since the old state, every file has kept its inode and its bytes, and no block was lost or gained. */
    twostate predicate Kept()
      reads fs, cache, cache.buf, table, table.inode, table.free, table.free.freef, table.free.freeb
    {
      && old(Valid()) && Valid()
      && SameFiles(old(fs.disk), old(Files()), old(fs.avail), fs.disk, Files(), fs.avail)
    }

    /** bsd211fs_init, but for its ufs_sync: nothing is in core. */
    constructor (image: Disk, nbuf: nat, ninode: nat, ghost list: seq<int>)
      requires Mountable(image, list) && nbuf > 0 && ninode > 0
      ensures Valid() && Quiet() && fresh(fs) && fresh(cache) && fresh(cache.buf) && fresh(table) && fresh(table.inode)
      ensures fresh(table.free) && fresh(table.free.freef) && fresh(table.free.freeb)
      ensures fs.disk == cache.disk == image && fs.fmod && fs.avail == list && fs.error == NoError
      ensures Files() == DiskFiles(image) && table.inode.Length == ninode
      ensures forall i :: 0 <= i < ninode ==> table.inode[i].count == 0 && !table.inode[i].locked
    {
      hide FileSystem.Sound, Cache.Valid, InodeTable.Valid, FilesOk, Current, DinodeAt, SuperAt, Itod, Itoo;
      fs := new FileSystem.Mount(image, list);
      cache := new Cache(nbuf, image);
      table := new InodeTable(ninode, DiskInodes(image));
      new;
      ConsistentStart(image, table.inode[..], table.dinode, list);
    }

    lemma SomeIdle()
      requires cache.Valid() && Quiet()
      ensures cache.lru + cache.aged != []
    {
      IdleQueued(cache.buf[..], cache.lru, cache.aged, 0);
    }

    /** What iupdat does to the buffer of an inode's block. */
    method PutInode(ino: nat, d: Dinode, times: Bytes)
      requires fs.Sound() && cache.Valid() && Quiet() && cache.store == fs.disk
      requires 2 <= Itod(ino) < fs.isize && Storable(d) && |times| == 12
      modifies cache, cache.buf, fs`disk
      ensures fs.Sound() && cache.Valid() && Quiet() && cache.store == fs.disk
      ensures fs.disk == old(fs.disk)[Itod(ino) := PutDinode(old(fs.disk)[Itod(ino)], Itoo(ino), d, times)]
    {
      hide Coherent, Queued, HashChains.Chained, Choice, Dirty, PutDinode, Itod, Itoo, FreeList, Saved;
      SomeIdle();
      CoherentSizes(cache.buf[..], cache.disk, cache.store);
      var b := Itod(ino);
      var bp := cache.Bread(b);
      var v := PutDinode(cache.buf[bp].data, Itoo(ino), d, times);
      cache.Fill(bp, v);
      cache.Bdwrite(bp);
      fs.PutInodeBlock(b, v);
    }

    /** The writes of the storage engine are made in the buffers, here all at the end of a call; each reaches the
        device at once or later. */
    method Settle()
      requires cache.Valid() && Quiet() && |fs.disk| == |cache.store|
      modifies cache, cache.buf
      ensures cache.Valid() && Quiet() && cache.store == fs.disk
    {
      hide Coherent, Queued, HashChains.Chained, Choice, Dirty;
      var b := 0;
      while b < |fs.disk|
        invariant b <= |fs.disk| == |cache.store| && cache.Valid() && Quiet()
        invariant forall x :: 0 <= x < b ==> cache.store[x] == fs.disk[x]
      {
        SomeIdle();
        CoherentSizes(cache.buf[..], cache.disk, cache.store);
        var bp := cache.Bread(b);
        if cache.buf[bp].data == fs.disk[b] {
          cache.Brelse(bp);
        } else {
          cache.Fill(bp, fs.disk[b]);
          var sync: bool, toEnd: bool := *, *;
          cache.WriteFilled(bp, sync, toEnd);
        }
        b := b + 1;
      }
    }

    /** What iget reads. */
    method ReadInode(ino: nat) returns (d: Dinode)
      requires cache.Valid() && Quiet() && Itod(ino) < |cache.store|
      modifies cache, cache.buf
      ensures cache.Valid() && Quiet() && cache.store == old(cache.store)
      ensures d == DinodeAt(cache.store[Itod(ino)], Itoo(ino))
    {
      hide Coherent, Queued, HashChains.Chained, Choice, Dirty, DinodeAt, Itod, Itoo;
      SomeIdle();
      CoherentSizes(cache.buf[..], cache.disk, cache.store);
      var bp := cache.Bread(Itod(ino));
      d := DinodeAt(cache.buf[bp].data, Itoo(ino));
      cache.Brelse(bp);
    }

    /** iget: as InodeTable.Iget, with the inode read from its block. */
    method Iget(ino: nat) returns (ip: int)
      requires Valid() && Quiet() && 1 <= ino <= InodeCount(fs.isize)
      requires forall i :: 0 <= i < table.inode.Length && table.inode[i].Is(ino) ==> !table.inode[i].locked
      modifies cache, cache.buf, table`chains, table.inode, table.free, table.free.freef, table.free.freeb
      ensures Valid() && Quiet() && Kept() && Files() == old(Files())
      ensures ip < 0 <==> old(table.free.list) == [] && forall i :: 0 <= i < table.inode.Length ==>
        !old(table.inode[i]).Is(ino)
      ensures ip >= 0 ==> ip < table.inode.Length && table.inode[ip].Is(ino) && table.inode[ip].locked
      ensures ip >= 0 ==> table.inode[ip].count > 0 && table.inode[ip].d == old(Files())[ino - 1]
      ensures forall i :: 0 <= i < table.inode.Length && i != ip ==> table.inode[i] == old(table.inode[i])
    {
      hide FileSystem.Sound, Cache.Valid, FilesOk, InodeTables.Homes, OneEach, Counted, InodeTables.Written,
        FreeInodes.Linked, Current, Same, Consistent, SameFiles, Census, Storable, PutDinode, DinodeAt, Itod, Itoo;
      ghost var t := table.inode[..];
      StorableAll();
      SameFilesSame(fs.disk, Files(), fs.avail);
      ip := table.Ifind(ino);
      if ip >= 0 {
        FileAt(ip);
        table.Igrab(ip);
        ConsistentSame(fs.disk, t, table.dinode, table.inode[..], fs.avail, fs.isize, fs.fsize);
        return;
      }
      table.FreeDistinct();
      ghost var list := table.free.list;
      ip := table.free.TakeHead();
      if ip < 0 {
        return;
      }
      ReadBack(fs.disk, t, table.dinode, fs.avail, fs.isize, fs.fsize, ino);
      var d := ReadInode(ino);
      table.Load(ip, ino, d, list);
      ConsistentSame(fs.disk, t, table.dinode, table.inode[..], fs.avail, fs.isize, fs.fsize);
    }

    lemma StorableAll()
      requires Valid()
      ensures forall i :: 0 <= i < table.inode.Length && table.inode[i].hashed ==> Storable(table.inode[i].d)
    {
      hide FileSystem.Sound, Cache.Valid, InodeTable.Valid, FilesOk, Storable, Stored;
      assert forall i :: 0 <= i < table.inode.Length ==> table.inode[i] == table.inode[..][i];
    }

    /** The in-core copy is the file as its users see it. */
    lemma FileAt(ip: nat)
      requires Valid() && ip < table.inode.Length && table.inode[ip].hashed
      ensures 1 <= table.inode[ip].number <= InodeCount(fs.isize)
      ensures Files()[table.inode[ip].number - 1] == table.inode[ip].d
    {
      hide FileSystem.Sound, Cache.Valid, FilesOk, InodeTables.Homes, OneEach, Counted, InodeTables.Written,
        FreeInodes.Linked, Current, Same, Consistent, SameFiles, Census, Storable, PutDinode, DinodeAt, Itod, Itoo;
      WrittenAt(table.inode[..], table.dinode, ip);
      CurrentIn(table.inode[..], table.dinode, ip);
    }

    /** iupdat. */
    method Iupdat(ip: nat, times: Bytes)
      requires Valid() && Quiet() && ip < table.inode.Length && table.inode[ip].hashed && |times| == 12
      modifies cache, cache.buf, fs`disk, table`dinode, table.inode
      ensures Valid() && Quiet() && Kept() && OthersSame(old(fs.disk), fs.disk, fs.isize)
      ensures table.inode[..] == old(table.inode[..])[ip := old(table.inode[ip]).(dirty := false)]
      ensures var ino := table.inode[ip].number;
        Itod(ino) < |fs.disk| && DinodeAt(fs.disk[Itod(ino)], Itoo(ino)) == table.inode[ip].d
    {
      hide Cache.Valid, FilesOk, FreeList, Saved, InodeTables.Homes, OneEach, Counted, InodeTables.Written,
        FreeInodes.Linked, Current, Same, Consistent, SameFiles, Census, Storable, PutDinode, DinodeAt, Itod, Itoo;
      ghost var t, dinode := table.inode[..], table.dinode;
      StorableAll();
      FileAt(ip);
      WrittenAt(t, dinode, ip);
      SameFilesSame(fs.disk, Files(), fs.avail);
      var ino, d, dirty := table.inode[ip].number, table.inode[ip].d, table.inode[ip].dirty;
      table.Iupdat(ip);
      assert forall i :: 0 <= i < |t| ==> table.inode[i] == table.inode[..][i];
      if dirty {
        ConsistentPut(fs.disk, t, dinode, table.inode[..], ino, d, times, fs.avail, fs.isize, fs.fsize);
        PutInode(ino, d, times);
      } else {
        ConsistentSame(fs.disk, t, dinode, table.inode[..], fs.avail, fs.isize, fs.fsize);
      }
      ReadBack(fs.disk, table.inode[..], table.dinode, fs.avail, fs.isize, fs.fsize, ino);
    }

    // Sync.

    /** syncinodes: every inode in use that is not locked is written, and is otherwise as it was. */
    method SyncInodes(times: Bytes)
      requires Valid() && Quiet() && |times| == 12
      modifies cache, cache.buf, fs`disk, table`dinode, table.inode, table.free, table.free.freef, table.free.freeb
      ensures Valid() && Quiet() && Kept() && OthersSame(old(fs.disk), fs.disk, fs.isize)
      ensures forall i :: 0 <= i < table.inode.Length ==>
                table.inode[i] == if old(table.inode[i]).locked then old(table.inode[i])
                  else old(table.inode[i]).(dirty := false)
    {
      hide FileSystem.Sound, Cache.Valid, FilesOk, InodeTables.Homes, OneEach, Counted, InodeTables.Written,
        FreeInodes.Linked, Current, Same, Consistent, SameFiles, Census, Storable, PutDinode, DinodeAt, Itod, Itoo,
        OthersSame;
      ghost var d0, files0 := fs.disk, Files();
      SameFilesSame(fs.disk, Files(), fs.avail);
      OthersNone(fs.disk, fs.isize);
      var ip := 0;
      while ip < table.inode.Length
        invariant ip <= table.inode.Length && Valid() && Quiet()
        invariant forall i :: ip <= i < table.inode.Length ==> table.inode[i] == old(table.inode[i])
        invariant forall i :: 0 <= i < ip ==>
                    table.inode[i] == if old(table.inode[i]).locked then old(table.inode[i])
                      else old(table.inode[i]).(dirty := false)
        invariant SameFiles(d0, files0, fs.avail, fs.disk, Files(), fs.avail)
        invariant OthersSame(d0, fs.disk, fs.isize)
      {
        WrittenAt(table.inode[..], table.dinode, ip);
        if !table.inode[ip].locked && table.inode[ip].count != 0 && table.inode[ip].dirty {
          ghost var d, files := fs.disk, Files();
          SyncOne(ip, times);
          SameFilesTwice(d0, files0, fs.avail, d, files, fs.avail, fs.disk, Files(), fs.avail);
          OthersTwice(d0, d, fs.disk, fs.isize);
        }
        ip := ip + 1;
      }
    }

    /** One inode: in the table, and in its block. */
    method SyncOne(ip: nat, times: Bytes)
      requires Valid() && Quiet() && |times| == 12
      requires ip < table.inode.Length && table.inode[ip].hashed && table.inode[ip].count > 0
      requires !table.inode[ip].locked && table.inode[ip].dirty
      modifies cache, cache.buf, fs`disk, table`dinode, table.inode, table.free, table.free.freef, table.free.freeb
      ensures Valid() && Quiet() && OthersSame(old(fs.disk), fs.disk, fs.isize)
      ensures SameFiles(old(fs.disk), old(Files()), fs.avail, fs.disk, Files(), fs.avail)
      ensures table.inode[..] == old(table.inode[..])[ip := old(table.inode[ip]).(dirty := false)]
    {
      hide Cache.Valid, FilesOk, FreeList, Saved, InodeTables.Homes, OneEach, Counted, InodeTables.Written,
        FreeInodes.Linked, Current, Same, Consistent, SameFiles, Census, Storable, PutDinode, DinodeAt, Itod, Itoo;
      ghost var t, dinode := table.inode[..], table.dinode;
      StorableAll();
      FileAt(ip);
      WrittenAt(t, dinode, ip);
      var ino, d := table.inode[ip].number, table.inode[ip].d;
      table.WriteOne(ip);
      assert forall i :: 0 <= i < |t| ==> table.inode[i] == table.inode[..][i];
      ConsistentPut(fs.disk, t, dinode, table.inode[..], ino, d, times, fs.avail, fs.isize, fs.fsize);
      PutInode(ino, d, times);
    }

    /** The superblock is written at once; `image` has its fields that are not modelled. */
    method WriteSuper(image: Block)
      requires Valid() && Quiet() && cache.disk == cache.store
      requires forall i :: 0 <= i < cache.buf.Length ==> !cache.buf[i].delwri
      modifies cache, cache.buf, fs`disk, fs`fmod
      ensures Valid() && Quiet() && cache.disk == cache.store && !fs.fmod
      ensures SameFiles(old(fs.disk), old(Files()), fs.avail, fs.disk, Files(), fs.avail)
      ensures fs.disk == old(fs.disk)[SUPERB := PutSuper(image, Super(fs.isize, fs.fsize, fs.Table(), fs.tfree))]
    {
      hide InodeTable.Valid, FilesOk, FreeList, Saved, Coherent, Queued, HashChains.Chained, HashChains.ChainOk,
        BufferCache.Homes, Current, Same, Consistent, SameFiles, Census, Storable, PutDinode, DinodeAt, Itod, Itoo,
        Choice, Dirty, PutSuper;
      SomeIdle();
      Sizes();
      ghost var d0 := fs.disk;
      var bp := cache.Getblk(SUPERB);
      AllWritten(cache.buf[..], cache.disk, cache.store);
      var v := PutSuper(image, Super(fs.isize, fs.fsize, fs.Table(), fs.tfree));
      cache.Fill(bp, v);
      cache.Bwrite(bp);
      fs.SaveSuper(image);
      ConsistentSuper(d0, v, table.inode[..], table.dinode, fs.avail, fs.isize, fs.fsize);
    }

    lemma Sizes()
      requires Valid()
      ensures SUPERB < fs.isize <= |fs.disk| == |cache.disk|
    {
      hide FilesOk, FreeList, Saved, Consistent, HashChains.Chained;
    }

    /** Everything that is in core is on the device too. */
    ghost predicate OnDevice()
      requires Valid()
      reads fs, cache, cache.buf, table, table.inode, table.free, table.free.freef, table.free.freeb
    {
      cache.disk == cache.store && Saved(cache.disk, fs.avail, fs.isize, fs.fsize)
      && forall ino :: ino in table.dinode ==> table.dinode[ino] == Current(table.inode[..], table.dinode, ino)
    }

    /** ufs_sync, with no inode locked and no buffer held: afterwards the disk by itself can be mounted, with every
        inode and every byte of every file as its users saw them, and with the free list. */
    method Sync(times: Bytes, image: Block)
      requires Valid() && Quiet() && |times| == 12
      requires forall i :: 0 <= i < table.inode.Length ==> !table.inode[i].locked
      modifies cache, cache.buf, fs`disk, fs`fmod, table`dinode, table.inode, table.free, table.free.freef,
        table.free.freeb
      ensures Valid() && Quiet() && !fs.fmod && cache.disk == cache.store
      ensures OnDevice() && Mountable(cache.disk, fs.avail) && Kept()
      ensures SameFiles(old(fs.disk), old(Files()), old(fs.avail), cache.disk, DiskFiles(cache.disk), fs.avail)
      ensures !old(fs.fmod) ==> OthersSame(old(fs.disk), cache.disk, fs.isize)
      ensures forall i :: 0 <= i < table.inode.Length ==> table.inode[i] == old(table.inode[i]).(dirty := false)
    {
      hide FileSystem.Sound, Cache.Valid, FilesOk, InodeTables.Homes, OneEach, Counted, InodeTables.Written,
        FreeInodes.Linked, Current, Same, Consistent, SameFiles, Census, Storable, PutDinode, DinodeAt, Itod, Itoo,
        OthersSame, PutSuper, Mountable;
      ghost var d0, files0 := fs.disk, Files();
      SyncInodes(times);
      ghost var d1, files1 := fs.disk, Files();
      cache.Bflush();
      if fs.fmod {
        WriteSuper(image);
        SameFilesTwice(d0, files0, fs.avail, d1, files1, fs.avail, fs.disk, Files(), fs.avail);
      }
      AllOnDisk(table.inode[..], table.dinode);
      SavedIs();
      SavedMountable();
    }

    /** bsd211fs_sync: nothing is done unless the superblock is marked as modified. */
    method Commit(times: Bytes, image: Block)
      requires Valid() && Quiet() && |times| == 12
      requires forall i :: 0 <= i < table.inode.Length ==> !table.inode[i].locked
      modifies cache, cache.buf, fs`disk, fs`fmod, table`dinode, table.inode, table.free, table.free.freef,
        table.free.freeb
      ensures Valid() && Quiet() && Kept()
      ensures OnDevice() <==> old(fs.fmod || OnDevice())
      ensures OnDevice() ==> Mountable(cache.disk, fs.avail) && DiskFiles(cache.disk) == Files()
    {
      hide FileSystem.Sound, Cache.Valid, InodeTable.Valid, FilesOk, Current, Same, Consistent, SameFiles, Census,
        Storable, PutDinode, DinodeAt, Itod, Itoo, OthersSame, PutSuper, Mountable;
      SameFilesSame(fs.disk, Files(), fs.avail);
      if !fs.fmod {
        if OnDevice() {
          SavedMountable();
        }
        return;
      }
      Sync(times, image);
      SavedMountable();
    }

    lemma SavedIs()
      requires Valid() && !fs.fmod
      ensures Saved(fs.disk, fs.avail, fs.isize, fs.fsize)
    {
      hide FilesOk, FreeList, Saved, Consistent, HashChains.Chained;
    }

    lemma SavedMountable()
      requires Valid() && OnDevice()
      ensures Mountable(fs.disk, fs.avail) && DiskFiles(fs.disk) == Files()
    {
      hide FileSystem.Sound, Cache.Valid, InodeTable.Valid, FilesOk, Current, Same, Consistent, SameFiles, Census,
        Storable, PutDinode, DinodeAt, Itod, Itoo;
      ConsistentSaved(fs.disk, table.inode[..], table.dinode, fs.avail, fs.isize, fs.fsize);
    }

    // Operations on files.

    /** Only file n has changed, and no block was lost or gained but for those given. */
    twostate predicate OnlyFile(n: int, lost: multiset<int>)
      reads fs, cache, cache.buf, table, table.inode, table.free, table.free.freef, table.free.freeb
    {
      && old(Valid()) && Valid()
      && OneFile(old(fs.disk), old(Files()), old(fs.avail), fs.disk, Files(), fs.avail, n, lost)
    }

    /** The in-core inode of a file gets what an operation of the storage engine left, and the buffers its blocks. */
    method Replace(ip: nat, d: Dinode, mark: bool)
      requires fs.Sound() && cache.Valid() && Quiet() && table.Valid() && |fs.disk| == |cache.store|
      requires Numbered(table.dinode, InodeCount(fs.isize))
      requires ip < table.inode.Length && table.inode[ip].hashed && table.inode[ip].count > 0
      requires mark || d == table.inode[ip].d
      requires Consistent(fs.disk, table.inode[..][ip := Marked(table.inode[ip], d, mark)], table.dinode,
        fs.avail, fs.isize, fs.fsize)
      modifies cache, cache.buf, table.inode
      ensures Valid() && Quiet()
      ensures table.inode[..] == old(table.inode[..])[ip := Marked(old(table.inode[ip]), d, mark)]
    {
      hide FileSystem.Sound, Cache.Valid, InodeTable.Valid, Consistent;
      table.Change(ip, d, mark);
      Settle();
    }

    /** The same for a change of one file that is local to its blocks. */
    method Changed(ip: nat, d: Dinode, mark: bool, ghost d0: Disk, ghost avail0: seq<int>)
      requires fs.Sound() && cache.Valid() && Quiet() && table.Valid() && |fs.disk| == |cache.store|
      requires Numbered(table.dinode, InodeCount(fs.isize))
      requires Consistent(d0, table.inode[..], table.dinode, avail0, fs.isize, fs.fsize)
      requires ip < table.inode.Length && table.inode[ip].hashed && table.inode[ip].count > 0 && Storable(d)
      requires Local(d0, BlocksOf(table.inode[ip].d), avail0, fs.disk, BlocksOf(d), fs.avail)
      requires FileSets.InOrder(fs.disk, d) && (mark || d == table.inode[ip].d)
      modifies cache, cache.buf, table.inode
      ensures Valid() && Quiet()
      ensures table.inode[..] == old(table.inode[..])[ip := Marked(old(table.inode[ip]), d, mark)]
      ensures 1 <= table.inode[ip].number <= InodeCount(fs.isize)
      ensures Files() == old(Files())[table.inode[ip].number - 1 := d]
      ensures OneFile(d0, old(Files()), avail0, fs.disk, Files(), fs.avail, table.inode[ip].number - 1,
        multiset{})
    {
      hide FileSystem.Sound, Cache.Valid, FilesOk, InodeTables.Homes, OneEach, Counted, InodeTables.Written,
        FreeInodes.Linked, Current, Same, Consistent, SameFiles, OneFile, Census, Storable, PutDinode, DinodeAt, Itod,
        Itoo, Local, FileSets.InOrder, BytesOf;
      WrittenAt(table.inode[..], table.dinode, ip);
      ConsistentFile(d0, table.inode[..], table.dinode, avail0, ip, fs.disk, d, fs.avail, fs.isize, fs.fsize);
      MarkConsistent(fs.disk, table.inode[..], table.dinode, ip, d, mark, fs.avail, fs.isize, fs.fsize);
      Replace(ip, d, mark);
    }

    /** chmod, of an inode that the caller holds: the type stays. */
    method Chmod(ip: nat, bits: nat)
      requires Valid() && Quiet() && ip < table.inode.Length && table.inode[ip].hashed && table.inode[ip].count > 0
      requires table.inode[ip].d.mode >= 0x1000 && bits < 0x1000
      modifies cache, cache.buf, table.inode
      ensures Valid() && Quiet() && OnlyFile(table.inode[ip].number - 1, multiset{})
      ensures table.inode[..] == old(table.inode[..])[ip := old(table.inode[ip]).(dirty := true,
        d := old(table.inode[ip].d).(mode := old(table.inode[ip].d.mode) / 0x1000 * 0x1000 + bits))]
    {
      hide FileSystem.Sound, Cache.Valid, InodeTable.Valid, FilesOk, Current, Same, Consistent, SameFiles, OneFile,
        Census, Storable, PutDinode, DinodeAt, Itod, Itoo, Local, CleanTail, BytesOf, Separate, Inside, Claims,
        HasBlocks;
      StorableAll();
      FileReady(ip);
      var d := table.inode[ip].d.(mode := table.inode[ip].d.mode / 0x1000 * 0x1000 + bits);
      SameType(table.inode[ip].d, bits);
      LocalNot(fs.disk, BlocksOf(d), fs.avail);
      Changed(ip, d, true, fs.disk, fs.avail);
    }

    /** What the storage engine needs to work on a file. */
    lemma FileReady(ip: nat)
      requires Valid() && ip < table.inode.Length && table.inode[ip].hashed
      ensures var d := table.inode[ip].d;
        && |d.addr| == NADDR && FileSets.InOrder(fs.disk, d) && Storable(d) && d.size < 0x8000_0000
        && (d.size == 0 ==> BlocksOf(d)[0] == 0) && (!HasBlocks(d) ==> d.size == 0)
        && Separate(Claims(fs.disk, BlocksOf(d), 0), fs.avail)
        && Inside(Claims(fs.disk, BlocksOf(d), 0), fs.avail, fs.isize, fs.fsize)
    {
      hide FileSystem.Sound, Cache.Valid, InodeTable.Valid, Current, FilesOk, Stored, Separate, Inside, Claims,
        CleanTail;
      StorableAll();
      FileAt(ip);
      FilesAt(fs.disk, Files(), fs.avail, fs.isize, fs.fsize, table.inode[ip].number - 1);
    }

    /** The storage operation of a system call that sets a length (truncate, open with O_TRUNC). */
    method Truncate(ip: nat, length: nat) returns (ok: bool)
      requires Valid() && Quiet() && ip < table.inode.Length && table.inode[ip].hashed && table.inode[ip].count > 0
      requires HasBlocks(table.inode[ip].d) && length < 0x8000_0000
      modifies fs, cache, cache.buf, table.inode
      ensures Valid() && Quiet() && OnlyFile(table.inode[ip].number - 1, multiset{})
      ensures table.inode[..] == old(table.inode[..])[ip := Marked(old(table.inode[ip]), table.inode[ip].d,
        ok || table.inode[ip].d.addr != old(table.inode[ip].d.addr))]
      ensures Local(old(fs.disk), old(table.inode[ip].d.addr), old(fs.avail), fs.disk, table.inode[ip].d.addr, fs.avail)
      ensures var f, d := old(table.inode[ip].d), table.inode[ip].d;
        |f.addr| == |d.addr| == NADDR && (length > f.size || !ok ==>
          var bn := EndBlock(f.size, length);
          MapsOnly(old(fs.disk), f.addr, fs.disk, d.addr, bn,
            if bn < MAX_BLOCKS && BlockOf(fs.disk, d.addr, bn) != 0 then bn + 1 else bn))
      ensures var f, d := old(table.inode[ip].d), table.inode[ip].d;
        |f.addr| == |d.addr| == NADDR && (ok && length > f.size ==>
          && EndBlock(f.size, length) < MAX_BLOCKS && BlockOf(fs.disk, d.addr, EndBlock(f.size, length)) != 0
          && |fs.avail| + Need(old(fs.disk), f.addr, EndBlock(f.size, length)) == |old(fs.avail)|)
      ensures var f, d := old(table.inode[ip].d), table.inode[ip].d;
        && BytesOf(fs.disk, d) == (if ok then Resized(old(BytesOf(fs.disk, table.inode[ip].d)), length)
                                   else old(BytesOf(fs.disk, table.inode[ip].d)))
        && d == f.(addr := d.addr, size := if ok then length else f.size)
        && |f.addr| == NADDR && (ok <==> Reachable(old(fs.disk), f.addr, |old(fs.avail)|, NoError, f.size, length))
        && (!ok ==> fs.error == ENOSPC && fs.avail == [])
    {
      hide Cache.Valid, InodeTable.Valid, FilesOk, FreeList, Saved, Current, Same, Consistent, SameFiles, Census,
        Storable, PutDinode, DinodeAt, Itod, Itoo, Local, FileSets.InOrder, Reachable, SlotTrees, SlotKept, Separate,
        Inside, Claims, BlockOf, Resized;
      FileReady(ip);
      ghost var d0, avail0 := fs.disk, fs.avail;
      var f := table.inode[ip].d;
      var file := new Inode.Of(f.addr, f.size);
      FileOkay(file, f);
      fs.StartCall();
      fs.Itrunc(file, length);
      ok := file.size == length;
      if ok && length == 0 && f.size > 0 {
        NothingKept(fs.disk, file.addr);
      }
      var d := f.(addr := file.addr, size := file.size);
      AfterCall(file, d);
      StorableAfter(fs.disk, f, file.addr, file.size, fs.avail, fs.isize, fs.fsize);
      Changed(ip, d, file.changed, d0, avail0);
      if ok {
        ContentsResized(d0, f.addr, f.size, fs.disk, d.addr, d.size);
      } else {
        ContentsSame(d0, f.addr, fs.disk, d.addr, d.size);
      }
    }

    lemma FileOkay(file: Inode, d: Dinode)
      requires file.addr == d.addr && file.size == d.size && FileSets.InOrder(fs.disk, d) && HasBlocks(d)
      requires Separate(Claims(fs.disk, BlocksOf(d), 0), fs.avail)
      requires Inside(Claims(fs.disk, BlocksOf(d), 0), fs.avail, fs.isize, fs.fsize)
      ensures fs.FileOk(file)
    {
      hide Separate, Inside, Claims, CleanTail;
    }

    lemma AfterCall(file: Inode, d: Dinode)
      requires fs.Sound() && fs.FileOk(file) && file.addr == d.addr && file.size == d.size
      requires HasBlocks(d) && (d.size == 0 ==> d.addr[0] == 0)
      ensures |d.addr| == NADDR && FileSets.InOrder(fs.disk, d)
      ensures Inside(Claims(fs.disk, d.addr, 0), fs.avail, fs.isize, fs.fsize)
      ensures 0 <= fs.isize <= fs.fsize < 0x8000_0000
    {
      hide Separate, Inside, Claims, CleanTail, FreeList, Saved;
    }

    /** write, to a regular file. */
    method Write(ip: nat, offset: nat, data: Bytes, append: bool) returns (done: nat, err: Errno)
      requires Valid() && Quiet() && ip < table.inode.Length && table.inode[ip].hashed && table.inode[ip].count > 0
      requires HasBlocks(table.inode[ip].d)
      modifies fs, cache, cache.buf, table.inode
      ensures Valid() && Quiet() && OnlyFile(table.inode[ip].number - 1, multiset{})
      ensures table.inode[..] == old(table.inode[..])[ip := Marked(old(table.inode[ip]), table.inode[ip].d,
        done > 0 || table.inode[ip].d.addr != old(table.inode[ip].d.addr))]
      ensures Local(old(fs.disk), old(table.inode[ip].d.addr), old(fs.avail), fs.disk, table.inode[ip].d.addr, fs.avail)
      ensures var f, d := old(table.inode[ip].d), table.inode[ip].d;
        var start := if append then f.size else offset;
        && |f.addr| == |d.addr| == NADDR
        && MapsOnly(old(fs.disk), f.addr, fs.disk, d.addr, start / BSIZE, Behind(start, done))
        && (err != ENOSPC ==> |fs.avail| + Spent(old(fs.disk), f.addr, start, done) == |old(fs.avail)|)
      ensures done <= |data| && (err == NoError <==> done == |data|)
      ensures var f, d := old(table.inode[ip].d), table.inode[ip].d;
        var start := if append then f.size else offset;
        && BytesOf(fs.disk, d) == Spliced(old(BytesOf(fs.disk, table.inode[ip].d)), start, data[..done])
        && d == f.(addr := d.addr, size := d.size)
        && |f.addr| == NADDR
        && (err == NoError <==>
              data == [] || (start + |data| <= LIMIT && Fits(old(fs.disk), f.addr, |old(fs.avail)|, start, |data|)))
        && (err != NoError ==>
              if start + |data| > LIMIT then err == EFBIG && done == 0 else err == ENOSPC && fs.avail == [])
    {
      hide Cache.Valid, InodeTable.Valid, FilesOk, FreeList, Saved, Current, Same, Consistent, SameFiles, Census,
        Storable, PutDinode, DinodeAt, Itod, Itoo, Local, FileSets.InOrder, Fits, Undivided, Separate, Inside, Claims,
        BlockOf, Spliced, Overwritten, MapsOnly, Spent, ByteAt, CleanTail, Behind;
      FileReady(ip);
      ghost var d0, avail0 := fs.disk, fs.avail;
      var f := table.inode[ip].d;
      var file := new Inode.Of(f.addr, f.size);
      FileOkay(file, f);
      fs.StartCall();
      done, err := fs.RwipWrite(file, offset, data, true, append, false);
      var d := f.(addr := file.addr, size := file.size);
      AfterCall(file, d);
      assert done > 0 ==> (if append then f.size else offset) + |data| <= LIMIT;
      StorableAfter(fs.disk, f, file.addr, file.size, fs.avail, fs.isize, fs.fsize);
      Changed(ip, d, file.changed, d0, avail0);
      TailClean(fs.disk, d0, f);
      ContentsSpliced(d0, f.addr, f.size, fs.disk, d.addr, d.size, if append then f.size else offset, data[..done]);
    }

    /** The blocks that are lost with an inode without links: its size is 0, and itrunc does nothing. */
    ghost function Lost(ip: nat): multiset<int>
      requires ip < table.inode.Length
      reads fs, table, table.inode
    {
      if table.inode[ip].d.size == 0 then Claims(fs.disk, BlocksOf(table.inode[ip].d), 0) else multiset{}
    }

    /** What is left of the addresses of an inode without links. */
    function Left(ip: nat): seq<int>
      requires ip < table.inode.Length && |table.inode[ip].d.addr| == NADDR
      reads table, table.inode
    {
      if table.inode[ip].d.size == 0 then ClearRdev(table.inode[ip].d.addr) else NoBlocks()
    }

    /** A file that has been cut to length 0 is freed. */
    lemma Emptied(ip: nat, t: seq<Incore>, d0: Disk, avail0: seq<int>, d: Dinode)
      requires ip < |t| && t[ip].hashed && t[ip].number in table.dinode && OneEach(t)
      requires Consistent(d0, t, table.dinode, avail0, fs.isize, fs.fsize)
      requires HasBlocks(t[ip].d) && Local(d0, t[ip].d.addr, avail0, fs.disk, NoBlocks(), fs.avail)
      requires d == t[ip].d.(mode := 0, addr := NoBlocks(), size := 0)
      requires Storable(d) && Storable(d.(mode := t[ip].d.mode))
      ensures 1 <= t[ip].number <= InodeCount(fs.isize) && Numbered(table.dinode, InodeCount(fs.isize))
      ensures var t', files := t[ip := t[ip].(d := d, dirty := true)], Currents(t, table.dinode, InodeCount(fs.isize));
        && Consistent(fs.disk, t', table.dinode, fs.avail, fs.isize, fs.fsize)
        && Currents(t', table.dinode, InodeCount(fs.isize)) == files[t[ip].number - 1 := d]
        && OneFile(d0, files, avail0, fs.disk, files[t[ip].number - 1 := d], fs.avail, t[ip].number - 1, multiset{})
    {
      hide FileSystem.Sound, InodeTable.Valid, FilesOk, Current, Consistent, OneFile, Census, Storable, Local,
        CleanTail, BytesOf, Claims;
      var f := d.(mode := t[ip].d.mode);
      EmptyFile(fs.disk, NoBlocks());
      ConsistentFile(d0, t, table.dinode, avail0, ip, fs.disk, f, fs.avail, fs.isize, fs.fsize);
      var t1 := t[ip := t[ip].(d := f, dirty := true)];
      OneEachKept(t, ip, t1[ip]);
      ConsistentFreed(fs.disk, t1, table.dinode, ip, d, fs.avail, fs.isize, fs.fsize);
      OneFileTwice(d0, Currents(t, table.dinode, InodeCount(fs.isize)), avail0, fs.disk, f, d, fs.avail,
        t[ip].number - 1);
      assert t1[ip := t1[ip].(d := d, dirty := true)] == t[ip := t[ip].(d := d, dirty := true)];
    }

    /** irele of an inode without links: itrunc to length 0, which does nothing if that is the length, and mode 0. */
    method FreeFile(ip: nat)
      requires Valid() && Quiet() && ip < table.inode.Length && table.inode[ip].hashed && table.inode[ip].count > 0
      modifies fs, cache, cache.buf, table.inode
      ensures Valid() && Quiet() && OnlyFile(table.inode[ip].number - 1, old(Lost(ip)))
      ensures |old(table.inode[ip].d.addr)| == NADDR
      ensures table.inode[..] == old(table.inode[..])[ip := old(table.inode[ip]).(dirty := true,
        d := old(table.inode[ip].d).(mode := 0, size := 0, addr := old(Left(ip))))]
      ensures multiset(fs.avail) == multiset(old(fs.avail)) + if old(table.inode[ip].d.size) == 0 then multiset{}
        else Claims(old(fs.disk), old(table.inode[ip].d.addr), 0)
    {
      hide Cache.Valid, FilesOk, FreeList, Saved, InodeTables.Homes, OneEach, Counted, InodeTables.Written,
        FreeInodes.Linked, Current, Same, Consistent, SameFiles, OneFile, Census, Storable, PutDinode, DinodeAt, Itod,
        Itoo, Local, FileSets.InOrder, Reachable, SlotTrees, SlotKept, Separate, Inside, Claims, BlockOf, BytesOf;
      FileReady(ip);
      WrittenAt(table.inode[..], table.dinode, ip);
      ghost var d0, avail0, t := fs.disk, fs.avail, table.inode[..];
      var f := table.inode[ip].d;
      var d := f.(mode := 0, addr := ClearRdev(f.addr), size := 0);
      RdevStorable(f);
      if f.size > 0 {
        var file := new Inode.Of(f.addr, f.size);
        FileOkay(file, f);
        ReachZero(d0, f.addr, |avail0|, fs.error, f.size);
        fs.Itrunc(file, 0);
        NothingKept(fs.disk, file.addr);
        assert file.addr == NoBlocks();
        d := f.(mode := 0, addr := file.addr, size := 0);
        AfterCall(file, f.(addr := file.addr, size := 0));
        StorableAfter(fs.disk, f, file.addr, 0, fs.avail, fs.isize, fs.fsize);
        ModeStorable(f.(addr := file.addr, size := 0), 0);
        LocalFreed(d0, f.addr, avail0, fs.disk, file.addr, fs.avail);
        Emptied(ip, t, d0, avail0, d);
      } else {
        assert multiset(fs.avail) == multiset(avail0) + multiset{};
        ConsistentFreed(d0, t, table.dinode, ip, d, avail0, fs.isize, fs.fsize);
      }
      Replace(ip, d, true);
    }

    /** irele: with the last reference, an inode without links is freed, and what has changed is written. */
    method Irele(ip: nat, times: Bytes)
      requires Valid() && Quiet() && |times| == 12
      requires ip < table.inode.Length && table.inode[ip].hashed && table.inode[ip].count > 0
      modifies fs, cache, cache.buf, table`dinode, table.inode, table.free, table.free.freef, table.free.freeb
      ensures Valid() && Quiet()
      ensures OnlyFile(table.inode[ip].number - 1,
        if old(table.inode[ip].count == 1 && table.inode[ip].d.nlink <= 0) then old(Lost(ip)) else multiset{})
      ensures old(table.inode[ip].count > 1 || table.inode[ip].d.nlink > 0) ==> Kept() && fs.avail == old(fs.avail)
      ensures old(table.inode[ip].count) > 1 ==>
        table.inode[..] == old(table.inode[..])[ip := old(table.inode[ip]).(count := old(table.inode[ip].count) - 1)]
      ensures |old(table.inode[ip].d.addr)| == NADDR
      ensures old(table.inode[ip].count) == 1 ==>
        && table.inode[..] == old(table.inode[..])[ip := Released(old(table.inode[ip]), old(Left(ip)))]
        && table.free.list == old(table.free.list) + [ip]
      ensures old(table.inode[ip].count == 1 && table.inode[ip].d.nlink <= 0) ==>
        multiset(fs.avail) == multiset(old(fs.avail)) + if old(table.inode[ip].d.size) == 0 then multiset{}
          else Claims(old(fs.disk), old(table.inode[ip].d.addr), 0)
    {
      hide FileSystem.Sound, Cache.Valid, InodeTable.Valid, FilesOk, Current, Same, Consistent, SameFiles, Census,
        Storable, PutDinode, DinodeAt, Itod, Itoo, OneFile, Claims, Separate, Inside, FileSets.InOrder, BytesOf;
      ghost var d0, files0, avail0 := fs.disk, Files(), fs.avail;
      FileReady(ip);
      ghost var lost := if table.inode[ip].count == 1 && table.inode[ip].d.nlink <= 0 then Lost(ip) else multiset{};
      OneFileNone(fs.disk, Files(), fs.avail, table.inode[ip].number - 1);
      SameFilesSame(fs.disk, Files(), fs.avail);
      if table.inode[ip].count == 1 && table.inode[ip].d.nlink <= 0 {
        FreeFile(ip);
      }
      ghost var d1, files1, avail1 := fs.disk, Files(), fs.avail;
      LastUse(ip, times);
      OneFileSame(d0, files0, avail0, d1, files1, avail1, fs.disk, Files(), fs.avail, table.inode[ip].number - 1,
        lost);
    }

    /** The rest of irele. */
    method LastUse(ip: nat, times: Bytes)
      requires Valid() && Quiet() && |times| == 12
      requires ip < table.inode.Length && table.inode[ip].hashed && table.inode[ip].count > 0
      requires var d := table.inode[ip].d; table.inode[ip].count == 1 && d.nlink <= 0 ==> d.mode == 0 && d.size == 0
      modifies cache, cache.buf, fs`disk, table`dinode, table.inode, table.free, table.free.freef, table.free.freeb
      ensures Valid() && Quiet()
      ensures SameFiles(old(fs.disk), old(Files()), fs.avail, fs.disk, Files(), fs.avail)
      ensures old(table.inode[ip].count) > 1 ==>
        table.inode[..] == old(table.inode[..])[ip := old(table.inode[ip]).(count := old(table.inode[ip].count) - 1)]
      ensures old(table.inode[ip].count) == 1 ==>
        && table.inode[..] ==
              old(table.inode[..])[ip := old(table.inode[ip]).(count := 0, locked := false, dirty := false)]
        && table.free.list == old(table.free.list) + [ip]
    {
      hide FileSystem.Sound, Cache.Valid, FilesOk, InodeTables.Homes, OneEach, Counted, InodeTables.Written,
        FreeInodes.Linked, Current, Same, Consistent, SameFiles, Census, Storable, PutDinode, DinodeAt, Itod, Itoo;
      ghost var t, dinode := table.inode[..], table.dinode;
      StorableAll();
      FileAt(ip);
      WrittenAt(t, dinode, ip);
      SameFilesSame(fs.disk, Files(), fs.avail);
      var ino, d, last, dirty :=
        table.inode[ip].number, table.inode[ip].d, table.inode[ip].count == 1, table.inode[ip].dirty;
      table.Irele(ip, d.addr);
      assert forall i :: 0 <= i < |t| ==> table.inode[i] == table.inode[..][i];
      if last && dirty {
        ConsistentPut(fs.disk, t, dinode, table.inode[..], ino, d, times, fs.avail, fs.isize, fs.fsize);
        PutInode(ino, d, times);
      } else {
        assert table.dinode == dinode;
        ConsistentSame(fs.disk, t, dinode, table.inode[..], fs.avail, fs.isize, fs.fsize);
      }
    }
  }

  lemma OneFileTwice(d0: Disk, files: seq<Dinode>, avail0: seq<int>, d: Disk, f: Dinode, v: Dinode, avail: seq<int>,
      n: nat)
    requires n < |files| && OneFile(d0, files, avail0, d, files[n := f], avail, n, multiset{})
    requires OneFile(d, files[n := f], avail, d, files[n := f][n := v], avail, n, multiset{})
    ensures OneFile(d0, files, avail0, d, files[n := v], avail, n, multiset{})
  {
    hide Census, BytesOf;
    assert files[n := f][n := v] == files[n := v];
  }

  lemma OneFileNone(d: Disk, files: seq<Dinode>, avail: seq<int>, n: int)
    ensures OneFile(d, files, avail, d, files, avail, n, multiset{})
  {
  }

  lemma ReachZero(d: Disk, addr: seq<int>, blocks: nat, error: Errno, size: nat)
    requires |addr| == NADDR
    ensures Reachable(d, addr, blocks, error, size, 0)
  {
  }

  lemma LocalFreed(d0: Disk, addr0: seq<int>, avail0: seq<int>, d: Disk, addr: seq<int>, avail: seq<int>)
    requires Local(d0, addr0, avail0, d, addr, avail) && Claims(d, addr, 0) == multiset{}
    ensures multiset(avail) == multiset(avail0) + Claims(d0, addr0, 0)
  {
    hide Claims, At;
    assert multiset{} + multiset(avail) == multiset(avail);
    assert Claims(d0, addr0, 0) + multiset(avail0) == multiset(avail0) + Claims(d0, addr0, 0);
  }

  lemma TailClean(d: Disk, d0: Disk, f: Dinode)
    requires FileSets.InOrder(d0, f) && HasBlocks(f)
    ensures |f.addr| == NADDR && CleanTail(d0, f.addr, f.size)
  {
    hide CleanTail;
  }

  /** The type of a mode is in its upper bits. */
  lemma SameType(f: Dinode, bits: nat)
    requires f.mode >= 0x1000 && bits < 0x1000 && Storable(f)
    ensures var d := f.(mode := f.mode / 0x1000 * 0x1000 + bits);
      Storable(d) && (HasBlocks(d) <==> HasBlocks(f)) && BlocksOf(d) == BlocksOf(f)
  {
  }

  lemma RdevStorable(f: Dinode)
    requires Storable(f) && |f.addr| == NADDR
    ensures Storable(f.(mode := 0, addr := ClearRdev(f.addr), size := 0))
    ensures !HasBlocks(f.(mode := 0, addr := ClearRdev(f.addr), size := 0))
  {
  }

  lemma ModeStorable(d: Dinode, mode: nat)
    requires Storable(d) && mode < 0x1_0000
    ensures Storable(d.(mode := mode))
  {
  }

  lemma OthersNone(store: Disk, isize: int)
    ensures OthersSame(store, store, isize)
  {
  }

  /** What iget reads is what was last written. */
  lemma ReadBack(d: Disk, t: seq<Incore>, dinode: Blocks, avail: seq<int>, isize: int, fsize: int, ino: nat)
    requires Consistent(d, t, dinode, avail, isize, fsize) && ino in dinode
    ensures 2 <= Itod(ino) < isize <= |d| && DinodeAt(d[Itod(ino)], Itoo(ino)) == dinode[ino] && Storable(dinode[ino])
  {
    hide FilesOk, DinodeAt, Storable, Itod, Itoo;
    InodePlace(isize, ino);
    DinodeStorable(d[Itod(ino)], Itoo(ino));
  }

  lemma SameFilesSame(d: Disk, files: seq<Dinode>, avail: seq<int>)
    ensures SameFiles(d, files, avail, d, files, avail)
  {
  }

  // Runs.

  /** bsd211fs_init: the volume is mounted, and synced at once, because mounting marks the superblock as modified. */
  method Init(disk: Disk, nbuf: nat, ninode: nat, times: Bytes, image: Block,
      ghost list: seq<int>) returns (m: Mounted)
    requires Mountable(disk, list) && |times| == 12 && nbuf > 0 && ninode > 0
    ensures fresh(m) && m.Valid() && m.Quiet() && m.OnDevice() && !m.fs.fmod && m.Files() == DiskFiles(disk)
    ensures SameFiles(disk, DiskFiles(disk), list, m.fs.disk, m.Files(), m.fs.avail) && m.fs.avail == list
  {
    hide FileSystem.Sound, Cache.Valid, InodeTable.Valid, FilesOk, Same, Consistent, Storable, PutDinode, DinodeAt,
      Itod, Itoo, Mountable, Current, BytesOf, Census;
    m := new Mounted(disk, nbuf, ninode, list);
    m.Sync(times, image);
  }

  /** bsd211fs_shutdown, and the volume is mounted again: nothing is lost. */
  method Restart(m: Mounted, nbuf: nat, ninode: nat, times: Bytes, image: Block) returns (m': Mounted)
    requires m.Valid() && m.Quiet() && |times| == 12 && nbuf > 0 && ninode > 0
    requires forall i :: 0 <= i < m.table.inode.Length ==> !m.table.inode[i].locked
    modifies m.cache, m.cache.buf, m.fs`disk, m.fs`fmod, m.table`dinode, m.table.inode, m.table.free
    modifies m.table.free.freef, m.table.free.freeb
    ensures fresh(m') && m'.Valid() && m'.Quiet() && m'.OnDevice() && m'.Files() == old(m.Files())
    ensures SameFiles(old(m.fs.disk), old(m.Files()), old(m.fs.avail), m'.fs.disk, m'.Files(), m'.fs.avail)
  {
    hide FileSystem.Sound, Cache.Valid, InodeTable.Valid, FilesOk, Same, Consistent, SameFiles, Storable, PutDinode,
      DinodeAt, Itod, Itoo, Current, BytesOf, Census;
    ghost var d, files, avail := m.fs.disk, m.Files(), m.fs.avail;
    m.Sync(times, image);
    m' := Init(m.cache.disk, nbuf, ninode, times, image, m.fs.avail);
    SameFilesTwice(d, files, avail, m.cache.disk, DiskFiles(m.cache.disk), m.fs.avail, m'.fs.disk, m'.Files(),
      m'.fs.avail);
    SameFilesEqual(d, files, avail, m'.fs.disk, m'.Files(), m'.fs.avail);
  }

  lemma SameFilesEqual(d: Disk, files: seq<Dinode>, avail: seq<int>, d': Disk, files': seq<Dinode>, avail': seq<int>)
    requires SameFiles(d, files, avail, d', files', avail')
    ensures files' == files
  {
  }

  /** A change of mode after a sync is not committed by the next one. */
  method ChmodNotCommitted(m: Mounted, ip: nat, bits: nat, times: Bytes, image: Block)
    requires m.Valid() && m.Quiet() && |times| == 12 && bits < 0x1000
    requires forall i :: 0 <= i < m.table.inode.Length ==> !m.table.inode[i].locked
    requires !m.fs.fmod && m.OnDevice()
    requires ip < m.table.inode.Length && m.table.inode[ip].hashed && m.table.inode[ip].count > 0
    requires m.table.inode[ip].d.mode >= 0x1000 && m.table.inode[ip].d.mode % 0x1000 != bits
    modifies m.cache, m.cache.buf, m.fs`disk, m.fs`fmod, m.table`dinode, m.table.inode, m.table.free
    modifies m.table.free.freef, m.table.free.freeb
    ensures m.Valid() && !m.OnDevice()
  {
    hide FileSystem.Sound, Cache.Valid, InodeTable.Valid, FilesOk, Same, Consistent, SameFiles, Storable, PutDinode,
      DinodeAt, Itod, Itoo, Mountable, Current, BytesOf, Census;
    ghost var n := m.table.inode[ip].number;
    m.FileAt(ip);
    m.Chmod(ip, bits);
    m.FileAt(ip);
    m.Commit(times, image);
  }

  /** With one block left, a write behind the direct blocks of an empty file gets an indirect block and nothing to
      put into it. When the file is freed, the block is lost. */
  method FreedWithBlock(m: Mounted, ip: nat, times: Bytes)
    requires m.Valid() && m.Quiet() && |times| == 12 && |m.fs.avail| == 1
    requires ip < m.table.inode.Length && m.table.inode[ip].hashed && m.table.inode[ip].count == 1
    requires var d := m.table.inode[ip].d; HasBlocks(d) && d.nlink <= 0 && d.size == 0 && d.addr == NoBlocks()
    modifies m.fs, m.cache, m.cache.buf, m.table`dinode, m.table.inode, m.table.free
    modifies m.table.free.freef, m.table.free.freeb
    ensures m.Valid() && m.fs.avail == []
    ensures m.table.inode[ip].d.mode == 0 && m.table.inode[ip].d.size == 0 && m.table.inode[ip].d.addr != NoBlocks()
    ensures Census(m.fs.disk, m.Files(), m.fs.avail) < old(Census(m.fs.disk, m.Files(), m.fs.avail))
  {
    hide FileSystem.Sound, Cache.Valid, InodeTable.Valid, FilesOk, Same, Consistent, SameFiles, Storable, PutDinode,
      DinodeAt, Itod, Itoo, Mountable, Current, BytesOf, Claims, Separate, Inside, Fits, Reachable, Spliced;
    ghost var d0, avail0, f := m.fs.disk, m.fs.avail, m.table.inode[ip].d;
    IndirectNeeds(d0);
    var done, err := m.Write(ip, NDADDR * BSIZE, [1], false);
    BlockKept(d0, avail0, m.fs.disk, m.table.inode[ip].d.addr, m.fs.avail);
    EmptySplice(d0, f, m.fs.disk, m.table.inode[ip].d, NDADDR * BSIZE, [1][..done]);
    m.FileReady(ip);
    ghost var d1, v, files1 := m.fs.disk, m.table.inode[ip].d, m.Files();
    assert ClearRdev(v.addr) == v.addr;
    NoAddresses(d1, v.addr);
    m.Irele(ip, times);
    LostSome(Census(m.fs.disk, m.Files(), m.fs.avail), Census(d1, files1, []), Claims(d1, v.addr, 0));
    assert |multiset(m.fs.avail)| == 0;
  }

  lemma LostSome(c: multiset<int>, c0: multiset<int>, lost: multiset<int>)
    requires c + lost == c0 && lost != multiset{}
    ensures c < c0
  {
    forall y
      ensures c[y] <= c0[y] && (c == c0 ==> lost[y] == 0)
    {
      assert (c + lost)[y] == c0[y];
    }
    assert c == c0 ==> lost == multiset{};
  }

  lemma BlockKept(d0: Disk, avail0: seq<int>, d: Disk, addr: seq<int>, avail: seq<int>)
    requires |avail0| == 1 && avail == [] && Local(d0, NoBlocks(), avail0, d, addr, avail)
    ensures addr != NoBlocks()
  {
    hide Claims, At;
    NoAddresses(d0, NoBlocks());
    NoAddresses(d, addr);
    assert avail0[0] in multiset{} + multiset(avail0);
    assert multiset{} + multiset(avail) == multiset{};
  }

  lemma EmptySplice(d0: Disk, f: Dinode, d: Disk, v: Dinode, offset: nat, data: Bytes)
    requires f.size == 0 && |f.addr| == |v.addr| == NADDR && data == []
    requires BytesOf(d, v) == Spliced(BytesOf(d0, f), offset, data)
    ensures v.size == 0
  {
    hide ByteAt;
  }

  lemma IndirectNeeds(d: Disk)
    ensures !Fits(d, NoBlocks(), 1, NDADDR * BSIZE, 1)
  {
    hide NodeAt, Wanted;
    NodeAtStep(d, 1, 0, 0, 0);
    NodeAtStep(d, 1, 0, 0, 1);
    Shortage.NeedIs(d, NoBlocks(), 4, 2);
    Shortage.MissingStep(d, NoBlocks(), 4, 4);
  }
}
