/** The name cache (namei and cacheinvalall in ufs_namei.c, cacheinval in inode.h): names found in directories,
    guarded by the ids of in-core inodes. */
module NameCaching {
  import opened HashChains
  import opened NameTree
  import opened TreeMoves
  import opened CallSpecs
  import opened RenameSpec

  const NCHNAMLEN := 15
  const IDS := 0x1_0000       // i_id and nextinodeid are unsigned shorts

  /** What the cache needs of an in-core inode: i_number and i_id. */
  datatype InCore = InCore(ino: nat, id: nat)

  /** struct namecache: directory and name, nc_ip as an index into the inode table, and nc_id. An entry that is not
      hashed is on a chain of its own. */
  datatype Cached = Cached(key: Key, ip: nat, id: nat, hashed: bool)

  /** nc_id matches nc_ip's i_id. */
  predicate Current(table: seq<InCore>, c: Cached) {
    c.hashed && c.ip < |table| && table[c.ip].id == c.id
  }

  /** A current entry says what the directory says. Only "." may be left of a directory that is gone. */
  ghost predicate Agrees(names: Names, dirs: set<nat>, table: seq<InCore>, c: Cached) {
    Current(table, c) ==>
      if c.key.dir in dirs then c.key in names && names[c.key] == table[c.ip].ino
      else c.key.name == Dot() && table[c.ip].ino == c.key.dir
  }

  ghost predicate Agreement(names: Names, dirs: set<nat>, table: seq<InCore>, nc: seq<Cached>) {
    forall i :: 0 <= i < |nc| ==> Agrees(names, dirs, table, nc[i])
  }

  /** Ids that are handed out are new. */
  ghost predicate IdsOk(table: seq<InCore>, nc: seq<Cached>, nextid: nat) {
    && nextid < IDS
    && (forall i :: 0 <= i < |nc| && nc[i].hashed ==> nc[i].ip < |table| && nc[i].id <= nextid)
    && (forall j :: 0 <= j < |table| ==> table[j].id <= nextid)
  }

  ghost predicate UniqueKeys(nc: seq<Cached>) {
    forall i, j :: 0 <= i < j < |nc| && nc[i].hashed && nc[j].hashed ==> nc[i].key != nc[j].key
  }

  /** At most one in-core inode per inode number; 0 stands for none. */
  ghost predicate UniqueInodes(table: seq<InCore>) {
    forall i, j :: 0 <= i < j < |table| && table[i].ino != 0 ==> table[i].ino != table[j].ino
  }

  ghost predicate IsPermutation(lru: seq<nat>, n: nat) {
    && |lru| == n && (forall i :: 0 <= i < n ==> lru[i] < n)
    && Distinct(lru) && (forall i :: 0 <= i < n ==> i in lru)
  }

  // cacheinval.

  function Bumped(table: seq<InCore>, nextid: nat, ip: nat): (t: seq<InCore>)
    requires ip < |table|
    ensures |t| == |table|
  {
    table[ip := table[ip].(id := (nextid + 1) % IDS)]
  }

  /** cacheinvalall, when the counter wraps. */
  function Forgotten(nc: seq<Cached>, nextid: nat): (r: seq<Cached>)
    ensures |r| == |nc|
  {
    if (nextid + 1) % IDS == 0 then seq(|nc|, i requires 0 <= i < |nc| => nc[i].(id := 0)) else nc
  }

  /** Giving an inode a new id makes every entry for it stale, exactly as long as the counter does not wrap: then
      the ids of all entries become 0, and so does the inode's. */
  lemma StaleUnlessWrapped(table: seq<InCore>, nc: seq<Cached>, nextid: nat, ip: nat, i: nat)
    requires IdsOk(table, nc, nextid) && ip < |table| && i < |nc| && nc[i].hashed && nc[i].ip == ip
    ensures Current(Bumped(table, nextid, ip), Forgotten(nc, nextid)[i]) <==> nextid + 1 == IDS
  {
    if nextid + 1 < IDS {
      assert (nextid + 1) % IDS == nextid + 1;
    }
  }

  /** Without a wrap, other entries stay as they are. */
  lemma InvalOthers(table: seq<InCore>, nc: seq<Cached>, nextid: nat, ip: nat, i: nat)
    requires IdsOk(table, nc, nextid) && nextid + 1 < IDS && ip < |table| && i < |nc|
    ensures Current(Bumped(table, nextid, ip), nc[i]) <==> Current(table, nc[i]) && nc[i].ip != ip
  {
    assert (nextid + 1) % IDS == nextid + 1;
  }

  // The LRU list.

  lemma MovedToEnd(lru: seq<nat>, n: nat, i: nat)
    requires IsPermutation(lru, n) && i < n
    ensures IsPermutation(HashChains.Unlink(lru, i) + [i], n) && IsPermutation([i] + HashChains.Unlink(lru, i), n)
  {
    UnlinkDistinct(lru, i);
    UnlinkLength(lru, i);
    var r := HashChains.Unlink(lru, i);
    assert forall k :: 0 <= k < |r| ==> r[k] in r;
  }

  lemma InvalIds(table: seq<InCore>, nc: seq<Cached>, nextid: nat, ip: nat)
    requires IdsOk(table, nc, nextid) && nextid + 1 < IDS && ip < |table|
    ensures IdsOk(Bumped(table, nextid, ip), nc, nextid + 1)
    ensures Forgotten(nc, nextid) == nc && (nextid + 1) % IDS == nextid + 1
    ensures forall i :: 0 <= i < |nc| ==>
      (Current(Bumped(table, nextid, ip), nc[i]) <==> Current(table, nc[i]) && nc[i].ip != ip)
  {
    assert (nextid + 1) % IDS == nextid + 1;
    forall i | 0 <= i < |nc|
      ensures Current(Bumped(table, nextid, ip), nc[i]) <==> Current(table, nc[i]) && nc[i].ip != ip
    {
      InvalOthers(table, nc, nextid, ip, i);
    }
  }

  /** An inode that is loaded anew takes over a slot of the table, with a new id. */
  lemma LoadAgreement(names: Names, dirs: set<nat>, table: seq<InCore>, nc: seq<Cached>, nextid: nat, ip: nat, ino: nat)
    requires IdsOk(table, nc, nextid) && nextid + 1 < IDS && ip < |table| && Agreement(names, dirs, table, nc)
    ensures var t := Bumped(table[ip := table[ip].(ino := ino)], nextid, ip);
            Agreement(names, dirs, t, nc) && IdsOk(t, nc, nextid + 1)
  {
    var t := Bumped(table[ip := table[ip].(ino := ino)], nextid, ip);
    forall i | 0 <= i < |nc|
      ensures Agrees(names, dirs, t, nc[i])
    {
      InvalOthers(table, nc, nextid, ip, i);
      assert Agrees(names, dirs, table, nc[i]);
      assert Current(t, nc[i]) <==> Current(Bumped(table, nextid, ip), nc[i]);
    }
  }

  class NameCache {
    var table: seq<InCore>      // the in-core inodes
    var nextid: nat             // nextinodeid
    var nc: seq<Cached>         // namecache[]
    var lru: seq<nat>           // the LRU chain from nchhead on
    var names: Names            // what the directories say
    var dirs: set<nat>          // the directories there are

    ghost predicate Structure()
      reads this
    {
      && |nc| > 0 && IsPermutation(lru, |nc|)
      && IdsOk(table, nc, nextid) && UniqueKeys(nc) && UniqueInodes(table)
      && (forall i :: 0 <= i < |nc| && nc[i].hashed ==> |nc[i].key.name| <= NCHNAMLEN)
    }

    ghost predicate Valid()
      reads this
    {
      Structure() && Agreement(names, dirs, table, nc)
    }

    /** nchinit: no name is hashed. */
    constructor (nchsize: nat, ninode: nat, names: Names, dirs: set<nat>)
      requires nchsize > 0
      ensures Valid() && this.names == names && this.dirs == dirs && |table| == ninode && nextid == 0
    {
      table := seq(ninode, _ => InCore(0, 0));
      nextid := 0;
      nc := seq(nchsize, _ => Cached(Key(0, []), 0, 0, false));
      lru := seq(nchsize, i => i);
      this.names, this.dirs := names, dirs;
      new;
      forall i | 0 <= i < nchsize
        ensures i in lru
      {
        assert lru[i] == i;
      }
    }

    /** cacheinval: the entries for the inode are stale from now on. */
    method CacheInval(ip: nat)
      requires Structure() && ip < |table| && nextid + 1 < IDS
      modifies this`table, this`nextid, this`nc
      ensures Structure() && nextid == old(nextid) + 1 && nc == old(nc)
      ensures table == Bumped(old(table), old(nextid), ip)
      ensures forall i :: 0 <= i < |nc| ==> (Current(table, nc[i]) <==> Current(old(table), nc[i]) && nc[i].ip != ip)
    {
      hide Agreement, IdsOk;
      InvalIds(table, nc, nextid, ip);
      table := table[ip := table[ip].(id := (nextid + 1) % IDS)];
      nc := Forgotten(nc, nextid);
      nextid := (nextid + 1) % IDS;
    }

    /** iget: the in-core inode of that number, or else the given free one, which is loaded and gets a new id: no
        entry for the inode that was there before is current. */
    method Iget(ino: nat, free: nat) returns (ip: nat)
      requires Valid() && ino != 0 && free < |table| && nextid + 1 < IDS
      modifies this`table, this`nextid, this`nc
      ensures Valid() && nc == old(nc) && |table| == |old(table)| && nextid <= old(nextid) + 1
      ensures ip < |table| && table[ip].ino == ino
      ensures forall j :: 0 <= j < |table| && j != free ==> table[j] == old(table)[j]
      ensures old(exists j :: 0 <= j < |table| && table[j].ino == ino) ==> table == old(table) && nextid == old(nextid)
      ensures !old(exists j :: 0 <= j < |table| && table[j].ino == ino) ==>
        && ip == free && nextid == old(nextid) + 1 == table[ip].id
        && forall i :: 0 <= i < |nc| ==> (Current(table, nc[i]) <==> Current(old(table), nc[i]) && nc[i].ip != ip)
    {
      hide Agreement, IdsOk;
      ip := 0;
      while ip < |table|
        invariant ip <= |table| && forall j :: 0 <= j < ip ==> table[j].ino != ino
      {
        if table[ip].ino == ino {
          return;
        }
        ip := ip + 1;
      }
      ip := free;
      LoadAgreement(names, dirs, table, nc, nextid, ip, ino);
      InvalIds(table, nc, nextid, ip);
      assert forall i :: 0 <= i < |nc| ==>
        (Current(Bumped(table[ip := table[ip].(ino := ino)], nextid, ip), nc[i]) <==>
          Current(Bumped(table, nextid, ip), nc[i]));
      table := table[ip := table[ip].(ino := ino)];
      table := table[ip := table[ip].(id := (nextid + 1) % IDS)];
      nc := Forgotten(nc, nextid);
      nextid := (nextid + 1) % IDS;
    }

    /** The hashed entry of a name; -1 when there is none. */
    method Search(k: Key) returns (i: int)
      requires Valid()
      ensures i >= 0 ==> i < |nc| && nc[i].hashed && nc[i].key == k
      ensures i < 0 ==> i == -1 && forall j :: 0 <= j < |nc| ==> !(nc[j].hashed && nc[j].key == k)
    {
      i := 0;
      while i < |nc|
        invariant 0 <= i <= |nc| && forall j :: 0 <= j < i ==> !(nc[j].hashed && nc[j].key == k)
      {
        if nc[i].hashed && nc[i].key == k {
          return;
        }
        i := i + 1;
      }
      i := -1;
    }

    /** An entry is taken off its hash chain, and becomes the first to be used again. */
    method Drop(i: nat)
      requires Valid() && i < |nc|
      modifies this`nc, this`lru
      ensures Valid() && nc == old(nc)[i := old(nc)[i].(hashed := false)] && lru[0] == i
    {
      hide Agreement, IsPermutation, Current;
      DropAgreement(names, dirs, table, nc, i);
      MovedToEnd(lru, |nc|, i);
      lru := [i] + HashChains.Unlink(lru, i);
      nc := nc[i := nc[i].(hashed := false)];
    }

    /** A name is entered, in the place of the least recently used one. */
    method Insert(k: Key, ip: nat)
      requires Valid() && |k.name| <= NCHNAMLEN && ip < |table|
      requires k.dir in dirs && k in names && names[k] == table[ip].ino
      // otherwise panic: "namei: duplicating cache"
      requires forall j :: 0 <= j < |nc| ==> !(nc[j].hashed && nc[j].key == k)
      modifies this`nc, this`lru
      ensures Valid()
      ensures nc == old(nc)[old(lru)[0] := Cached(k, ip, table[ip].id, true)]
    {
      hide Agreement;
      var i := lru[0];
      MovedToEnd(lru, |nc|, i);
      InsertAgreement(names, dirs, table, nc, i, Cached(k, ip, table[ip].id, true));
      hide IsPermutation, Current;
      lru := HashChains.Unlink(lru, i) + [i];
      nc := nc[i := Cached(k, ip, table[ip].id, true)];
    }

    /** namei, for one component of a path: the cache is searched first. With makeentry the name may be found there
        and is left there; otherwise its entry is dropped. What is found is what the directory says. */
    method Lookup(k: Key, wanted: bool, free: nat) returns (ip: int)
      requires Valid() && k.dir in dirs && free < |table| && nextid + 1 < IDS && (k in names ==> names[k] != 0)
      modifies this`table, this`nextid, this`nc, this`lru
      ensures Valid()
      ensures ip < 0 <==> k !in names
      ensures ip >= 0 ==> ip < |table| && table[ip].ino == names[k]
      ensures !wanted ==> forall j :: 0 <= j < |nc| ==> !(nc[j].hashed && nc[j].key == k)
      ensures !wanted ==> |nc| == |old(nc)| && forall j :: 0 <= j < |nc| && nc[j].hashed ==> nc[j] == old(nc)[j]
      ensures |table| == |old(table)| && nextid <= old(nextid) + 1
      ensures forall j :: 0 <= j < |table| && j != free ==> table[j] == old(table)[j]
    {
      hide Agreement, IdsOk, IsPermutation;
      var makeentry := wanted;
      if |k.name| > NCHNAMLEN {
        makeentry := false;
      } else {
        var i := Search(k);
        if i >= 0 {
          if Current(table, nc[i]) && makeentry {
            Hit(names, dirs, table, nc, i);
            MovedToEnd(lru, |nc|, i);
            lru := HashChains.Unlink(lru, i) + [i];
            ip := nc[i].ip;
            return;
          }
          Drop(i);
        }
      }
      if k !in names {
        return -1;
      }
      ip := Iget(names[k], free);
      if makeentry {
        Insert(k, ip);
      }
    }

    // What the system calls do: namei first, then the directories change, then ids.

    /** link and maknode: the name is looked up to be created. */
    method Create(k: Key, ino: nat, free: nat) returns (taken: bool)
      requires Valid() && k.dir in dirs && free < |table| && nextid + 1 < IDS && (k in names ==> names[k] != 0)
      modifies this
      ensures Valid() && dirs == old(dirs)
      ensures taken <==> k in old(names)
      ensures names == if taken then old(names) else old(names)[k := ino]
    {
      hide Agreement, IdsOk, IsPermutation, UniqueKeys, UniqueInodes;
      var ip := Lookup(k, true, free);
      if ip >= 0 {
        return true;
      }
      CreatedAgreement(names, dirs, table, nc, k, ino);
      names := names[k := ino];
      return false;
    }

    /** unlink: the name is looked up to be deleted. */
    method Unlink(k: Key, free: nat) returns (found: bool)
      requires Valid() && k.dir in dirs && free < |table| && nextid + 1 < IDS && (k in names ==> names[k] != 0)
      modifies this
      ensures Valid() && dirs == old(dirs)
      ensures found <==> k in old(names)
      ensures names == if found then old(names) - {k} else old(names)
    {
      hide Agreement, IdsOk, IsPermutation, UniqueKeys, UniqueInodes;
      var ip := Lookup(k, false, free);
      if ip < 0 {
        return false;
      }
      UnlinkedAgreement(names, dirs, table, nc, k);
      names := names - {k};
      return true;
    }

    /** mkdir. A new directory may get the number of one that is gone. */
    method Mkdir(k: Key, i: nat, free: nat) returns (taken: bool)
      requires Valid() && k.dir in dirs && free < |table| && nextid + 1 < IDS && (k in names ==> names[k] != 0)
      requires Dots(names, dirs) && i !in dirs
      modifies this
      ensures Valid()
      ensures taken <==> k in old(names)
      ensures names == if taken then old(names) else Made(old(names), k, i)
      ensures dirs == if taken then old(dirs) else old(dirs) + {i}
    {
      hide Agreement, IdsOk, IsPermutation, UniqueKeys, UniqueInodes, Made, Dots;
      var ip := Lookup(k, true, free);
      if ip >= 0 {
        return true;
      }
      MadeAgreement(names, dirs, table, nc, k, i);
      names := Made(names, k, i);
      dirs := dirs + {i};
      return false;
    }

    /** rmdir: the ids of the parent and of the directory itself change. dp is the parent, which is in core. */
    method Rmdir(k: Key, dp: nat, free: nat)
      requires Valid() && free < |table| && dp < |table| && dp != free && nextid + 3 < IDS
      requires Tree(names, dirs) && k in names && Named(names, k, names[k]) && k.dir in dirs
      requires names[k] in dirs && Empty(names, names[k], k.dir)
      requires table[dp].ino == k.dir != 0 && names[k] != 0
      modifies this
      ensures Valid()
      ensures names == Removed(old(names), k, old(names)[k]) && dirs == old(dirs) - {old(names)[k]}
    {
      hide Agreement, IdsOk, IsPermutation, UniqueKeys, UniqueInodes, Removed, Tree, Empty, Current;
      ghost var i := names[k];
      var ip := Lookup(k, false, free);
      ghost var names0, dirs0, table0 := names, dirs, table;
      dirs := dirs - {names[k]};
      names := Removed(names, k, names[k]);
      CacheInval(dp);
      CacheInval(ip);
      RemovedAgreement(names0, dirs0, table0, table, nc, k, i, dp, ip);
    }

    /** rename: both names are looked up so that they are not left in the cache; the inodes that are not in core are
        loaded into two free slots, the second not being that of the source, on which there is a reference. The id
        of the target's parent changes when a directory is replaced, and that of the old parent when a directory
        moves to a new one. Whether the rename is allowed is a parameter, and so is a failure to make the entry;
        then no name changes. */
    method Rename(from: Key, to: Key, fdp: nat, tdp: nat, free: nat, free2: nat, allowed: bool,
        nospace: bool) returns (moved: bool)
      requires Valid() && free < |table| && free2 < |table| && free != free2 && nextid + 5 < IDS
      requires fdp < |table| && tdp < |table| && fdp != free && tdp != free && fdp != free2 && tdp != free2
      requires Tree(names, dirs) && from.dir in dirs && to.dir in dirs
      requires from in names ==> (allowed <==> CanMove(names, dirs, from, to) && CanReplace(names, dirs, from, to))
      requires table[fdp].ino == from.dir != 0 && table[tdp].ino == to.dir != 0
      requires (from in names ==> names[from] != 0 && names[from] != table[free2].ino)
      requires (to in names ==> names[to] != 0)
      modifies this
      ensures Valid()
      ensures moved <==> from in old(names) && allowed && (to in old(names) || !nospace)
      ensures moved ==> names == Renamed(old(names), old(dirs), from, to)
      ensures moved ==> dirs == ClearedDirs(old(names), old(dirs), to)
      ensures !moved ==> names == old(names) && dirs == old(dirs)
      ensures from in old(names) ==> exists j :: 0 <= j < |table| && table[j].ino == old(names)[from]
    {
      hide Agreement, IdsOk, IsPermutation, UniqueKeys, UniqueInodes, Removed, Tree, Empty, Current, Renamed, CanMove,
        CanReplace, OnPath;
      var ip := Lookup(from, false, free);
      if ip < 0 {
        return false;
      }
      assert ip != free2;
      var xp := Lookup(to, false, free2);
      assert table[ip].ino == names[from];
      if !allowed || (xp < 0 && nospace) {
        return false;
      }
      ghost var names0, dirs0, table0 := names, dirs, table;
      var doing, overDirectory := names[from] in dirs, to in names && names[to] in dirs;
      names, dirs := Renamed(names, dirs, from, to), ClearedDirs(names, dirs, to);
      if overDirectory {
        CacheInval(tdp);
      }
      if doing && from.dir != to.dir {
        CacheInval(fdp);
      }
      RenamedAgreement(names0, dirs0, table0, table, nc, from, to, fdp, tdp);
      return true;
    }
  }

  /** What rename leaves of every other name. */
  lemma RenamedElsewhere(names: Names, dirs: set<nat>, from: Key, to: Key, k: Key)
    requires Tree(names, dirs) && from in names && from.dir in dirs && to.dir in dirs && k != from && k != to
    requires k in names
    requires CanMove(names, dirs, from, to) && CanReplace(names, dirs, from, to)
    ensures k.dir in ClearedDirs(names, dirs, to) && !(names[from] in dirs && k == Key(names[from], DotDot())) ==>
              k in Renamed(names, dirs, from, to) && Renamed(names, dirs, from, to)[k] == names[k]
    ensures k.dir in dirs && k.dir !in ClearedDirs(names, dirs, to) ==>
              to in names && names[to] in dirs && k.dir == names[to]
              && ((k.name == Dot() && names[k] == k.dir) || (k.name == DotDot() && names[k] == to.dir))
    ensures names[from] in dirs && k == Key(names[from], DotDot()) ==>
              names[k] == from.dir && k in Renamed(names, dirs, from, to) && Renamed(names, dirs, from, to)[k] == to.dir
  {
    hide Rooted, OnPath;
    if names[from] in dirs {
      assert Named(names, from, names[from]);
      var own :| NameOf(names, names[from], own);
    }
    if to in names && names[to] in dirs {
      NotDots(names, dirs, to, names[to]);
      RootUnnamed(names, dirs, to, names[to]);
      EmptyChildless(names, dirs, names[to], to.dir);
      assert k.dir == names[to] ==> k in Within(names, names[to]);
    }
  }

  lemma RenamedAgreement(names: Names, dirs: set<nat>, table: seq<InCore>, table': seq<InCore>,
      nc: seq<Cached>, from: Key, to: Key, fdp: nat, tdp: nat)
    requires Agreement(names, dirs, table, nc) && UniqueInodes(table) && |table'| == |table|
    requires Tree(names, dirs) && from in names && from.dir in dirs && to.dir in dirs
    requires CanMove(names, dirs, from, to) && CanReplace(names, dirs, from, to)
    requires fdp < |table| && tdp < |table| && table[fdp].ino == from.dir != 0 && table[tdp].ino == to.dir != 0
    requires forall j :: 0 <= j < |nc| ==> !(nc[j].hashed && (nc[j].key == from || nc[j].key == to))
    requires forall j :: 0 <= j < |nc| ==> (Current(table', nc[j]) ==> Current(table, nc[j]))
    requires to in names && names[to] in dirs ==> forall j :: 0 <= j < |nc| ==>
      (Current(table', nc[j]) ==> nc[j].ip != tdp)
    requires names[from] in dirs && from.dir != to.dir ==> forall j :: 0 <= j < |nc| ==>
      (Current(table', nc[j]) ==> nc[j].ip != fdp)
    requires forall s :: 0 <= s < |table| ==> table'[s].ino == table[s].ino
    ensures Agreement(Renamed(names, dirs, from, to), ClearedDirs(names, dirs, to), table', nc)
  {
    hide Tree, CanMove, CanReplace, Renamed;
    forall j | 0 <= j < |nc|
      ensures Agrees(Renamed(names, dirs, from, to), ClearedDirs(names, dirs, to), table', nc[j])
    {
      assert Agrees(names, dirs, table, nc[j]);
      var c := nc[j];
      if Current(table', c) && c.key.dir in dirs {
        RenamedElsewhere(names, dirs, from, to, c.key);
        if table[c.ip].ino == from.dir {
          SameSlot(table, c.ip, fdp);
        }
        if table[c.ip].ino == to.dir {
          SameSlot(table, c.ip, tdp);
        }
      }
    }
  }

  lemma CreatedAgreement(names: Names, dirs: set<nat>, table: seq<InCore>, nc: seq<Cached>, k: Key, ino: nat)
    requires Agreement(names, dirs, table, nc) && k !in names && k.dir in dirs
    ensures Agreement(names[k := ino], dirs, table, nc)
  {
    forall i | 0 <= i < |nc|
      ensures Agrees(names[k := ino], dirs, table, nc[i])
    {
      assert Agrees(names, dirs, table, nc[i]);
    }
  }

  lemma UnlinkedAgreement(names: Names, dirs: set<nat>, table: seq<InCore>, nc: seq<Cached>, k: Key)
    requires Agreement(names, dirs, table, nc)
    requires forall j :: 0 <= j < |nc| ==> !(nc[j].hashed && nc[j].key == k)
    ensures Agreement(names - {k}, dirs, table, nc)
  {
    forall i | 0 <= i < |nc|
      ensures Agrees(names - {k}, dirs, table, nc[i])
    {
      assert Agrees(names, dirs, table, nc[i]);
    }
  }

  lemma MadeAgreement(names: Names, dirs: set<nat>, table: seq<InCore>, nc: seq<Cached>, k: Key, i: nat)
    requires Agreement(names, dirs, table, nc) && k !in names && k.dir in dirs && Dots(names, dirs) && i !in dirs
    ensures Agreement(Made(names, k, i), dirs + {i}, table, nc)
  {
    forall j | 0 <= j < |nc|
      ensures Agrees(Made(names, k, i), dirs + {i}, table, nc[j])
    {
      assert Agrees(names, dirs, table, nc[j]);
    }
  }

  /** Two slots of the inode table do not hold the same inode. */
  lemma SameSlot(table: seq<InCore>, i: nat, j: nat)
    requires UniqueInodes(table) && i < |table| && j < |table| && table[i].ino == table[j].ino != 0
    ensures i == j
  {
  }

  lemma RemovedAgreement(names: Names, dirs: set<nat>, table: seq<InCore>, table': seq<InCore>,
      nc: seq<Cached>, k: Key, i: nat, dp: nat, ip: nat)
    requires Agreement(names, dirs, table, nc) && UniqueInodes(table) && |table'| == |table|
    requires Tree(names, dirs) && Named(names, k, i) && i in dirs && Empty(names, i, k.dir)
    requires dp < |table| && ip < |table| && table[dp].ino == k.dir != 0 && table[ip].ino == i
    requires forall j :: 0 <= j < |nc| ==> !(nc[j].hashed && nc[j].key == k)
    requires forall j :: 0 <= j < |nc| ==>
      (Current(table', nc[j]) ==> Current(table, nc[j]) && nc[j].ip != dp && nc[j].ip != ip)
    requires forall s :: 0 <= s < |table| ==> table'[s].ino == table[s].ino
    ensures Agreement(Removed(names, k, i), dirs - {i}, table', nc)
  {
    hide Rooted, OneName;
    RootUnnamed(names, dirs, k, i);
    EmptyChildless(names, dirs, i, k.dir);
    forall j | 0 <= j < |nc|
      ensures Agrees(Removed(names, k, i), dirs - {i}, table', nc[j])
    {
      assert Agrees(names, dirs, table, nc[j]);
      var c := nc[j];
      if Current(table', c) && c.key.dir == i {
        assert c.key in Within(names, i);
        if c.key == Key(i, DotDot()) {
          SameSlot(table, c.ip, dp);
        }
      }
    }
  }

  lemma DropAgreement(names: Names, dirs: set<nat>, table: seq<InCore>, nc: seq<Cached>, i: nat)
    requires Agreement(names, dirs, table, nc) && i < |nc|
    ensures Agreement(names, dirs, table, nc[i := nc[i].(hashed := false)])
  {
  }

  lemma InsertAgreement(names: Names, dirs: set<nat>, table: seq<InCore>, nc: seq<Cached>, i: nat, c: Cached)
    requires Agreement(names, dirs, table, nc) && i < |nc| && c.ip < |table|
    requires c.key.dir in dirs && c.key in names && names[c.key] == table[c.ip].ino
    ensures Agreement(names, dirs, table, nc[i := c])
  {
  }

  lemma Hit(names: Names, dirs: set<nat>, table: seq<InCore>, nc: seq<Cached>, i: nat)
    requires Agreement(names, dirs, table, nc) && i < |nc| && Current(table, nc[i]) && nc[i].key.dir in dirs
    ensures nc[i].key in names && names[nc[i].key] == table[nc[i].ip].ino
  {
    assert Agrees(names, dirs, table, nc[i]);
  }
}
