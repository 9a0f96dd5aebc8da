/** The system calls on names (ufs_syscalls.c): link, unlink, maknode, mkdir, rmdir and rename, step by step on
    directory entries and link counts. */
module Syscalls {
  import opened NameTree
  import opened TreeMoves
  import opened CallSpecs
  import opened RenameSpec

  datatype Error = OK | EPERM | ENOENT | EEXIST | ENOTDIR | EISDIR | EINVAL | ENOTEMPTY | ENOSPC

  class FileTree {
    var entry: Names         // the live entries of all directories
    var nlink: Counts        // i_nlink of the allocated inodes
    var dirs: set<nat>       // those of type IFDIR
    var marked: set<nat>     // those in core with IRENAME

    ghost predicate Valid()
      reads this
    {
      Conserved(entry, nlink) && Tree(entry, dirs) && dirs <= nlink.Keys && marked <= dirs
    }

    /** A file system with nothing but its root. */
    constructor ()
      ensures Valid() && entry == RootNames() && dirs == {ROOTINO} && nlink == map[ROOTINO := 2] && marked == {}
    {
      entry, nlink, dirs, marked := RootNames(), map[ROOTINO := 2], {ROOTINO}, {};
      new;
      RootValid();
    }

    /** iput of an inode: when its last link is gone, irele truncates and frees it. */
    method Release(ip: nat)
      requires ip in nlink
      modifies this
      ensures nlink == if old(nlink)[ip] == 0 then old(nlink) - {ip} else old(nlink)
      ensures dirs == if old(nlink)[ip] == 0 then old(dirs) - {ip} else old(dirs)
      ensures entry == if old(nlink)[ip] == 0 then old(entry) - Within(old(entry), ip) else old(entry)
      ensures marked == if old(nlink)[ip] == 0 then old(marked) - {ip} else old(marked)
    {
      if nlink[ip] == 0 {
        marked := marked - {ip};
        entry := entry - Within(entry, ip);
        dirs := dirs - {ip};
        nlink := nlink - {ip};
      }
    }

    /** link. Only the superuser may link a directory, and does so at the tree's expense. */
    method Link(ip: nat, k: Key, superuser: bool, nospace: bool) returns (e: Error)
      requires Valid() && ip in nlink && k.dir in dirs
      modifies this
      ensures e == EPERM <==> ip in dirs && !superuser
      ensures e != EPERM ==> (e == EEXIST <==> k in old(entry)) && (e == ENOSPC <==> k !in old(entry) && nospace)
      ensures e == OK || e == EPERM || e == EEXIST || e == ENOSPC
      ensures dirs == old(dirs) && marked == old(marked) && Conserved(entry, nlink)
      ensures e == OK ==> entry == old(entry)[k := ip] && nlink == Bump(old(nlink), ip, 1)
      ensures e != OK ==> entry == old(entry) && nlink == old(nlink)
      ensures Valid() <==> !(e == OK && ip in dirs)
    {
      hide Conserved, Tree;
      if ip in dirs && !superuser {
        return EPERM;
      }
      nlink := Bump(nlink, ip, 1);
      if k in entry {
        e := EEXIST;
      } else if nospace {
        e := ENOSPC;
      } else {
        ConservedPut(entry, old(nlink), k, ip);
        NewName(entry, dirs, k, ip);
        entry := entry[k := ip];
        e := OK;
      }
      if e != OK {
        nlink := Bump(nlink, ip, -1);
        assert nlink == old(nlink);
      }
    }

    /** unlink. Only the superuser may unlink a directory, and does so at the tree's expense. */
    method Unlink(k: Key, superuser: bool) returns (e: Error)
      requires Valid() && k.dir in dirs
      modifies this
      ensures e == ENOENT <==> k !in old(entry)
      ensures e != ENOENT ==> (e == EPERM <==> old(entry)[k] in old(dirs) && !superuser)
      ensures e == OK || e == ENOENT || e == EPERM
      ensures dirs == old(dirs) && marked == old(marked) && Conserved(entry, nlink)
      ensures e == OK ==> entry == old(entry) - {k}
      ensures e == OK ==>
        nlink == if old(nlink[entry[k]]) == 1 then old(nlink - {entry[k]}) else old(Bump(nlink, entry[k], -1))
      ensures e != OK ==> entry == old(entry) && nlink == old(nlink)
      ensures Valid() <==> !(e == OK && old(entry)[k] in dirs)
    {
      hide Conserved, Tree;
      if k !in entry {
        return ENOENT;
      }
      var ip := entry[k];
      if ip in dirs && !superuser {
        return EPERM;
      }
      EntryAllocated(entry, nlink, k);
      ConservedDrop(entry, nlink, k);
      NameDropped(entry, nlink, dirs, k);
      if ip !in dirs {
        NothingWithin(entry, dirs, ip, k);
      }
      entry := entry - {k};
      nlink := Bump(nlink, ip, -1);
      if nlink[ip] == 0 {
        ConservedFree(entry, nlink, ip);
      }
      ghost var bumped, names := nlink, entry;
      Release(ip);
      assert bumped - {ip} == old(nlink) - {ip} && names - {} == names;
      e := OK;
    }

    /** maknode, for creat, mknod and symlink. */
    method Maknode(k: Key, ino: nat, noInode: bool, nospace: bool) returns (e: Error)
      requires Valid() && k.dir in dirs && k !in entry && ino !in nlink
      modifies this
      ensures Valid() && dirs == old(dirs) && marked == old(marked)
      ensures e == if noInode || nospace then ENOSPC else OK
      ensures e == OK ==> entry == old(entry)[k := ino] && nlink == old(nlink)[ino := 1]
      ensures e != OK ==> entry == old(entry) && nlink == old(nlink)
    {
      hide Conserved, Tree, Within;
      if noInode {
        return ENOSPC;
      }
      nlink := nlink[ino := 1];
      if nospace {
        NothingThere(entry, dirs, ino);
        nlink := nlink[ino := 0];
        Release(ino);
        assert nlink == old(nlink) && entry == old(entry) && dirs == old(dirs);
        return ENOSPC;
      }
      ConservedNew(entry, old(nlink), ino);
      ConservedPut(entry, old(nlink)[ino := 0], k, ino);
      NewName(entry, dirs, k, ino);
      assert Bump(old(nlink)[ino := 0], ino, 1) == nlink;
      entry := entry[k := ino];
      return OK;
    }

    /** mkdir. When the entry cannot be made, the call that is to find the parent again looks for the new name,
        which does not exist: the parent keeps one link too many. */
    method Mkdir(k: Key, ino: nat, noInode: bool, noBlock: bool, noEntry: bool) returns (e: Error)
      requires Valid() && k.dir in dirs && ino !in nlink
      modifies this
      ensures e == if k in old(entry) then EEXIST else if noInode || noBlock || noEntry then ENOSPC else OK
      ensures e == OK ==> entry == Made(old(entry), k, ino) && dirs == old(dirs) + {ino}
      ensures e == OK ==> MakesDirectory(old(entry), entry, k, ino)
      ensures e == OK ==> nlink == Bump(old(nlink), k.dir, 1)[ino := 2]
      ensures e != OK ==> entry == old(entry) && dirs == old(dirs)
      ensures marked == old(marked)
      ensures e != OK ==>
        nlink == if k !in old(entry) && !noInode && !noBlock then Bump(old(nlink), k.dir, 1) else old(nlink)
      ensures Valid() <==> !(k !in old(entry) && !noInode && !noBlock && noEntry)
    {
      hide Conserved, Tree, Within, Made, Dots, Bump;
      if k in entry {
        return EEXIST;
      }
      if noInode {
        return ENOSPC;
      }
      MadeParts(entry, k, ino);
      NothingThere(entry, dirs, ino);
      MkdirCounts(nlink, ino, k.dir);
      nlink := nlink[ino := 2];
      dirs := dirs + {ino};
      nlink := Bump(nlink, k.dir, 1);
      e := OK;
      if noBlock {
        nlink := Bump(nlink, k.dir, -1);
        e := ENOSPC;
      } else {
        OwnEntries(entry, ino, k.dir);
        entry := entry[Key(ino, Dot()) := ino][Key(ino, DotDot()) := k.dir];
        if noEntry {
          e := ENOSPC;
        } else {
          entry := entry[k := ino];
        }
      }
      if e != OK {
        nlink := nlink[ino := 0];
      }
      Release(ino);
      if noBlock {
        assert nlink == old(nlink) && entry == old(entry) && dirs == old(dirs);
      } else if noEntry {
        assert nlink == Bump(old(nlink), k.dir, 1) && entry == old(entry) && dirs == old(dirs);
        Leaked(entry, old(nlink), k.dir);
      } else {
        assert nlink == Bump(old(nlink), k.dir, 1)[ino := 2];
        MadeIs(old(entry), k, ino);
        MadeValid(old(entry), old(nlink), old(dirs), k, ino);
      }
    }

    static lemma MkdirCounts(n: Counts, ino: nat, parent: nat)
      requires ino !in n && parent in n
      ensures var c := Bump(n[ino := 2], parent, 1);
        && parent in c && ino in c && c[ino] == 2 && c == Bump(n, parent, 1)[ino := 2]
        && Bump(c, parent, -1)[ino := 0] - {ino} == n && c[ino := 0] - {ino} == Bump(n, parent, 1)
    {
    }

    /** rmdir: of an empty directory that is not the root, "." or "..". */
    method Rmdir(k: Key) returns (e: Error)
      requires Valid() && k.dir in dirs
      modifies this
      ensures Valid()
      ensures e == OK <==> CanRmdir(old(entry), old(nlink), old(dirs), k)
      ensures e == ENOENT <==> k !in old(entry)
      ensures e == EINVAL <==> k in old(entry) && old(entry)[k] == k.dir
      ensures e == ENOTDIR <==> k in old(entry) && old(entry)[k] != k.dir && old(entry)[k] !in old(dirs)
      ensures e == ENOTEMPTY <==> k in old(entry) && old(entry)[k] != k.dir && old(entry)[k] in old(dirs)
                                  && !Empty(old(entry), old(entry)[k], k.dir)
      ensures e == OK ==> entry == Removed(old(entry), k, old(entry)[k]) && dirs == old(dirs) - {old(entry)[k]}
      ensures e == OK ==> RemovesDirectory(old(entry), entry, k)
      ensures e == OK ==> nlink == Bump(old(nlink), k.dir, -1) - {old(entry)[k]}
      ensures e != OK ==> entry == old(entry) && nlink == old(nlink) && dirs == old(dirs)
      ensures marked == old(marked) * dirs
    {
      hide Conserved, Tree, Removed, Within, Empty;
      if k !in entry {
        return ENOENT;
      }
      var ip := entry[k];
      if k.dir == ip {
        return EINVAL;
      }
      if ip !in dirs {
        return ENOTDIR;
      }
      EntryAllocated(entry, nlink, k);
      EmptyTarget(entry, nlink, dirs, k);
      if nlink[ip] != 2 || !Empty(entry, ip, k.dir) {
        return ENOTEMPTY;
      }
      RemovedValid(entry, nlink, dirs, k, ip);
      RemovedIs(entry, k, ip);
      entry := entry - {k};
      nlink := Bump(nlink, k.dir, -1);
      nlink := Bump(nlink, ip, -2);
      entry := entry - Within(entry, ip);
      ghost var names := entry;
      Release(ip);
      assert nlink == Bump(old(nlink), k.dir, -1) - {ip};
      e := OK;
    }

    /** checkpath: whether a directory can be moved below target. The way up ends at the root. */
    method Checkpath(source: nat, target: nat) returns (e: Error)
      requires Tree(entry, dirs) && target in dirs
      ensures e == OK <==> !OnPath(entry, source, target)
      ensures e == EEXIST <==> source == target
      ensures e == EINVAL <==> source != target && OnPath(entry, source, target)
    {
      hide Tree, OneName, Rooted, Dots;
      RootIsTop(entry, dirs, target);
      var ip := target;
      ghost var n, j := WayUp(entry, dirs, target), 0;
      assert Up(entry, target, 0) == target;
      if ip == source {
        return EEXIST;
      }
      if ip == ROOTINO {
        AllTheWay(entry, source, target, 0);
        return OK;
      }
      while true
        invariant j < n && Up(entry, target, j) == ip != ROOTINO && ip in dirs
        invariant forall m :: 0 <= m <= j ==> Up(entry, target, m) != source
        decreases n - j
      {
        DotsOf(entry, dirs, ip);
        UpNext(entry, target, j);
        var dotdot := entry[Key(ip, DotDot())];
        if dotdot == source {
          return EINVAL;
        }
        if dotdot == ROOTINO {
          AllTheWay(entry, source, target, j + 1);
          return OK;
        }
        ip := dotdot;
        j := j + 1;
      }
    }

    /** The part of rename between the first change of a link count and the next: the target is looked up and
        checked. */
    method RenameTarget(from: Key, to: Key) returns (e: Error, proceed: bool)
      requires Tree(entry, dirs) && dirs <= nlink.Keys && from.dir in dirs && to.dir in dirs
      requires from in entry && entry[from] in nlink && Conserved(entry, Bump(nlink, entry[from], -1))
      requires entry[from] in dirs ==> !IsDots(from.name) && from.dir != entry[from]
      ensures proceed <==> CanMove(entry, dirs, from, to) && CanReplace(entry, dirs, from, to)
      ensures e == OK <==>
                (proceed || (CanMove(entry, dirs, from, to) && to in entry && entry[to] == entry[from]
                  && entry[to] != to.dir))
      ensures e == EEXIST <==> entry[from] in dirs && !NamesItsOwn(entry, to) && entry[from] == to.dir
      ensures e == EINVAL <==> entry[from] in dirs && !NamesItsOwn(entry, to) && entry[from] != to.dir
                               && OnPath(entry, entry[from], to.dir)
      ensures e == EISDIR <==>
                || NamesItsOwn(entry, to)
                || (CanMove(entry, dirs, from, to) && Displaces(entry, from, to) && entry[to] !in dirs
                    && entry[from] in dirs)
      ensures e == ENOTEMPTY <==> CanMove(entry, dirs, from, to) && Displaces(entry, from, to) && entry[to] in dirs
                                  && !Empty(entry, entry[to], to.dir)
      ensures e == ENOTDIR <==> CanMove(entry, dirs, from, to) && Displaces(entry, from, to) && entry[to] in dirs
                                && Empty(entry, entry[to], to.dir) && entry[from] !in dirs
      ensures e != ENOENT && e != ENOSPC
    {
      hide Conserved, Tree, Empty, OnPath;
      var ip := entry[from];
      if to in entry && entry[to] == to.dir {
        return EISDIR, false;
      }
      if ip in dirs {
        OwnParent(entry, dirs, from);
      }
      if ip in dirs && from.dir != to.dir {
        e := Checkpath(ip, to.dir);
        if e != OK {
          return e, false;
        }
      }
      if to in entry {
        var xp := entry[to];
        if xp == ip {
          return OK, false;
        }
        if xp in dirs {
          EmptyTarget(entry, Bump(nlink, ip, -1), dirs, to);
          if !Empty(entry, xp, to.dir) || nlink[xp] > 2 {
            return ENOTEMPTY, false;
          }
          if ip !in dirs {
            return ENOTDIR, false;
          }
        } else if ip in dirs {
          return EISDIR, false;
        }
      }
      return OK, true;
    }

    /** The target's entry is rewritten, and the target loses its last name. */
    method ReplaceTarget(to: Key, ip: nat) returns (ghost doomed: set<Key>)
      requires to in entry && entry[to] in nlink && entry[to] != ip && marked <= dirs
      requires ip in dirs ==> nlink[entry[to]] == 2
      requires ip !in dirs ==> Within(entry[to := ip], entry[to]) == {} && entry[to] !in dirs
      requires var e := entry[to := ip] - Within(entry[to := ip], entry[to]); e - Within(e, entry[to]) == e
      modifies this
      ensures doomed == Within(old(entry)[to := ip], old(entry)[to])
      ensures entry == old(entry)[to := ip] - doomed && dirs == old(dirs) - {old(entry)[to]}
      ensures var c := if ip in old(dirs) then Bump(Bump(old(nlink), old(entry)[to], -1), old(entry)[to], -1)
        else Bump(old(nlink), old(entry)[to], -1);
              nlink == if c[old(entry)[to]] == 0 then c - {old(entry)[to]} else c
      ensures marked == old(marked) * dirs
    {
      hide Within;
      var xp := entry[to];
      entry := entry[to := ip];
      doomed := Within(entry, xp);
      nlink := Bump(nlink, xp, -1);
      if ip in dirs {
        nlink := Bump(nlink, xp, -1);
        assert nlink[xp] == 0;             // else panic: "rename: lnk dir"
        entry := entry - Within(entry, xp);
      }
      Release(xp);
    }

    /** The rest of rename: the new name is linked, the old one is unlinked. */
    method RenameLinks(ghost before: Counts, from: Key, to: Key, nospace: bool) returns (e: Error)
      requires Conserved(entry, before) && Tree(entry, dirs) && dirs <= before.Keys && from.dir in dirs
      requires to.dir in dirs
      requires from in entry && entry[from] in before && nlink == Bump(before, entry[from], 1)
      requires CanMove(entry, dirs, from, to) && CanReplace(entry, dirs, from, to)
      requires to in entry ==> entry[to] in before && entry[to] != from.dir
      requires marked <= dirs
      modifies this
      ensures e == if to !in old(entry) && nospace then ENOSPC else OK
      ensures e == OK ==> Moves(old(entry), entry, old(dirs), from, to)
      ensures e == OK ==>
                && entry == Renamed(old(entry), old(dirs), from, to) && dirs == ClearedDirs(old(entry), old(dirs), to)
                && nlink == if ReplacedBeside(old(entry), old(dirs), from, to)
                            then Bump(RenamedCounts(old(entry), before, old(dirs), from, to), to.dir, 1)
                            else RenamedCounts(old(entry), before, old(dirs), from, to)
      ensures e != OK ==> entry == old(entry) && dirs == old(dirs)
      ensures marked == if e == OK then old(marked) * dirs - {old(entry)[from]} else old(marked)
      ensures e != OK ==>
        nlink == if NotEntered(old(entry), old(dirs), from, to, nospace) then Bump(before, to.dir, 1) else before
    {
      hide Conserved, Tree, Empty, OnPath, Within, Renamed, RenamedCounts, CanMove, IsDots, Moves;
      var ip := entry[from];
      var newparent := ip in dirs && from.dir != to.dir;
      StepwiseRenamed(entry, dirs, from, to);
      RenamedMoves(entry, dirs, from, to, Renamed(entry, dirs, from, to));
      EnteredCountsRenamed(entry, before, dirs, from, to) by {
        EmptyTargets(before, from, to);
      }
      ghost var doomed;
      e, doomed := EnterName(before, from, to, nospace);
      if e != OK {
        return;
      }
      if newparent {
        nlink := Bump(nlink, from.dir, -1);
        entry := entry[Key(ip, DotDot()) := to.dir];
      }
      entry := entry - {from};
      nlink := Bump(nlink, ip, -1);
      marked := marked - {ip};
      assert entry == Stepwise(old(entry), from, to, ip, doomed, newparent);
    }

    lemma EmptyTargets(before: Counts, from: Key, to: Key)
      requires Conserved(entry, before) && Tree(entry, dirs) && dirs <= before.Keys && to.dir in dirs
      requires from in entry && CanReplace(entry, dirs, from, to)
      ensures to in entry ==> entry[to] in before && (entry[to] in dirs ==> before[entry[to]] == 2)
      ensures to in entry && entry[to] !in dirs ==> Within(entry[to := entry[from]], entry[to]) == {}
    {
      hide Conserved, Tree, CanReplace, Within;
      if to in entry {
        EmptyTargetCount(entry, before, dirs, from, to);
      }
    }

    /** The new name is linked. */
    method EnterName(ghost before: Counts, from: Key, to: Key, nospace: bool) returns (e: Error, ghost doomed: set<Key>)
      requires Conserved(entry, before) && Tree(entry, dirs) && dirs <= before.Keys && from.dir in dirs
      requires to.dir in dirs && marked <= dirs
      requires from in entry && entry[from] in before && nlink == Bump(before, entry[from], 1)
      requires CanReplace(entry, dirs, from, to) && CanMove(entry, dirs, from, to)
      requires to in entry ==> entry[to] in before
      modifies this
      ensures e == if to !in old(entry) && nospace then ENOSPC else OK
      ensures doomed == if to in old(entry) then Within(old(entry)[to := old(entry)[from]], old(entry)[to]) else {}
      ensures e == OK ==>
        && entry == old(entry)[to := old(entry)[from]] - doomed && dirs == ClearedDirs(old(entry), old(dirs), to)
        && nlink == EnteredCounts(old(entry), before, old(dirs), from, to) && marked == old(marked) * dirs
      ensures e != OK ==> entry == old(entry) && dirs == old(dirs) && marked == old(marked)
      ensures e != OK ==>
        nlink == if NotEntered(old(entry), old(dirs), from, to, nospace) then Bump(before, to.dir, 1) else before
    {
      hide Conserved, Tree, Empty, OnPath, Within, CanMove, IsDots;
      var ip := entry[from];
      doomed := {};
      e := OK;
      assert marked * dirs == marked;
      if to !in entry {
        var newparent := ip in dirs && from.dir != to.dir;
        if newparent {
          nlink := Bump(nlink, to.dir, 1);
        }
        if nospace {
          nlink := Bump(nlink, ip, -1);
          assert nlink == if newparent then Bump(before, to.dir, 1) else before;
          return ENOSPC, {};
        }
        entry := entry[to := ip];
        assert entry - {} == entry;
      } else {
        WithinGone(entry[to := ip], entry[to]);
        EmptyTargets(before, from, to);
        doomed := ReplaceTarget(to, ip);
      }
    }

    /** rename. Two ways to lose a link count are in the code: the count of a new parent is not taken back when
        the new entry cannot be made, and the parent of a replaced directory keeps the count of its "..". A directory
        is marked while it is renamed, and the mark stays when nothing is moved, for as long as somebody else holds
        the directory (`held`): until then no other rename of it is allowed. */
    method Rename(from: Key, to: Key, nospace: bool, held: bool) returns (e: Error)
      requires Valid() && from.dir in dirs && to.dir in dirs
      requires from in entry && entry[from] in marked ==> held
      modifies this
      ensures e == OK <==>
                && from in old(entry) && CanMove(old(entry), old(dirs), from, to) && old(entry)[from] !in old(marked)
                && (to in old(entry) ==> old(entry)[to] != to.dir)
                && (to in old(entry) ==>
                      old(entry)[to] == old(entry)[from] || CanReplace(old(entry), old(dirs), from, to))
                && (to !in old(entry) ==> !nospace)
      ensures e == ENOENT <==> from !in old(entry)
      ensures e == EINVAL <==>
                from in old(entry) && old(entry)[from] in old(dirs)
                && (!Accepted(old(entry), old(dirs), old(marked), from)
                    || (!NamesItsOwn(old(entry), to) && old(entry)[from] != to.dir
                        && OnPath(old(entry), old(entry)[from], to.dir)))
      ensures e == EEXIST <==> Accepted(old(entry), old(dirs), old(marked), from) && old(entry)[from] in old(dirs)
                               && !NamesItsOwn(old(entry), to) && old(entry)[from] == to.dir
      ensures e == EISDIR <==>
                Accepted(old(entry), old(dirs), old(marked), from)
                && (NamesItsOwn(old(entry), to)
                    || (CanMove(old(entry), old(dirs), from, to) && Displaces(old(entry), from, to)
                        && old(entry)[to] !in old(dirs) && old(entry)[from] in old(dirs)))
      ensures e == ENOTEMPTY <==>
                Accepted(old(entry), old(dirs), old(marked), from) && CanMove(old(entry), old(dirs), from, to)
                && Displaces(old(entry), from, to) && old(entry)[to] in old(dirs)
                && !Empty(old(entry), old(entry)[to], to.dir)
      ensures e == ENOTDIR <==>
                Accepted(old(entry), old(dirs), old(marked), from) && CanMove(old(entry), old(dirs), from, to)
                && Displaces(old(entry), from, to) && old(entry)[to] in old(dirs)
                && Empty(old(entry), old(entry)[to], to.dir) && old(entry)[from] !in old(dirs)
      ensures e == ENOSPC <==> Accepted(old(entry), old(dirs), old(marked), from)
                               && CanMove(old(entry), old(dirs), from, to) && to !in old(entry) && nospace
      ensures e == OK && to in old(entry) && old(entry)[to] == old(entry)[from] ==>
                entry == old(entry) && dirs == old(dirs) && nlink == old(nlink)
      ensures e == OK && (to in old(entry) ==> old(entry)[to] != old(entry)[from]) ==>
                && Moves(old(entry), entry, old(dirs), from, to)
                && nlink.Keys == if to in old(entry) && (old(entry)[to] in old(dirs) || old(nlink[entry[to]]) == 1)
                                 then old(nlink).Keys - {old(entry)[to]} else old(nlink).Keys
      ensures e == OK && (to in old(entry) ==> old(entry)[to] != old(entry)[from]) ==>
                && entry == Renamed(old(entry), old(dirs), from, to) && dirs == ClearedDirs(old(entry), old(dirs), to)
                && nlink == if ReplacedBeside(old(entry), old(dirs), from, to)
                            then Bump(RenamedCounts(old(entry), old(nlink), old(dirs), from, to), to.dir, 1)
                            else RenamedCounts(old(entry), old(nlink), old(dirs), from, to)
      ensures e != OK ==> entry == old(entry) && dirs == old(dirs)
      ensures e != OK ==> nlink == if from in old(entry) && old(entry)[from] !in old(marked)
                                      && NotEntered(old(entry), old(dirs), from, to, nospace)
                                   then Bump(old(nlink), to.dir, 1) else old(nlink)
      ensures marked == old(marked) * dirs
        + if from in old(entry) && Markable(old(entry), old(dirs), from) && held
             && (e != OK || (to in old(entry) && old(entry)[to] == old(entry)[from])) then {old(entry)[from]} else {}
      ensures Valid() <==> !(from in old(entry) && old(entry)[from] !in old(marked)
                             && (NotEntered(old(entry), old(dirs), from, to, nospace)
                                 || (e == OK && ReplacedBeside(old(entry), old(dirs), from, to))))
    {
      hide Conserved, Tree, Empty, OnPath, Within, Renamed, RenamedCounts, IsDots, Displaces, NamesItsOwn, Moves;
      assert marked * dirs == marked;
      if from !in entry {
        return ENOENT;
      }
      var ip := entry[from];
      if ip in dirs && (IsDots(from.name) || from.dir == ip || ip in marked) {
        return EINVAL;
      }
      if ip in dirs {
        marked := marked + {ip};
      }
      EntryAllocated(entry, nlink, from);
      nlink := Bump(nlink, ip, 1);
      assert Bump(nlink, ip, -1) == old(nlink);
      var proceed;
      e, proceed := RenameTarget(from, to);
      if !proceed {
        nlink := Bump(nlink, ip, -1);
        Unmark(ip, held);
        return;
      }
      RenamedValid(entry, old(nlink), dirs, from, to);
      RenamedKeys(entry, old(nlink), dirs, from, to);
      e := RenameLinks(old(nlink), from, to, nospace);
      if e != OK {
        Unmark(ip, held);
      }
      if NotEntered(old(entry), dirs, from, to, nospace) {
        Leaked(entry, old(nlink), to.dir);
      }
      if ReplacedBeside(old(entry), old(dirs), from, to) {
        Leaked(entry, RenamedCounts(old(entry), old(nlink), old(dirs), from, to), to.dir);
      }
    }

    /** irele, of an inode that keeps its links: with the last reference its flags are reset. */
    method Unmark(ip: nat, held: bool)
      modifies this`marked
      ensures marked == if held then old(marked) else old(marked) - {ip}
    {
      if !held {
        marked := marked - {ip};
      }
    }
  }
}
