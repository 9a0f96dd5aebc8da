/** Short runs of the system calls on names in which the code does not do what one would expect. */
module CallRuns {
  import opened DirEntries
  import opened NameTree
  import opened TreeMoves
  import opened CallSpecs
  import opened RenameSpec
  import opened Syscalls

  /** mkdir in the root: the entry cannot be made, and the root has a link count of 3 for two entries. */
  method MkdirLosesCount(a: Bytes) returns (t: FileTree)
    requires a != Dot() && a != DotDot()
    ensures !t.Valid() && t.entry == RootNames() && t.nlink == map[ROOTINO := 3]
  {
    hide Conserved, Tree;
    t := new FileTree();
    var e := t.Mkdir(Key(ROOTINO, a), 3, false, false, true);
  }

  method MakeTwo(a: Bytes, b: Bytes) returns (t: FileTree)
    requires a != b && !IsDots(a) && !IsDots(b)
    ensures fresh(t) && t.Valid() && t.marked == {}
    ensures t.entry == Made(Made(RootNames(), Key(ROOTINO, a), 3), Key(ROOTINO, b), 4)
    ensures t.dirs == {ROOTINO, 3, 4} && t.nlink == map[ROOTINO := 4, 3 := 2, 4 := 2]
  {
    hide Conserved, Tree, Made, IsDots, MakesDirectory;
    t := new FileTree();
    TwoDirectories(a, b, a);
    var e := t.Mkdir(Key(ROOTINO, a), 3, false, false, false);
    e := t.Mkdir(Key(ROOTINO, b), 4, false, false, false);
  }

  /** With two directories a and b, a is to be moved into b and there is no room for its entry: the link count of b
      becomes 3. If a is held open it is marked as well, and a rename that would be allowed is refused. */
  method RenameFails(a: Bytes, b: Bytes, c: Bytes) returns (t: FileTree)
    requires a != b && !IsDots(a) && !IsDots(b) && !IsDots(c)
    ensures !t.Valid() && t.nlink == map[ROOTINO := 4, 3 := 2, 4 := 3] && t.marked == {3}
  {
    hide Conserved, Tree, Made, CanMove, CanReplace, NotEntered, ReplacedBeside, Renamed, RenamedCounts, ClearedDirs,
      Markable, IsDots, Moves, Displaces, NamesItsOwn, Empty, OnPath, Accepted;
    t := MakeTwo(a, b);
    TwoDirectories(a, b, c);
    var e := t.Rename(Key(ROOTINO, a), Key(4, c), true, true);
  }

  lemma TwoDirectories(a: Bytes, b: Bytes, c: Bytes)
    requires a != b && !IsDots(a) && !IsDots(b) && !IsDots(c)
    ensures Key(ROOTINO, a) !in RootNames() && Key(ROOTINO, b) !in Made(RootNames(), Key(ROOTINO, a), 3)
    ensures var entry, dirs := Made(Made(RootNames(), Key(ROOTINO, a), 3), Key(ROOTINO, b), 4), {ROOTINO, 3, 4};
      var from, to := Key(ROOTINO, a), Key(4, c);
      && from in entry && entry[from] == 3 && to !in entry && CanMove(entry, dirs, from, to)
      && NotEntered(entry, dirs, from, to, true) && Markable(entry, dirs, from)
  {
    hide OnPath;
    var entry := Made(Made(RootNames(), Key(ROOTINO, a), 3), Key(ROOTINO, b), 4);
    assert Parent(entry, ROOTINO) == ROOTINO && Parent(entry, 4) == ROOTINO;
    assert Up(entry, 4, 1) == Up(entry, ROOTINO, 0) == ROOTINO && Up(entry, 4, 0) == 4;
    AllTheWay(entry, 3, 4, 1);
  }

  /** A directory held open that could not be renamed is refused by the next rename, although that would be allowed. */
  method RefusedNext(t: FileTree, from: Key, to: Key, to2: Key)
    requires t.Valid() && from.dir in t.dirs && to.dir in t.dirs && to2.dir in t.dirs && t.marked == {}
    requires from in t.entry && t.entry[from] in t.dirs && from.dir == to.dir && to !in t.entry && to2 !in t.entry
    requires CanMove(t.entry, t.dirs, from, to) && CanMove(t.entry, t.dirs, from, to2)
    modifies t
    ensures t.Valid() && t.entry == old(t.entry) && t.marked == {t.entry[from]}
  {
    hide Conserved, Tree, OnPath;
    var e := t.Rename(from, to, true, true);
    e := t.Rename(from, to2, false, true);
    assert e == EINVAL;
  }
}
