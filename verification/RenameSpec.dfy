/** rename as a change of the names: the target is removed, and the source moves to its place. */
module RenameSpec {
  import opened DirEntries
  import opened NameTree
  import opened TreeMoves
  import opened CallSpecs

  /** The names, directories and counts without the target, if there is one. */
  function Cleared(entry: Names, dirs: set<nat>, to: Key): Names {
    if to !in entry then entry else if entry[to] in dirs then Removed(entry, to, entry[to]) else entry - {to}
  }

  function ClearedDirs(entry: Names, dirs: set<nat>, to: Key): set<nat> {
    if to in entry then dirs - {entry[to]} else dirs
  }

  function ClearedCounts(entry: Names, nlink: Counts, dirs: set<nat>, to: Key): Counts
    requires to in entry ==> entry[to] in nlink && to.dir in nlink
  {
    if to !in entry then nlink
    else if entry[to] in dirs then Bump(nlink, to.dir, -1) - {entry[to]}
    else if nlink[entry[to]] == 1 then nlink - {entry[to]}
    else Bump(nlink, entry[to], -1)
  }

  function Renamed(entry: Names, dirs: set<nat>, from: Key, to: Key): Names
    requires from in entry
  {
    var ip, cleared := entry[from], Cleared(entry, dirs, to);
    if ip in dirs then Relocated(cleared, from, to, ip) else (cleared - {from})[to := ip]
  }

  /** The right counts after the rename. */
  function RenamedCounts(entry: Names, nlink: Counts, dirs: set<nat>, from: Key, to: Key): Counts
    requires from in entry && from.dir in nlink && to.dir in nlink && (to in entry ==> entry[to] in nlink)
    requires to in entry ==> entry[to] != from.dir && entry[to] != to.dir
  {
    var cleared := ClearedCounts(entry, nlink, dirs, to);
    if entry[from] in dirs then Bump(Bump(cleared, from.dir, -1), to.dir, 1) else cleared
  }

  /** An inode is gone after the rename if the target was its last name, or a directory. */
  lemma RenamedKeys(entry: Names, nlink: Counts, dirs: set<nat>, from: Key, to: Key)
    requires from in entry && from.dir in nlink && to.dir in nlink && (to in entry ==> entry[to] in nlink)
    requires to in entry ==> entry[to] != from.dir && entry[to] != to.dir
    ensures RenamedCounts(entry, nlink, dirs, from, to).Keys
      == if to in entry && (entry[to] in dirs || nlink[entry[to]] == 1) then nlink.Keys - {entry[to]} else nlink.Keys
  {
  }

  /** The target, if it exists, may be replaced: both are directories, the target being empty, or neither is. */
  ghost predicate CanReplace(entry: Names, dirs: set<nat>, from: Key, to: Key)
    requires from in entry
  {
    to in entry ==>
      && entry[to] != entry[from] && entry[to] != to.dir
      && (entry[to] in dirs <==> entry[from] in dirs)
      && (entry[to] in dirs ==> Empty(entry, entry[to], to.dir))
  }

  /** The source may be moved: a directory by its own name, and not below itself. */
  ghost predicate CanMove(entry: Names, dirs: set<nat>, from: Key, to: Key)
    requires from in entry
  {
    entry[from] in dirs ==> !IsDots(from.name) && from.dir != entry[from] && !OnPath(entry, entry[from], to.dir)
  }

  /** A directory that rename marks, unless it is marked already. */
  predicate Markable(entry: Names, dirs: set<nat>, from: Key)
    requires from in entry
  {
    entry[from] in dirs && !IsDots(from.name) && from.dir != entry[from]
  }

  /** The source may be renamed at all: a directory by its own name, and by one rename at a time. */
  predicate Accepted(entry: Names, dirs: set<nat>, marked: set<nat>, from: Key) {
    from in entry && (entry[from] in dirs ==> Markable(entry, dirs, from) && entry[from] !in marked)
  }

  /** "." or an alias of it. */
  predicate NamesItsOwn(entry: Names, k: Key) {
    k in entry && entry[k] == k.dir
  }

  /** The new name is there, for something else. */
  predicate Displaces(entry: Names, from: Key, to: Key)
    requires from in entry
  {
    to in entry && entry[to] != to.dir && entry[to] != entry[from]
  }

  /** What a rename promises: the new name stands for the source and the old one is gone; ".." of a moved directory is
      its new parent; a replaced directory holds nothing; every other entry is as it was. */
  ghost predicate Moves(entry: Names, entry': Names, dirs: set<nat>, from: Key, to: Key)
    requires from in entry
  {
    var ip, xp := entry[from], if to in entry then entry[to] else to.dir;
    && from !in entry' && to in entry' && entry'[to] == ip
    && (ip in dirs ==> Key(ip, DotDot()) in entry' && entry'[Key(ip, DotDot())] == to.dir)
    && (xp != to.dir ==> forall j :: j in entry' ==> j.dir != xp)
    && forall j :: j != from && j != to && (ip in dirs ==> j != Key(ip, DotDot())) && (xp == to.dir || j.dir != xp) ==>
         Kept(entry, entry', j)
  }

  /** The two ways in which the code loses a link count: a new parent whose entry cannot be made, and a directory
      that replaces another one beside it. */
  ghost predicate NotEntered(entry: Names, dirs: set<nat>, from: Key, to: Key, nospace: bool)
    requires from in entry
  {
    entry[from] in dirs && from.dir != to.dir && CanMove(entry, dirs, from, to) && to !in entry && nospace
  }

  ghost predicate ReplacedBeside(entry: Names, dirs: set<nat>, from: Key, to: Key)
    requires from in entry
  {
    entry[from] in dirs && from.dir == to.dir && to in entry && entry[to] != entry[from]
  }

  lemma ClearedValid(entry: Names, nlink: Counts, dirs: set<nat>, to: Key)
    requires Conserved(entry, nlink) && Tree(entry, dirs) && dirs <= nlink.Keys && to.dir in dirs && to in entry
    requires entry[to] in dirs ==> entry[to] != to.dir && nlink[entry[to]] == 2 && Empty(entry, entry[to], to.dir)
    ensures entry[to] in nlink
    ensures Conserved(Cleared(entry, dirs, to), ClearedCounts(entry, nlink, dirs, to))
    ensures Tree(Cleared(entry, dirs, to), ClearedDirs(entry, dirs, to))
    ensures !IsDots(to.name)
  {
    hide Conserved, Tree, Removed, Empty;
    var xp := entry[to];
    EntryAllocated(entry, nlink, to);
    if xp in dirs {
      RemovedValid(entry, nlink, dirs, to, xp);
    } else {
      TreeDropFile(entry, dirs, to);
      ConservedDrop(entry, nlink, to);
      if nlink[xp] == 1 {
        ConservedFree(entry - {to}, Bump(nlink, xp, -1), xp);
        assert Bump(nlink, xp, -1) - {xp} == nlink - {xp};
      }
      assert dirs - {xp} == dirs;
    }
  }

  /** Counts of an empty directory: "." and its name. */
  lemma EmptyCount(entry: Names, nlink: Counts, dirs: set<nat>, k: Key, i: nat, parent: nat)
    requires Conserved(entry, nlink) && Tree(entry, dirs) && i in dirs && dirs <= nlink.Keys && i != ROOTINO
    requires Named(entry, k, i) && Empty(entry, i, parent)
    ensures nlink[i] == 2
  {
    EmptyChildless(entry, dirs, i, parent);
    var own :| NameOf(entry, i, own);
    forall j | j in References(entry, i)
      ensures j in {k, Key(i, Dot())}
    {
      assert j == Key(j.dir, j.name);
      assert j.name == DotDot() ==> Parent(entry, j.dir) == i;
      assert !IsDots(j.name) ==> Named(entry, j, i);
    }
    assert References(entry, i) == {k, Key(i, Dot())};
    assert k != Key(i, Dot());
  }

  lemma {:induction false} NotBelow(entry: Names, entry': Names, x: nat, i: nat, d: nat)
    requires !OnPath(entry, i, d) && d != x
    requires forall y :: y != x ==> Parent(entry, y) != x
    requires forall y :: y != x ==> Parent(entry', y) == Parent(entry, y)
    ensures !OnPath(entry', i, d)
  {
    forall n: nat
      ensures Up(entry', d, n) != i
    {
      UpAway(entry, entry', x, d, n);
    }
  }

  /** No directory lies below itself. */
  lemma NoLoop(entry: Names, dirs: set<nat>, i: nat)
    requires Tree(entry, dirs) && i in dirs && i != ROOTINO
    ensures !OnPath(entry, i, Parent(entry, i))
  {
    if OnPath(entry, i, Parent(entry, i)) {
      MovedBelowItself(entry, entry, i, Parent(entry, i));
    }
  }

  /** What the target's removal leaves of the source. */
  lemma SourceStays(entry: Names, dirs: set<nat>, from: Key, to: Key)
    requires Tree(entry, dirs) && from in entry && to.dir in dirs && CanReplace(entry, dirs, from, to)
    requires CanMove(entry, dirs, from, to)
    requires entry[from] in dirs
    ensures var ip, cleared := entry[from], Cleared(entry, dirs, to);
            && from.dir in dirs && Named(entry, from, ip) && Parent(entry, ip) == from.dir && ip != ROOTINO
            && Named(cleared, from, ip) && ip in ClearedDirs(entry, dirs, to)
                  && from.dir in ClearedDirs(entry, dirs, to)
            && Key(ip, DotDot()) in cleared && cleared[Key(ip, DotDot())] == from.dir
            && !OnPath(cleared, ip, to.dir)
  {
    hide Rooted;
    var ip := entry[from];
    assert Named(entry, from, ip);
    RootUnnamed(entry, dirs, from, ip);
    var own :| NameOf(entry, ip, own);
    if to in entry && entry[to] in dirs {
      var xp := entry[to];
      assert from in Within(entry, from.dir);
      NotDots(entry, dirs, to, xp);
      RootUnnamed(entry, dirs, to, xp);
      EmptyChildless(entry, dirs, xp, to.dir);
      NotBelow(entry, Removed(entry, to, xp), xp, ip, to.dir);
    } else if to in entry {
      DotsAreDirs(entry, dirs, to);
      SameUp(entry, entry - {to}, ip, to.dir);
    }
  }

  lemma SameUp(entry: Names, entry': Names, i: nat, d: nat)
    requires !OnPath(entry, i, d) && forall x :: Parent(entry', x) == Parent(entry, x)
    ensures !OnPath(entry', i, d)
  {
    forall n: nat
      ensures Up(entry', d, n) != i
    {
      UpSame(entry, entry', d, n);
    }
  }

  /** A rename that replaces what may be replaced keeps the tree, and its link counts are those of the removal of
      the target followed by the move. */
  lemma RenamedValid(entry: Names, nlink: Counts, dirs: set<nat>, from: Key, to: Key)
    requires Conserved(entry, nlink) && Tree(entry, dirs) && dirs <= nlink.Keys
    requires from in entry && from.dir in dirs && to.dir in dirs
    requires CanReplace(entry, dirs, from, to) && CanMove(entry, dirs, from, to)
    ensures to in entry ==> entry[to] in nlink && entry[to] != from.dir
    ensures Conserved(Renamed(entry, dirs, from, to), RenamedCounts(entry, nlink, dirs, from, to))
    ensures Tree(Renamed(entry, dirs, from, to), ClearedDirs(entry, dirs, to))
    ensures ClearedDirs(entry, dirs, to) <= RenamedCounts(entry, nlink, dirs, from, to).Keys
  {
    hide Rooted, OneName, Conserved, Removed, Empty, Relocated, Within;
    var ip := entry[from];
    var cleared, dirs' := Cleared(entry, dirs, to), ClearedDirs(entry, dirs, to);
    TargetGone(entry, dirs, to);
    if to in entry {
      EntryAllocated(entry, nlink, to);
      if entry[to] in dirs {
        NotDots(entry, dirs, to, entry[to]);
        RootUnnamed(entry, dirs, to, entry[to]);
        EmptyCount(entry, nlink, dirs, to, entry[to], to.dir);
      }
      ClearedValid(entry, nlink, dirs, to);
    }
    var nlink' := ClearedCounts(entry, nlink, dirs, to);
    EntryAllocated(entry, nlink, from);
    if ip in dirs {
      SourceStays(entry, dirs, from, to);
      NewKey(cleared, dirs', to);
      TreeMoved(cleared, dirs', from, to, ip);
      ConservedMoved(cleared, nlink', from, to, ip);
    } else {
      FileMoved(cleared, nlink', dirs', from, to);
    }
  }

  lemma TargetGone(entry: Names, dirs: set<nat>, to: Key)
    ensures to !in Cleared(entry, dirs, to)
  {
  }

  lemma NewKey(entry: Names, dirs: set<nat>, k: Key)
    requires Dots(entry, dirs) && k.dir in dirs && k !in entry
    ensures !IsDots(k.name)
  {
    assert k == Key(k.dir, k.name);
  }

  lemma FileMoved(entry: Names, nlink: Counts, dirs: set<nat>, from: Key, to: Key)
    requires Conserved(entry, nlink) && Tree(entry, dirs) && from in entry && entry[from] !in dirs
    requires to !in entry && to.dir in dirs
    ensures Conserved((entry - {from})[to := entry[from]], nlink)
    ensures Tree((entry - {from})[to := entry[from]], dirs)
  {
    hide Rooted, OneName, Conserved;
    NewKey(entry, dirs, to);
    EntryAllocated(entry, nlink, from);
    TreeDropFile(entry, dirs, from);
    TreePutFile(entry - {from}, dirs, to, entry[from]);
    ConservedDrop(entry, nlink, from);
    ConservedPut(entry - {from}, Bump(nlink, entry[from], -1), to, entry[from]);
    assert Bump(Bump(nlink, entry[from], -1), entry[from], 1) == nlink;
  }

  lemma EmptyTarget(entry: Names, nlink: Counts, dirs: set<nat>, to: Key)
    requires Conserved(entry, nlink) && Tree(entry, dirs) && dirs <= nlink.Keys && to.dir in dirs
    requires to in entry && entry[to] in dirs && entry[to] != to.dir
    ensures Empty(entry, entry[to], to.dir) ==> nlink[entry[to]] == 2
  {
    hide Rooted, OneName, Conserved;
    if Empty(entry, entry[to], to.dir) {
      NotDots(entry, dirs, to, entry[to]);
      RootUnnamed(entry, dirs, to, entry[to]);
      EmptyCount(entry, nlink, dirs, to, entry[to], to.dir);
    }
  }

  /** A directory can stay in its parent. */
  lemma OwnParent(entry: Names, dirs: set<nat>, from: Key)
    requires Tree(entry, dirs) && from in entry && !IsDots(from.name)
    ensures entry[from] in dirs ==> !OnPath(entry, entry[from], from.dir)
  {
    var i := entry[from];
    if i in dirs {
      assert Named(entry, from, i);
      RootUnnamed(entry, dirs, from, i);
      var own :| NameOf(entry, i, own);
      NoLoop(entry, dirs, i);
    }
  }

  lemma EmptyTargetCount(entry: Names, nlink: Counts, dirs: set<nat>, from: Key, to: Key)
    requires Conserved(entry, nlink) && Tree(entry, dirs) && dirs <= nlink.Keys && to.dir in dirs && to in entry
    requires from in entry && CanReplace(entry, dirs, from, to)
    ensures entry[to] in nlink && (entry[to] in dirs ==> nlink[entry[to]] == 2)
    ensures entry[to] !in dirs ==> Within(entry[to := entry[from]], entry[to]) == {}
  {
    hide Rooted, OneName, Conserved;
    EntryAllocated(entry, nlink, to);
    if entry[to] in dirs {
      EmptyTarget(entry, nlink, dirs, to);
    } else {
      TargetEntries(entry, dirs, to, entry[from]);
    }
  }

  // The steps of the code.

  /** The new name is entered, the target's own entries go, ".." is changed where there is a new parent, and the
      old name is removed. */
  function Stepwise(entry: Names, from: Key, to: Key, ip: nat, doomed: set<Key>, newparent: bool): Names {
    var e1 := entry[to := ip] - doomed;
    (if newparent then e1[Key(ip, DotDot()) := to.dir] else e1) - {from}
  }

  lemma StepwiseRenamed(entry: Names, dirs: set<nat>, from: Key, to: Key)
    requires Tree(entry, dirs) && from in entry && from.dir in dirs && to.dir in dirs
    requires CanReplace(entry, dirs, from, to) && CanMove(entry, dirs, from, to)
    ensures var ip := entry[from];
            var doomed := if to in entry then Within(entry[to := ip], entry[to]) else {};
            Stepwise(entry, from, to, ip, doomed, ip in dirs && from.dir != to.dir) == Renamed(entry, dirs, from, to)
  {
    hide Rooted, OneName, OnPath, Dots;
    var ip := entry[from];
    NotTheTarget(entry, dirs, from, to);
    if to in entry {
      TargetEntries(entry, dirs, to, ip);
    } else {
      assert entry[to := ip] - {} == entry[to := ip];
    }
    if ip in dirs {
      SourceStays(entry, dirs, from, to);
    }
  }

  /** Renamed is the one way to keep that promise. */
  lemma RenamedMoves(entry: Names, dirs: set<nat>, from: Key, to: Key, entry': Names)
    requires Tree(entry, dirs) && from in entry && from.dir in dirs && to.dir in dirs
    requires CanReplace(entry, dirs, from, to) && CanMove(entry, dirs, from, to)
    ensures Moves(entry, entry', dirs, from, to) <==> entry' == Renamed(entry, dirs, from, to)
  {
    hide Tree, CanReplace, CanMove, Moves, Renamed;
    RenamedKeeps(entry, dirs, from, to);
    if Moves(entry, entry', dirs, from, to) {
      OneMove(entry, entry', Renamed(entry, dirs, from, to), dirs, from, to);
    }
  }

  lemma RenamedKeeps(entry: Names, dirs: set<nat>, from: Key, to: Key)
    requires Tree(entry, dirs) && from in entry && from.dir in dirs && to.dir in dirs
    requires CanReplace(entry, dirs, from, to) && CanMove(entry, dirs, from, to)
    ensures Moves(entry, Renamed(entry, dirs, from, to), dirs, from, to)
  {
    hide Rooted, OneName, OnPath, Dots;
    NotTheTarget(entry, dirs, from, to);
    if to in entry {
      TargetEntries(entry, dirs, to, entry[from]);
      assert forall j :: j in entry && j.dir == entry[to] ==> j in Within(entry[to := entry[from]], entry[to]);
    }
    if entry[from] in dirs {
      SourceStays(entry, dirs, from, to);
    }
  }

  lemma OneMove(entry: Names, a: Names, b: Names, dirs: set<nat>, from: Key, to: Key)
    requires from in entry && Moves(entry, a, dirs, from, to) && Moves(entry, b, dirs, from, to)
    ensures a == b
  {
    var ip, xp := entry[from], if to in entry then entry[to] else to.dir;
    forall j: Key
      ensures (j in a <==> j in b) && (j in a ==> a[j] == b[j])
    {
      if j != from && j != to && (ip in dirs ==> j != Key(ip, DotDot())) && (xp == to.dir || j.dir != xp) {
        assert Kept(entry, a, j) && Kept(entry, b, j);
      }
    }
    assert a.Keys == b.Keys;
  }

  lemma NotTheTarget(entry: Names, dirs: set<nat>, from: Key, to: Key)
    requires Tree(entry, dirs) && from in entry && CanReplace(entry, dirs, from, to) && CanMove(entry, dirs, from, to)
    ensures from != to && (to in entry ==> from.dir != entry[to])
    ensures entry[from] in dirs ==> !IsDots(from.name)
    ensures to in entry && entry[to] in dirs ==> !IsDots(to.name)
  {
    hide Rooted, OneName, OnPath;
    if to in entry && entry[to] in dirs {
      assert forall j :: j in entry && j.dir == entry[to] ==> j in Within(entry, entry[to]);
      assert to.dir in dirs;
      NotDots(entry, dirs, to, entry[to]);
    }
  }

  /** The entries of the target: "." and ".." if it is a directory, nothing otherwise. */
  lemma TargetEntries(entry: Names, dirs: set<nat>, to: Key, ip: nat)
    requires Tree(entry, dirs) && to in entry && to.dir in dirs
    requires entry[to] in dirs ==> entry[to] != to.dir && Empty(entry, entry[to], to.dir)
    ensures Within(entry[to := ip], entry[to])
      == if entry[to] in dirs then {Key(entry[to], Dot()), Key(entry[to], DotDot())} else {}
  {
    hide Rooted, OneName;
    var xp := entry[to];
    if xp in dirs {
      NotDots(entry, dirs, to, xp);
      RootUnnamed(entry, dirs, to, xp);
      EmptyChildless(entry, dirs, xp, to.dir);
    }
    assert Within(entry[to := ip], xp) == Within(entry, xp);
  }

  lemma WithinGone(entry: Names, d: nat)
    ensures var rest := entry - Within(entry, d);
            rest - Within(rest, d) == rest
  {
    var rest := entry - Within(entry, d);
    assert forall k :: k in entry && k.dir == d ==> k in Within(entry, d);
    assert Within(rest, d) == {};
  }

  /** The counts after the new name has been entered. */
  function EnteredCounts(entry: Names, nlink: Counts, dirs: set<nat>, from: Key, to: Key): Counts
    requires from in entry && entry[from] in nlink && to.dir in nlink && (to in entry ==> entry[to] in nlink)
  {
    var ip, c := entry[from], Bump(nlink, entry[from], 1);
    if to in entry then
      var d := if ip in dirs then Bump(Bump(c, entry[to], -1), entry[to], -1) else Bump(c, entry[to], -1);
      if d[entry[to]] == 0 then d - {entry[to]} else d
    else if ip in dirs && from.dir != to.dir then Bump(c, to.dir, 1)
    else c
  }

  lemma EnteredCountsRenamed(entry: Names, nlink: Counts, dirs: set<nat>, from: Key, to: Key)
    requires from in entry && entry[from] in nlink && to.dir in nlink && from.dir in nlink
    requires CanReplace(entry, dirs, from, to)
    requires to in entry ==>
      entry[to] in nlink && entry[to] != from.dir && (entry[to] in dirs ==> nlink[entry[to]] == 2)
    ensures var ip, c := entry[from], EnteredCounts(entry, nlink, dirs, from, to);
            && ip in c && from.dir in c
            && var d := if ip in dirs && from.dir != to.dir then Bump(c, from.dir, -1) else c;
            Bump(d, ip, -1) == if ReplacedBeside(entry, dirs, from, to)
                               then Bump(RenamedCounts(entry, nlink, dirs, from, to), to.dir, 1)
                               else RenamedCounts(entry, nlink, dirs, from, to)
  {
    hide Empty;
  }

  // A file system in which rename loses a count.

  /** A root without names but its own two. */
  function RootNames(): Names {
    map[Key(ROOTINO, Dot()) := ROOTINO, Key(ROOTINO, DotDot()) := ROOTINO]
  }

  lemma RootValid()
    ensures Conserved(RootNames(), map[ROOTINO := 2]) && Tree(RootNames(), {ROOTINO})
  {
    var entry := RootNames();
    assert Dot() != DotDot();
    assert References(entry, ROOTINO) == {Key(ROOTINO, Dot()), Key(ROOTINO, DotDot())};
    assert Up(entry, ROOTINO, 0) == ROOTINO;
    assert OnPath(entry, ROOTINO, ROOTINO);
  }

  /** With two empty directories a and b in the root, renaming a to b is allowed, and leaves the root with a link
      count of 4 where three entries name it. */
  lemma RenameLosesCount(a: Bytes, b: Bytes)
    requires a != b && !IsDots(a) && !IsDots(b)
    ensures var entry := Made(Made(RootNames(), Key(ROOTINO, a), 3), Key(ROOTINO, b), 4);
            var nlink, dirs, from, to :=
              map[ROOTINO := 4, 3 := 2, 4 := 2], {ROOTINO, 3, 4}, Key(ROOTINO, a), Key(ROOTINO, b);
            && Conserved(entry, nlink) && Tree(entry, dirs) && entry[from] == 3 && entry[to] == 4
            && CanMove(entry, dirs, from, to) && CanReplace(entry, dirs, from, to)
                  && ReplacedBeside(entry, dirs, from, to)
            && Refs(Renamed(entry, dirs, from, to), ROOTINO) == 3
  {
    hide Conserved, Rooted, OneName, OnPath, Refs;
    var from, to := Key(ROOTINO, a), Key(ROOTINO, b);
    var e1, n1 := Made(RootNames(), from, 3), Bump(map[ROOTINO := 2], ROOTINO, 1)[3 := 2];
    RootValid();
    MadeValid(RootNames(), map[ROOTINO := 2], {ROOTINO}, from, 3);
    MadeValid(e1, n1, {ROOTINO} + {3}, to, 4);
    var entry, nlink, dirs := Made(e1, to, 4), map[ROOTINO := 4, 3 := 2, 4 := 2], {ROOTINO, 3, 4};
    assert nlink == Bump(n1, ROOTINO, 1)[4 := 2] && dirs == {ROOTINO} + {3} + {4};
    assert entry[from] == 3 && entry[to] == 4;
    OwnParent(entry, dirs, from);
    RenamedValid(entry, nlink, dirs, from, to);
    CountOf(Renamed(entry, dirs, from, to), RenamedCounts(entry, nlink, dirs, from, to), ROOTINO);
  }
}
