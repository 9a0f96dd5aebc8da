/** What the directory system calls do to the names, the link counts and the tree. */
module TreeMoves {
  import opened NameTree

  /** The entries of directory d itself. */
  function Within(entry: Names, d: nat): set<Key> {
    set k | k in entry && k.dir == d
  }

  /** dirempty: only "." and a ".." that names parent. */
  predicate Empty(entry: Names, d: nat, parent: nat) {
    forall k :: k in Within(entry, d) ==> k.name == Dot() || (k.name == DotDot() && entry[k] == parent)
  }

  /** Changes that leave "." and ".." and the names of all directories alone. */
  lemma TreeOfFiles(entry: Names, entry': Names, dirs: set<nat>)
    requires Tree(entry, dirs)
    requires forall k :: k in entry' ==> k.dir in dirs
    requires forall k: Key :: IsDots(k.name) ==> (k in entry' <==> k in entry)
    requires forall k: Key :: IsDots(k.name) && k in entry ==> entry'[k] == entry[k]
    requires forall k, d :: d in dirs ==> (Named(entry', k, d) <==> Named(entry, k, d))
    ensures Tree(entry', dirs)
  {
    hide Rooted, OneName;
    assert forall x :: Parent(entry', x) == Parent(entry, x);
    RootedSame(entry, entry', dirs);
    NamesSame(entry, entry', dirs);
  }

  lemma NamesSame(entry: Names, entry': Names, dirs: set<nat>)
    requires OneName(entry, dirs) && ROOTINO in dirs
    requires forall d :: d in dirs ==> Parent(entry', d) == Parent(entry, d)
    requires forall k, d :: d in dirs ==> (Named(entry', k, d) <==> Named(entry, k, d))
    ensures OneName(entry', dirs)
  {
    forall d | d in dirs && d != ROOTINO
      ensures exists k :: NameOf(entry', d, k)
    {
      var k :| NameOf(entry, d, k);
      assert NameOf(entry', d, k);
    }
  }

  /** A name for a file. */
  lemma TreePutFile(entry: Names, dirs: set<nat>, k: Key, v: nat)
    requires Tree(entry, dirs) && k.dir in dirs && v !in dirs && !IsDots(k.name)
    requires k in entry ==> entry[k] !in dirs
    ensures Tree(entry[k := v], dirs)
  {
    TreeOfFiles(entry, entry[k := v], dirs);
  }

  lemma TreeDropFile(entry: Names, dirs: set<nat>, k: Key)
    requires Tree(entry, dirs) && k in entry && entry[k] !in dirs
    ensures Tree(entry - {k}, dirs) && !IsDots(k.name)
  {
    DotsAreDirs(entry, dirs, k);
    TreeOfFiles(entry, entry - {k}, dirs);
  }

  lemma DotsAreDirs(entry: Names, dirs: set<nat>, k: Key)
    requires Dots(entry, dirs) && k in entry
    ensures IsDots(k.name) ==> entry[k] in dirs
  {
    assert Parent(entry, k.dir) == entry[Key(k.dir, DotDot())];
    assert k == Key(k.dir, k.name);
  }

  // Directories.

  /** The names after mkdir of k as inode i. */
  function Made(entry: Names, k: Key, i: nat): Names {
    entry[Key(i, Dot()) := i][Key(i, DotDot()) := k.dir][k := i]
  }

  /** The names after rmdir of directory i, called k. */
  function Removed(entry: Names, k: Key, i: nat): Names {
    entry - {k, Key(i, Dot()), Key(i, DotDot())}
  }

  /** The names after the directory i has moved. */
  function Relocated(entry: Names, from: Key, to: Key, i: nat): Names {
    (entry - {from})[to := i][Key(i, DotDot()) := to.dir]
  }

  lemma MadeParent(entry: Names, k: Key, i: nat, x: nat)
    requires k.name != DotDot()
    ensures Parent(Made(entry, k, i), x) == if x == i then k.dir else Parent(entry, x)
  {
  }

  /** The way up from any other directory does not pass through a directory that is no directory's parent. */
  lemma {:induction false} UpAway(entry: Names, entry': Names, i: nat, d: nat, n: nat)
    requires d != i && forall x :: x != i ==> Parent(entry, x) != i
    requires forall x :: x != i ==> Parent(entry', x) == Parent(entry, x)
    ensures Up(entry', d, n) == Up(entry, d, n)
    decreases n
  {
    if n > 0 {
      UpAway(entry, entry', i, Parent(entry, d), n - 1);
    }
  }

  lemma TreeMade(entry: Names, dirs: set<nat>, k: Key, i: nat)
    requires Tree(entry, dirs) && k !in entry && k.dir in dirs && !IsDots(k.name)
    requires i !in dirs && forall j :: j in entry ==> entry[j] != i
    ensures Tree(Made(entry, k, i), dirs + {i})
  {
    hide Made, Rooted, OneName, Dots, Named;
    MadeParent(entry, k, i, ROOTINO);
    DotsMade(entry, dirs, k, i);
    NamesMade(entry, dirs, k, i);
    RootedMade(entry, dirs, k, i);
  }

  lemma DotsMade(entry: Names, dirs: set<nat>, k: Key, i: nat)
    requires Dots(entry, dirs) && k.dir in dirs && !IsDots(k.name) && i !in dirs
    ensures Dots(Made(entry, k, i), dirs + {i})
  {
    forall d | d in dirs
      ensures Parent(Made(entry, k, i), d) in dirs
    {
      MadeParent(entry, k, i, d);
    }
    MadeParent(entry, k, i, i);
  }

  lemma NamesMade(entry: Names, dirs: set<nat>, k: Key, i: nat)
    requires OneName(entry, dirs) && k !in entry && !IsDots(k.name) && i !in dirs && ROOTINO in dirs
    requires forall j :: j in entry ==> entry[j] != i
    ensures OneName(Made(entry, k, i), dirs + {i})
  {
    var entry' := Made(entry, k, i);
    forall j, d
      ensures Named(entry', j, d) <==> if d == i then j == k else Named(entry, j, d)
    {
    }
    forall d | d in dirs + {i} && d != ROOTINO
      ensures exists j :: NameOf(entry', d, j)
    {
      MadeParent(entry, k, i, d);
      if d == i {
        assert NameOf(entry', d, k);
      } else {
        var j :| NameOf(entry, d, j);
        assert NameOf(entry', d, j);
      }
    }
  }

  lemma RootedMade(entry: Names, dirs: set<nat>, k: Key, i: nat)
    requires Rooted(entry, dirs) && Dots(entry, dirs) && k.dir in dirs && !IsDots(k.name) && i !in dirs
    ensures Rooted(Made(entry, k, i), dirs + {i})
  {
    hide Dots, Made, Parent;
    var entry' := Made(entry, k, i);
    forall x
      ensures Parent(entry', x) == if x == i then k.dir else Parent(entry, x)
    {
      MadeParent(entry, k, i, x);
    }
    NoParent(entry, dirs, i);
    forall d | d in dirs + {i}
      ensures OnPath(entry', ROOTINO, d)
    {
      var c := if d == i then k.dir else d;
      var n: nat :| Up(entry, c, n) == ROOTINO;
      UpAway(entry, entry', i, c, n);
      assert d == i ==> Up(entry', d, n + 1) == ROOTINO;
    }
  }

  lemma NoParent(entry: Names, dirs: set<nat>, i: nat)
    requires Dots(entry, dirs) && i !in dirs
    ensures forall x :: x != i ==> Parent(entry, x) != i
  {
    assert forall x :: Key(x, DotDot()) in entry ==> Key(x, DotDot()).dir in dirs;
  }

  /** An empty directory other than the root has no directory below it. */
  lemma EmptyChildless(entry: Names, dirs: set<nat>, i: nat, parent: nat)
    requires Tree(entry, dirs) && i in dirs && i != ROOTINO && Empty(entry, i, parent)
    ensures forall x :: x != i ==> Parent(entry, x) != i
    ensures Within(entry, i) == {Key(i, Dot()), Key(i, DotDot())} && Parent(entry, i) == parent
  {
    hide Rooted;
    assert Key(i, DotDot()) in Within(entry, i);
    forall x | x != i
      ensures Parent(entry, x) != i
    {
      ParentHolds(entry, dirs, x);
      assert forall k :: k in entry && k.dir == i ==> k in Within(entry, i);
    }
  }

  /** The parent of a directory has an entry for it; nothing else has a parent. */
  lemma ParentHolds(entry: Names, dirs: set<nat>, x: nat)
    requires Tree(entry, dirs)
    ensures x == ROOTINO || Parent(entry, x) == x || exists k :: Named(entry, k, x) && k.dir == Parent(entry, x)
  {
    if x in dirs && x != ROOTINO {
      var k :| NameOf(entry, x, k);
      assert Named(entry, k, x) && k.dir == Parent(entry, x);
    }
  }

  lemma TreeRemoved(entry: Names, dirs: set<nat>, k: Key, i: nat)
    requires Tree(entry, dirs) && Named(entry, k, i) && i in dirs && Empty(entry, i, k.dir)
    ensures Tree(Removed(entry, k, i), dirs - {i})
  {
    hide Removed, Rooted, Dots, Empty;
    assert i != ROOTINO;
    EmptyChildless(entry, dirs, i, k.dir);
    forall x
      ensures x != i ==> Parent(Removed(entry, k, i), x) == Parent(entry, x)
    {
      RemovedParent(entry, k, i, x);
    }
    DotsRemoved(entry, dirs, k, i);
    NamesRemoved(entry, dirs, k, i);
    RootedRemoved(entry, dirs, k, i);
  }

  lemma RemovedParent(entry: Names, k: Key, i: nat, x: nat)
    requires Named(entry, k, i)
    ensures x != i ==> Parent(Removed(entry, k, i), x) == Parent(entry, x)
  {
  }

  lemma DotsRemoved(entry: Names, dirs: set<nat>, k: Key, i: nat)
    requires Dots(entry, dirs) && Named(entry, k, i) && i in dirs
    requires Within(entry, i) == {Key(i, Dot()), Key(i, DotDot())} && forall x :: x != i ==> Parent(entry, x) != i
    ensures Dots(Removed(entry, k, i), dirs - {i})
  {
    var entry' := Removed(entry, k, i);
    assert forall j :: j in entry' ==> j !in Within(entry, i);
    forall d | d in dirs - {i}
      ensures Parent(entry', d) in dirs - {i}
    {
      RemovedParent(entry, k, i, d);
    }
  }

  lemma NamesRemoved(entry: Names, dirs: set<nat>, k: Key, i: nat)
    requires OneName(entry, dirs) && Named(entry, k, i)
    requires forall x :: x != i ==> Parent(Removed(entry, k, i), x) == Parent(entry, x)
    ensures OneName(Removed(entry, k, i), dirs - {i})
  {
    var entry' := Removed(entry, k, i);
    forall j, d
      ensures Named(entry', j, d) ==> Named(entry, j, d)
      ensures d != i ==> (Named(entry', j, d) <==> Named(entry, j, d))
    {
    }
    forall d | d in dirs - {i} && d != ROOTINO
      ensures exists j :: NameOf(entry', d, j)
    {
      var j :| NameOf(entry, d, j);
      assert NameOf(entry', d, j);
    }
  }

  lemma RootedRemoved(entry: Names, dirs: set<nat>, k: Key, i: nat)
    requires Rooted(entry, dirs) && forall x :: x != i ==> Parent(entry, x) != i
    requires forall x :: x != i ==> Parent(Removed(entry, k, i), x) == Parent(entry, x)
    ensures Rooted(Removed(entry, k, i), dirs - {i})
  {
    hide Removed, Parent;
    forall d | d in dirs - {i}
      ensures OnPath(Removed(entry, k, i), ROOTINO, d)
    {
      var n: nat :| Up(entry, d, n) == ROOTINO;
      UpAway(entry, Removed(entry, k, i), i, d, n);
    }
  }

  /** Moving a directory to a place that is not below it keeps the tree. */
  lemma TreeMoved(entry: Names, dirs: set<nat>, from: Key, to: Key, i: nat)
    requires Tree(entry, dirs) && Named(entry, from, i) && i in dirs
    requires to !in entry && to.dir in dirs && !IsDots(to.name) && !OnPath(entry, i, to.dir)
    ensures Tree(Relocated(entry, from, to, i), dirs)
  {
    hide Relocated, Rooted, Dots, OneName;
    RootUnnamed(entry, dirs, from, i);
    MovedParent(entry, from, to, i);
    DotsMoved(entry, dirs, from, to, i);
    NamesMoved(entry, dirs, from, to, i);
    RootedMoved(entry, dirs, from, to, i);
  }

  lemma RootUnnamed(entry: Names, dirs: set<nat>, k: Key, i: nat)
    requires OneName(entry, dirs) && Named(entry, k, i)
    ensures i != ROOTINO
  {
  }

  lemma MovedParent(entry: Names, from: Key, to: Key, i: nat)
    requires !IsDots(from.name) && !IsDots(to.name)
    ensures forall x :: Parent(Relocated(entry, from, to, i), x) == if x == i then to.dir else Parent(entry, x)
  {
  }

  lemma DotsMoved(entry: Names, dirs: set<nat>, from: Key, to: Key, i: nat)
    requires Dots(entry, dirs) && i in dirs && to.dir in dirs && !IsDots(from.name) && !IsDots(to.name)
    ensures Dots(Relocated(entry, from, to, i), dirs)
  {
    MovedParent(entry, from, to, i);
  }

  lemma MovedEntry(entry: Names, from: Key, to: Key, i: nat, j: Key)
    requires !IsDots(j.name)
    ensures j in Relocated(entry, from, to, i) <==> j == to || (j in entry && j != from)
    ensures j in Relocated(entry, from, to, i) ==> Relocated(entry, from, to, i)[j] == if j == to then i else entry[j]
  {
    assert j != Key(i, DotDot());
  }

  lemma NamesMoved(entry: Names, dirs: set<nat>, from: Key, to: Key, i: nat)
    requires OneName(entry, dirs) && Named(entry, from, i) && i in dirs && to !in entry && !IsDots(to.name)
    ensures OneName(Relocated(entry, from, to, i), dirs)
  {
    MovedParent(entry, from, to, i);
    var entry' := Relocated(entry, from, to, i);
    RootUnnamed(entry, dirs, from, i);
    var own :| NameOf(entry, i, own);
    assert own == from;
    forall j, d
      ensures Named(entry', j, d) <==> if d == i then j == to else Named(entry, j, d)
    {
      assert Named(entry, j, i) ==> j == from;
      if !IsDots(j.name) {
        MovedEntry(entry, from, to, i, j);
      }
    }
    forall d | d in dirs && d != ROOTINO
      ensures exists j :: NameOf(entry', d, j)
    {
      if d == i {
        assert NameOf(entry', d, to);
      } else {
        var j :| NameOf(entry, d, j);
        assert NameOf(entry', d, j);
      }
    }
  }

  lemma RootedMoved(entry: Names, dirs: set<nat>, from: Key, to: Key, i: nat)
    requires Rooted(entry, dirs) && to.dir in dirs && !OnPath(entry, i, to.dir) && i != ROOTINO
    requires forall x :: Parent(Relocated(entry, from, to, i), x) == if x == i then to.dir else Parent(entry, x)
    ensures Rooted(Relocated(entry, from, to, i), dirs)
  {
    hide Relocated, Parent;
    forall d | d in dirs
      ensures OnPath(Relocated(entry, from, to, i), ROOTINO, d)
    {
      var n: nat :| Up(entry, d, n) == ROOTINO;
      UpMoved(entry, Relocated(entry, from, to, i), i, to.dir, d, n);
    }
  }
}
