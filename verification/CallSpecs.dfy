/** What the system calls on names owe to the link counts and to the tree: one lemma for each kind of change. */
module CallSpecs {
  import opened NameTree
  import opened TreeMoves

  type Counts = map<nat, int>

  // Link counts over whole calls.

  lemma ConservedMade(entry: Names, nlink: Counts, dirs: set<nat>, k: Key, i: nat)
    requires Conserved(entry, nlink) && Dots(entry, dirs) && k !in entry && !IsDots(k.name) && k.dir in dirs
    requires k.dir in nlink
    requires i !in nlink && i !in dirs
    ensures Conserved(Made(entry, k, i), Bump(nlink, k.dir, 1)[i := 2])
  {
    hide Conserved, Refs, References;
    var e1 := entry[Key(i, Dot()) := i];
    var e2 := e1[Key(i, DotDot()) := k.dir];
    var n0 := nlink[i := 0];
    ConservedNew(entry, nlink, i);
    ConservedPut(entry, n0, Key(i, Dot()), i);
    ConservedPut(e1, Bump(n0, i, 1), Key(i, DotDot()), k.dir);
    ConservedPut(e2, Bump(Bump(n0, i, 1), k.dir, 1), k, i);
    assert Bump(Bump(Bump(n0, i, 1), k.dir, 1), i, 1) == Bump(nlink, k.dir, 1)[i := 2];
  }

  lemma ConservedRemoved(entry: Names, nlink: Counts, k: Key, i: nat)
    requires Conserved(entry, nlink) && Named(entry, k, i) && i in nlink && k.dir in nlink && k.dir != i
    requires nlink[i] == 2
    requires Key(i, Dot()) in entry && entry[Key(i, Dot())] == i
    requires Key(i, DotDot()) in entry && entry[Key(i, DotDot())] == k.dir
    ensures Conserved(Removed(entry, k, i), Bump(nlink, k.dir, -1) - {i})
  {
    hide Conserved, Refs, References;
    var e1 := entry - {k};
    var e2 := e1 - {Key(i, Dot())};
    var e3 := e2 - {Key(i, DotDot())};
    ConservedDrop(entry, nlink, k);
    ConservedDrop(e1, Bump(nlink, i, -1), Key(i, Dot()));
    ConservedDrop(e2, Bump(Bump(nlink, i, -1), i, -1), Key(i, DotDot()));
    var n3 := Bump(Bump(Bump(nlink, i, -1), i, -1), k.dir, -1);
    ConservedFree(e3, n3, i);
    assert n3 - {i} == Bump(nlink, k.dir, -1) - {i};
    assert e3 == Removed(entry, k, i);
  }

  lemma ConservedMoved(entry: Names, nlink: Counts, from: Key, to: Key, i: nat)
    requires Conserved(entry, nlink) && Named(entry, from, i) && i in nlink && to !in entry && !IsDots(to.name)
    requires Key(i, DotDot()) in entry && entry[Key(i, DotDot())] == from.dir && from.dir in nlink && to.dir in nlink
    ensures Conserved(Relocated(entry, from, to, i), Bump(Bump(nlink, from.dir, -1), to.dir, 1))
  {
    hide Conserved, Refs, References;
    var e1 := entry - {from};
    var e2 := e1[to := i];
    var n1 := Bump(Bump(nlink, i, -1), i, 1);
    ConservedDrop(entry, nlink, from);
    ConservedPut(e1, Bump(nlink, i, -1), to, i);
    assert n1 == nlink;
    ConservedReplace(e2, nlink, Key(i, DotDot()), to.dir);
  }

  /** A count that is one too high, with the same names. */
  lemma Leaked(entry: Names, nlink: Counts, d: nat)
    requires Conserved(entry, nlink) && d in nlink
    ensures !Conserved(entry, Bump(nlink, d, 1))
  {
    assert Bump(nlink, d, 1)[d] != Refs(entry, d);
  }

  lemma RootIsTop(entry: Names, dirs: set<nat>, d: nat)
    requires Tree(entry, dirs)
    ensures Parent(entry, ROOTINO) == ROOTINO && ROOTINO in dirs
  {
  }

  lemma DotsOf(entry: Names, dirs: set<nat>, d: nat)
    requires Tree(entry, dirs) && d in dirs
    ensures Key(d, DotDot()) in entry && Parent(entry, d) == entry[Key(d, DotDot())] && Parent(entry, d) in dirs
  {
  }

  /** How far the root is. */
  ghost function WayUp(entry: Names, dirs: set<nat>, d: nat): (n: nat)
    requires Tree(entry, dirs) && d in dirs
    ensures Up(entry, d, n) == ROOTINO
  {
    var n: nat :| Up(entry, d, n) == ROOTINO; n
  }

  /** Above the root there is nothing new. */
  lemma AllTheWay(entry: Names, source: nat, target: nat, j: nat)
    requires Parent(entry, ROOTINO) == ROOTINO && Up(entry, target, j) == ROOTINO
    requires forall m :: 0 <= m <= j ==> Up(entry, target, m) != source
    ensures !OnPath(entry, source, target)
  {
    forall m: nat
      ensures Up(entry, target, m) != source
    {
      if m > j {
        UpTwice(entry, target, j, m - j);
        UpRoot(entry, m - j);
      }
    }
  }

  lemma NothingThere(entry: Names, dirs: set<nat>, i: nat)
    requires Tree(entry, dirs) && i !in dirs
    ensures Within(entry, i) == {} && entry - {} == entry
  {
  }

  lemma MadeParts(entry: Names, k: Key, i: nat)
    ensures Made(entry, k, i) == entry[Key(i, Dot()) := i][Key(i, DotDot()) := k.dir][k := i]
  {
  }

  /** "." and ".." are all that a new directory holds. */
  lemma OwnEntries(entry: Names, i: nat, parent: nat)
    requires Within(entry, i) == {}
    ensures var e := entry[Key(i, Dot()) := i][Key(i, DotDot()) := parent];
            e - Within(e, i) == entry
  {
    var e := entry[Key(i, Dot()) := i][Key(i, DotDot()) := parent];
    forall k | k in entry
      ensures k.dir != i
    {
      assert k !in Within(entry, i);
    }
    assert (e - Within(e, i)).Keys == entry.Keys;
  }

  /** What mkdir promises: the name stands for a directory with "." and ".." and nothing else. */
  ghost predicate MakesDirectory(entry: Names, entry': Names, k: Key, i: nat) {
    && k in entry' && entry'[k] == i && Within(entry', i) == {Key(i, Dot()), Key(i, DotDot())}
    && entry'[Key(i, Dot())] == i && entry'[Key(i, DotDot())] == k.dir
    && forall j :: j != k && j.dir != i ==> Kept(entry, entry', j)
  }

  /** What rmdir promises: the name is gone, and the directory's own entries with it. */
  ghost predicate RemovesDirectory(entry: Names, entry': Names, k: Key)
    requires k in entry
  {
    k !in entry' && forall j :: j != k ==> if j.dir == entry[k] then j !in entry' else Kept(entry, entry', j)
  }

  lemma MadeIs(entry: Names, k: Key, i: nat)
    requires Within(entry, i) == {} && k.dir != i
    ensures MakesDirectory(entry, Made(entry, k, i), k, i)
  {
    forall j | j in entry
      ensures j.dir != i
    {
      assert j !in Within(entry, i);
    }
    assert Dot() != DotDot();
  }

  lemma RemovedIs(entry: Names, k: Key, i: nat)
    requires k in entry && entry[k] == i && Within(Removed(entry, k, i), i) == {}
    ensures RemovesDirectory(entry, Removed(entry, k, i), k)
  {
    forall j | j in Removed(entry, k, i)
      ensures j.dir != i
    {
      assert j !in Within(Removed(entry, k, i), i);
    }
  }

  lemma MadeValid(entry: Names, nlink: Counts, dirs: set<nat>, k: Key, i: nat)
    requires Conserved(entry, nlink) && Tree(entry, dirs) && dirs <= nlink.Keys
    requires k !in entry && k.dir in dirs && i !in nlink
    ensures Conserved(Made(entry, k, i), Bump(nlink, k.dir, 1)[i := 2]) && Tree(Made(entry, k, i), dirs + {i})
  {
    assert k == Key(k.dir, k.name);
    assert forall j :: j in entry ==> entry[j] != i;
    hide Conserved, Rooted, OneName, Made;
    ConservedMade(entry, nlink, dirs, k, i);
    TreeMade(entry, dirs, k, i);
  }

  ghost predicate CanRmdir(entry: Names, nlink: Counts, dirs: set<nat>, k: Key) {
    k in entry && entry[k] != k.dir && entry[k] in dirs && entry[k] in nlink && nlink[entry[k]] == 2
      && Empty(entry, entry[k], k.dir)
  }

  /** "." and ".." of a directory do not name an empty directory other than itself. */
  lemma NotDots(entry: Names, dirs: set<nat>, k: Key, i: nat)
    requires Tree(entry, dirs) && k in entry && entry[k] == i && k.dir in dirs && k.dir != i && Empty(entry, i, k.dir)
    ensures Named(entry, k, i)
  {
    assert k == Key(k.dir, k.name);
    assert k.name == DotDot() ==> Parent(entry, k.dir) == i;
    assert forall j :: j in entry && j.dir == i ==> j in Within(entry, i);
    ParentHolds(entry, dirs, k.dir);
  }

  lemma RemovedValid(entry: Names, nlink: Counts, dirs: set<nat>, k: Key, i: nat)
    requires Conserved(entry, nlink) && Tree(entry, dirs) && dirs <= nlink.Keys && k.dir in dirs
    requires k in entry && entry[k] == i && k.dir != i && i in dirs && nlink[i] == 2 && Empty(entry, i, k.dir)
    ensures Conserved(Removed(entry, k, i), Bump(nlink, k.dir, -1) - {i}) && Tree(Removed(entry, k, i), dirs - {i})
    ensures entry - {k} - Within(entry - {k}, i) == Removed(entry, k, i)
    ensures Within(Removed(entry, k, i), i) == {} && Removed(entry, k, i) - {} == Removed(entry, k, i)
    ensures Named(entry, k, i)
  {
    hide Rooted, Conserved;
    NotDots(entry, dirs, k, i);
    RootUnnamed(entry, dirs, k, i);
    EmptyChildless(entry, dirs, i, k.dir);
    TreeRemoved(entry, dirs, k, i);
    ConservedRemoved(entry, nlink, k, i);
    assert Within(entry - {k}, i) == Within(entry, i);
    assert entry - {k} - Within(entry, i) == Removed(entry, k, i);
    assert forall j :: j in entry && j.dir == i ==> j in Within(entry, i);
  }

  lemma EntryAllocated(entry: Names, nlink: Counts, k: Key)
    requires Conserved(entry, nlink) && k in entry
    ensures entry[k] in nlink && nlink[entry[k]] >= 1
  {
    assert k in References(entry, entry[k]);
  }

  /** A new entry keeps the tree exactly when it does not name a directory. */
  lemma NewName(entry: Names, dirs: set<nat>, k: Key, v: nat)
    requires Tree(entry, dirs) && k !in entry && k.dir in dirs
    ensures Tree(entry[k := v], dirs) <==> v !in dirs
  {
    assert !IsDots(k.name) by {
      assert k == Key(k.dir, k.name);
    }
    if v !in dirs {
      TreePutFile(entry, dirs, k, v);
    } else {
      assert Named(entry[k := v], k, v);
      if v != ROOTINO {
        var own :| NameOf(entry, v, own);
        assert own != k && Named(entry[k := v], own, v);
      }
    }
  }

  /** An entry can be dropped from the tree exactly when it does not name a directory. A directory's count stays
      above 0, for its other entries. */
  lemma NameDropped(entry: Names, nlink: Counts, dirs: set<nat>, k: Key)
    requires Tree(entry, dirs) && Conserved(entry, nlink) && k in entry && k.dir in dirs
    ensures Tree(entry - {k}, dirs) <==> entry[k] !in dirs
    ensures entry[k] in nlink && (entry[k] in dirs ==> nlink[entry[k]] >= 2)
  {
    hide Tree, Conserved, Refs;
    var v := entry[k];
    EntryAllocated(entry, nlink, k);
    if v !in dirs {
      TreeDropFile(entry, dirs, k);
    } else {
      TwoReferences(entry, dirs, k, v);
      CountOf(entry, nlink, v);
      DirectoryDropped(entry, dirs, k);
    }
  }

  lemma CountOf(entry: Names, nlink: Counts, i: nat)
    requires Conserved(entry, nlink) && i in nlink
    ensures nlink[i] == Refs(entry, i)
  {
  }

  lemma DirectoryDropped(entry: Names, dirs: set<nat>, k: Key)
    requires Tree(entry, dirs) && k in entry && k.dir in dirs && entry[k] in dirs
    ensures !Tree(entry - {k}, dirs)
  {
    hide Rooted;
    var v, entry' := entry[k], entry - {k};
    assert k == Key(k.dir, k.name);
    if IsDots(k.name) {
      assert k !in entry';
      assert !Dots(entry', dirs);
    } else {
      assert Named(entry, k, v);
      RootUnnamed(entry, dirs, k, v);
      var own := OwnName(entry, dirs, v);
      forall j
        ensures !NameOf(entry', v, j)
      {
        assert Named(entry', j, v) ==> Named(entry, j, v);
      }
      assert !OneName(entry', dirs);
    }
  }

  lemma TwoReferences(entry: Names, dirs: set<nat>, k: Key, v: nat)
    requires Tree(entry, dirs) && k in entry && entry[k] == v && v in dirs
    ensures Refs(entry, v) >= 2
  {
    var other := if k != Key(v, Dot()) then Key(v, Dot()) else if v == ROOTINO then Key(v, DotDot())
      else OwnName(entry, dirs, v);
    assert other != k && {k, other} <= References(entry, v);
    Subset({k, other}, References(entry, v));
  }

  ghost function OwnName(entry: Names, dirs: set<nat>, d: nat): (k: Key)
    requires OneName(entry, dirs) && d in dirs && d != ROOTINO
    ensures NameOf(entry, d, k)
  {
    var k :| NameOf(entry, d, k); k
  }

  lemma Subset(a: set<Key>, b: set<Key>)
    requires a <= b
    ensures |a| <= |b|
  {
    var rest := b - a;
    assert b == a + rest;
  }

  lemma NothingWithin(entry: Names, dirs: set<nat>, i: nat, k: Key)
    requires Tree(entry, dirs) && i !in dirs
    ensures Within(entry - {k}, i) == {}
  {
  }
}
