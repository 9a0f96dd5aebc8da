/** The third lookup of rename (ufs_syscalls.c): the old path is walked again after the new name has been entered. */
module RenamePaths {
  import opened DirEntries
  import opened NameTree
  import opened TreeMoves
  import opened CallSpecs
  import opened RenameSpec
  import opened PathWalk
  import opened PathMeaning

  /** The names once the new one has been entered: the entries of a replaced directory are gone. */
  ghost function Entered(entry: Names, from: Key, to: Key): Names
    requires from in entry
  {
    var e := entry[to := entry[from]];
    if to in entry then e - Within(e, entry[to]) else e
  }

  /** The walk neither looks the target up nor anything in it. */
  ghost predicate Avoids(looked: seq<Key>, entry: Names, to: Key) {
    to in entry ==> forall k :: k in looked ==> k != to && k.dir != entry[to]
  }

  /** The old path leads to the same entry as before if it does not go through the target; always, if there was
      none. */
  lemma ThirdLookup(entry: Names, dirs: set<nat>, kinds: map<nat, Kind>, root: nat, dp: nat, path: Bytes, from: Key,
      to: Key)
    requires from in entry && Resolve(entry, kinds, root, dp, path, MAXSYMLINKS, false) == Found(entry[from])
    requires Avoids(Looked(entry, kinds, root, dp, path, MAXSYMLINKS, false), entry, to)
    ensures Resolve(Entered(entry, from, to), kinds, root, dp, path, MAXSYMLINKS, false) == Found(entry[from])
    ensures Looked(Entered(entry, from, to), kinds, root, dp, path, MAXSYMLINKS, false)
      == Looked(entry, kinds, root, dp, path, MAXSYMLINKS, false)
  {
    hide Resolve, Looked;
    var e := Entered(entry, from, to);
    LookedThere(entry, kinds, root, dp, path, MAXSYMLINKS, false);
    forall k | k in Looked(entry, kinds, root, dp, path, MAXSYMLINKS, false)
      ensures SameName(entry, e, kinds, kinds, k)
    {
      assert k in entry;
    }
    SameWalk(entry, e, kinds, kinds, root, dp, path, MAXSYMLINKS, false);
  }

  // A path through the target.

  function T(): Bytes { [0x74] }

  function X(): Bytes { [0x78] }

  function S(): Bytes { [0x73] }

  /** The root with directories t and x, and x with directory s. */
  function ThreeDirectories(): Names {
    Made(Made(Made(RootNames(), Key(ROOTINO, T()), 3), Key(ROOTINO, X()), 4), Key(4, S()), 5)
  }

  /** Renaming t/../x/s to t in the root: the rename is allowed, but once t is the moved directory, the path goes on
      from the parent of that, in which there is no x. The code panics. */
  lemma LostEntry()
    ensures var entry, dirs, from, to := ThreeDirectories(), {ROOTINO, 3, 4, 5}, Key(4, S()), Key(ROOTINO, T());
      && Tree(entry, dirs) && from in entry && CanMove(entry, dirs, from, to) && CanReplace(entry, dirs, from, to)
      && Resolve(entry, AllOpen(dirs), ROOTINO, ROOTINO, Through(), MAXSYMLINKS, false) == Found(entry[from])
      && Resolve(Entered(entry, from, to), AllOpen(dirs), ROOTINO, ROOTINO, Through(), MAXSYMLINKS, false)
         == Failed(ENOENT)
  {
    hide Tree, Conserved, Resolve, OnPath, Entered;
    ThreeTree();
    TopNotBelow(ThreeDirectories(), 5);
    var kinds := AllOpen({ROOTINO, 3, 4, 5});
    WalkBefore(Setting(ThreeDirectories(), kinds, ROOTINO, false));
    WalkAfter(Setting(Entered(ThreeDirectories(), Key(4, S()), Key(ROOTINO, T())), kinds, ROOTINO, false)) by {
      EnteredThree();
    }
  }

  function AllOpen(dirs: set<nat>): map<nat, Kind> {
    map i: nat | i in dirs :: Directory(true)
  }

  /** t/../x/s */
  function Through(): Bytes {
    T() + [Slash()] + (DotDot() + [Slash()] + (X() + [Slash()] + S()))
  }

  lemma WalkBefore(s: Setting)
    requires s.Leads(ROOTINO, T(), 3) && s.Leads(3, DotDot(), ROOTINO) && s.Leads(ROOTINO, X(), 4) && s.Leads(4, S(), 5)
    requires s.Searched(5)
    ensures s.Walk(Stop(ROOTINO, Through(), MAXSYMLINKS)) == Found(5)
  {
    hide Resolve;
    Onward(s, ROOTINO, T(), DotDot() + [Slash()] + (X() + [Slash()] + S()), 3, MAXSYMLINKS);
    Onward(s, 3, DotDot(), X() + [Slash()] + S(), ROOTINO, MAXSYMLINKS);
    Onward(s, ROOTINO, X(), S(), 4, MAXSYMLINKS);
    assert S() + [] == S();
    NamePassed(s, 4, S(), [], 5, MAXSYMLINKS);
  }

  lemma WalkAfter(s: Setting)
    requires s.Leads(ROOTINO, T(), 5) && s.Leads(5, DotDot(), 4) && s.Searched(4) && Key(4, X()) !in s.names
    ensures s.Walk(Stop(ROOTINO, Through(), MAXSYMLINKS)) == Failed(ENOENT)
  {
    hide Resolve;
    Onward(s, ROOTINO, T(), DotDot() + [Slash()] + (X() + [Slash()] + S()), 5, MAXSYMLINKS);
    Onward(s, 5, DotDot(), X() + [Slash()] + S(), 4, MAXSYMLINKS);
    assert X() + [Slash()] + S() == X() + ([Slash()] + S());
    NameMissing(s, 4, X(), [Slash()] + S(), MAXSYMLINKS);
  }

  lemma EnteredThree()
    ensures Key(4, S()) in ThreeDirectories()
    ensures var e := Entered(ThreeDirectories(), Key(4, S()), Key(ROOTINO, T()));
      && Key(ROOTINO, T()) in e && e[Key(ROOTINO, T())] == 5
      && Key(5, DotDot()) in e && e[Key(5, DotDot())] == 4 && Key(4, X()) !in e
  {
  }

  lemma ThreeTree()
    ensures Tree(ThreeDirectories(), {ROOTINO, 3, 4, 5})
  {
    hide Tree, Conserved;
    var e0, n0 := RootNames(), map[ROOTINO := 2];
    RootValid();
    var e1, n1 := Made(e0, Key(ROOTINO, T()), 3), Bump(n0, ROOTINO, 1)[3 := 2];
    MadeValid(e0, n0, {ROOTINO}, Key(ROOTINO, T()), 3);
    var e2, n2 := Made(e1, Key(ROOTINO, X()), 4), Bump(n1, ROOTINO, 1)[4 := 2];
    MadeValid(e1, n1, {ROOTINO} + {3}, Key(ROOTINO, X()), 4);
    MadeValid(e2, n2, {ROOTINO} + {3} + {4}, Key(4, S()), 5);
    assert {ROOTINO} + {3} + {4} + {5} == {ROOTINO, 3, 4, 5};
  }

  lemma TopNotBelow(entry: Names, d: nat)
    requires Parent(entry, ROOTINO) == ROOTINO && d != ROOTINO
    ensures !OnPath(entry, d, ROOTINO)
  {
    forall n: nat
      ensures Up(entry, ROOTINO, n) != d
    {
      UpRoot(entry, n);
    }
  }
}
