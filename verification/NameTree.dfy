/** The names of a file system as one map from (directory, name) to inode number: link counts and the tree. */
module NameTree {
  import opened DirEntries

  const ROOTINO := 2

  function Dot(): Bytes { [0x2e] }

  function DotDot(): Bytes { [0x2e, 0x2e] }

  datatype Key = Key(dir: nat, name: Bytes)

  type Names = map<Key, nat>

  predicate IsDots(name: Bytes) {
    name == Dot() || name == DotDot()
  }

  predicate Kept(entry: Names, entry': Names, k: Key) {
    (k in entry' <==> k in entry) && (k in entry ==> entry'[k] == entry[k])
  }

  // Link counts.

  /** The live entries that name inode i. */
  ghost function References(entry: Names, i: nat): set<Key> {
    set k | k in entry && entry[k] == i
  }

  ghost function Refs(entry: Names, i: nat): nat {
    |References(entry, i)|
  }

  /** i_nlink of every inode is the number of live entries naming it, "." and ".." included. */
  ghost predicate Conserved(entry: Names, nlink: map<nat, int>) {
    && (forall i :: i in nlink ==> nlink[i] == Refs(entry, i))
    && (forall k :: k in entry ==> entry[k] in nlink)
  }

  lemma RefsPut(entry: Names, k: Key, v: nat, i: nat)
    requires k !in entry
    ensures Refs(entry[k := v], i) == Refs(entry, i) + if v == i then 1 else 0
  {
    if v == i {
      assert References(entry[k := v], i) == References(entry, i) + {k};
    } else {
      assert References(entry[k := v], i) == References(entry, i);
    }
  }

  lemma RefsDrop(entry: Names, k: Key, i: nat)
    requires k in entry
    ensures Refs(entry - {k}, i) == Refs(entry, i) - if entry[k] == i then 1 else 0
  {
    if entry[k] == i {
      assert References(entry, i) == References(entry - {k}, i) + {k};
    } else {
      assert References(entry - {k}, i) == References(entry, i);
    }
  }

  /** Counts after one inode's count has changed by n. */
  function Bump(nlink: map<nat, int>, i: nat, n: int): (r: map<nat, int>)
    requires i in nlink
    ensures r.Keys == nlink.Keys
  {
    nlink[i := nlink[i] + n]
  }

  lemma ConservedPut(entry: Names, nlink: map<nat, int>, k: Key, v: nat)
    requires Conserved(entry, nlink) && k !in entry && v in nlink
    ensures Conserved(entry[k := v], Bump(nlink, v, 1))
  {
    forall i | i in nlink
      ensures Bump(nlink, v, 1)[i] == Refs(entry[k := v], i)
    {
      RefsPut(entry, k, v, i);
    }
  }

  lemma ConservedDrop(entry: Names, nlink: map<nat, int>, k: Key)
    requires Conserved(entry, nlink) && k in entry
    ensures Conserved(entry - {k}, Bump(nlink, entry[k], -1))
  {
    forall i | i in nlink
      ensures Bump(nlink, entry[k], -1)[i] == Refs(entry - {k}, i)
    {
      RefsDrop(entry, k, i);
    }
  }

  /** An entry now names another inode. */
  lemma ConservedReplace(entry: Names, nlink: map<nat, int>, k: Key, v: nat)
    requires Conserved(entry, nlink) && k in entry && v in nlink
    ensures Conserved(entry[k := v], Bump(Bump(nlink, entry[k], -1), v, 1))
  {
    ConservedDrop(entry, nlink, k);
    ConservedPut(entry - {k}, Bump(nlink, entry[k], -1), k, v);
    assert entry[k := v] == (entry - {k})[k := v];
  }

  /** A new inode that no entry names. */
  lemma ConservedNew(entry: Names, nlink: map<nat, int>, i: nat)
    requires Conserved(entry, nlink) && i !in nlink
    ensures Conserved(entry, nlink[i := 0])
  {
    assert References(entry, i) == {};
  }

  /** An inode that no entry names is freed. */
  lemma ConservedFree(entry: Names, nlink: map<nat, int>, i: nat)
    requires Conserved(entry, nlink) && i in nlink && nlink[i] == 0
    ensures Conserved(entry, nlink - {i})
  {
    assert References(entry, i) == {};
    assert forall k :: k in entry && entry[k] == i ==> k in References(entry, i);
  }

  /** Counts are a function of the entries: no other counts are right. */
  lemma ConservedUnique(entry: Names, nlink: map<nat, int>, other: map<nat, int>)
    requires Conserved(entry, nlink) && Conserved(entry, other) && nlink.Keys == other.Keys
    ensures nlink == other
  {
    forall i | i in nlink
      ensures nlink[i] == other[i]
    {
      assert i in other;
    }
  }

  // The tree.

  function Parent(entry: Names, d: nat): nat {
    if Key(d, DotDot()) in entry then entry[Key(d, DotDot())] else d
  }

  /** The directory n levels up. */
  function Up(entry: Names, d: nat, n: nat): nat
    decreases n
  {
    if n == 0 then d else Up(entry, Parent(entry, d), n - 1)
  }

  ghost predicate OnPath(entry: Names, source: nat, target: nat) {
    exists n: nat :: Up(entry, target, n) == source
  }

  /** An entry other than "." and "..". */
  predicate Named(entry: Names, k: Key, i: nat) {
    k in entry && entry[k] == i && !IsDots(k.name)
  }

  /** "." and ".." of every directory, and no entries anywhere else. */
  ghost predicate Dots(entry: Names, dirs: set<nat>) {
    && (forall k :: k in entry ==> k.dir in dirs)
    && (forall d :: d in dirs ==> Key(d, Dot()) in entry && entry[Key(d, Dot())] == d)
    && (forall d :: d in dirs ==> Key(d, DotDot()) in entry && Parent(entry, d) in dirs)
  }

  /** k is the one name of directory d, and the ".." of d is the directory that holds it. */
  ghost predicate NameOf(entry: Names, d: nat, k: Key) {
    Named(entry, k, d) && Parent(entry, d) == k.dir && forall j :: Named(entry, j, d) ==> j == k
  }

  ghost predicate Nameless(entry: Names, d: nat) {
    forall k :: !Named(entry, k, d)
  }

  /** Every directory but the root has one name. */
  ghost predicate OneName(entry: Names, dirs: set<nat>) {
    Nameless(entry, ROOTINO) && forall d :: d in dirs && d != ROOTINO ==> exists k :: NameOf(entry, d, k)
  }

  /** Every directory reaches the root by "..". */
  ghost predicate Rooted(entry: Names, dirs: set<nat>) {
    forall d :: d in dirs ==> OnPath(entry, ROOTINO, d)
  }

  ghost predicate Tree(entry: Names, dirs: set<nat>) {
    && ROOTINO in dirs && Parent(entry, ROOTINO) == ROOTINO
    && Dots(entry, dirs) && OneName(entry, dirs) && Rooted(entry, dirs)
  }

  lemma {:induction false} UpNext(entry: Names, d: nat, n: nat)
    ensures Up(entry, d, n + 1) == Parent(entry, Up(entry, d, n))
    decreases n
  {
    if n > 0 {
      UpNext(entry, Parent(entry, d), n - 1);
    }
  }

  lemma {:induction false} UpRoot(entry: Names, n: nat)
    requires Parent(entry, ROOTINO) == ROOTINO
    ensures Up(entry, ROOTINO, n) == ROOTINO
  {
    if n > 0 {
      UpRoot(entry, n - 1);
    }
  }

  lemma {:induction false} UpTwice(entry: Names, d: nat, m: nat, n: nat)
    ensures Up(entry, d, m + n) == Up(entry, Up(entry, d, m), n)
    decreases m
  {
    if m > 0 {
      UpTwice(entry, Parent(entry, d), m - 1, n);
    }
  }

  /** Entries other than ".." do not matter for the way up. */
  lemma {:induction false} UpSame(entry: Names, entry': Names, d: nat, n: nat)
    requires forall x :: Parent(entry', x) == Parent(entry, x)
    ensures Up(entry', d, n) == Up(entry, d, n)
    decreases n
  {
    if n > 0 {
      UpSame(entry, entry', Parent(entry, d), n - 1);
    }
  }

  lemma RootedSame(entry: Names, entry': Names, dirs: set<nat>)
    requires Rooted(entry, dirs) && forall x :: Parent(entry', x) == Parent(entry, x)
    ensures Rooted(entry', dirs)
  {
    forall d | d in dirs
      ensures OnPath(entry', ROOTINO, d)
    {
      var n: nat :| Up(entry, d, n) == ROOTINO;
      UpSame(entry, entry', d, n);
    }
  }

  /** What does not pass through ip goes up the same way when ip's ".." changes. */
  lemma {:induction false} UpAround(entry: Names, entry': Names, ip: nat, x: nat, n: nat)
    requires forall y :: y != ip ==> Parent(entry', y) == Parent(entry, y)
    requires !OnPath(entry, ip, x)
    ensures Up(entry', x, n) == Up(entry, x, n)
    decreases n
  {
    assert Up(entry, x, 0) != ip;
    if n > 0 {
      forall m: nat
        ensures Up(entry, Parent(entry, x), m) != ip
      {
        assert Up(entry, x, m + 1) != ip;
      }
      UpAround(entry, entry', ip, Parent(entry, x), n - 1);
    }
  }

  /** The way to the root of a directory after ip has been moved below np. */
  lemma {:induction false} UpMoved(entry: Names, entry': Names, ip: nat, np: nat, d: nat, m: nat)
    requires forall y :: y != ip ==> Parent(entry', y) == Parent(entry, y)
    requires Parent(entry', ip) == np && !OnPath(entry, ip, np) && OnPath(entry, ROOTINO, np)
    requires Up(entry, d, m) == ROOTINO && ip != ROOTINO
    ensures OnPath(entry', ROOTINO, d)
    decreases m
  {
    if d == ip {
      var n: nat :| Up(entry, np, n) == ROOTINO;
      UpAround(entry, entry', ip, np, n);
      assert Up(entry', d, n + 1) == ROOTINO;
    } else if m > 0 {
      UpMoved(entry, entry', ip, np, Parent(entry, d), m - 1);
      var n: nat :| Up(entry', Parent(entry, d), n) == ROOTINO;
      assert Up(entry', d, n + 1) == ROOTINO;
    } else {
      assert Up(entry', d, 0) == ROOTINO;
    }
  }

  /** A directory moved below one of its own descendants, or itself, no longer reaches the root: the condition
      that checkpath tests is necessary. */
  lemma MovedBelowItself(entry: Names, entry': Names, ip: nat, np: nat)
    requires Parent(entry', ip) == np && forall y :: y != ip ==> Parent(entry', y) == Parent(entry, y)
    requires OnPath(entry, ip, np) && ip != ROOTINO
    requires Parent(entry, ROOTINO) == ROOTINO
    ensures !OnPath(entry', ROOTINO, ip)
  {
    var m: nat :| Up(entry, np, m) == ip;
    forall n: nat
      ensures Up(entry', ip, n) != ROOTINO
    {
      LoopAt(entry, entry', ip, np, m, ip, 0, n);
    }
  }

  /** x lies k levels above np, below ip or at it, or is ip; so does everything above it. */
  lemma {:induction false} LoopAt(entry: Names, entry': Names, ip: nat, np: nat, m: nat, x: nat, k: nat, n: nat)
    requires Parent(entry', ip) == np && forall y :: y != ip ==> Parent(entry', y) == Parent(entry, y)
    requires Up(entry, np, m) == ip && ip != ROOTINO && Parent(entry, ROOTINO) == ROOTINO
    requires x == ip || (k <= m && x == Up(entry, np, k))
    ensures Up(entry', x, n) != ROOTINO
    decreases n
  {
    if x == ROOTINO {
      UpTwice(entry, np, k, m - k);
      UpRoot(entry, m - k);
      assert false;
    }
    if n > 0 {
      if x == ip {
        LoopAt(entry, entry', ip, np, m, np, 0, n - 1);
      } else {
        if k == m {
          assert false;
        }
        UpNext(entry, np, k);
        LoopAt(entry, entry', ip, np, m, Parent(entry, x), k + 1, n - 1);
      }
    }
  }
}
