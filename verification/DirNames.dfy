/** The entries of a directory's chunks are its part of the names of the file system: what the directory operations
    do to the bytes is what the system calls do to the names. */
module DirNames {
  import opened DirEntries
  import opened Directories
  import opened DirDots
  import opened DirFile
  import opened NameTree
  import opened TreeMoves

  ghost function NamesOf(d: nat, entries: seq<Entry>): Names {
    if entries == [] then map[]
    else
      var last := entries[|entries| - 1];
      NamesOf(d, entries[..|entries| - 1])[Key(d, last.name) := last.ino]
  }

  lemma UniqueInit(entries: seq<Entry>)
    requires UniqueNames(entries) && entries != []
    ensures var n := |entries| - 1;
      UniqueNames(entries[..n]) && forall e :: e in entries[..n] ==> e.name != entries[n].name
  {
    var n := |entries| - 1;
    forall e | e in entries[..n]
      ensures e.name != entries[n].name
    {
      var i :| 0 <= i < n && entries[..n][i] == e;
      assert entries[i].name != entries[n].name;
    }
  }

  lemma NamesOfStep(d: nat, entries: seq<Entry>)
    ensures entries == [] ==> NamesOf(d, entries) == map[]
    ensures entries != [] ==>
      var n := |entries| - 1;
      && NamesOf(d, entries) == NamesOf(d, entries[..n])[Key(d, entries[n].name) := entries[n].ino]
      && forall e :: e in entries <==> e in entries[..n] || e == entries[n]
  {
    hide NamesOf;
    if entries != [] {
      assert entries == entries[..|entries| - 1] + [entries[|entries| - 1]];
    }
    NamesOfUnfold(d, entries);
  }

  lemma NamesOfUnfold(d: nat, entries: seq<Entry>)
    ensures NamesOf(d, entries) == if entries == [] then map[]
      else NamesOf(d, entries[..|entries| - 1])[Key(d, entries[|entries| - 1].name) := entries[|entries| - 1].ino]
  {
  }

  lemma {:induction false} NamesOfEntries(d: nat, entries: seq<Entry>)
    requires UniqueNames(entries)
    ensures forall k :: k in NamesOf(d, entries) ==> k.dir == d && Entry(k.name, NamesOf(d, entries)[k]) in entries
    ensures forall e :: e in entries ==>
      Key(d, e.name) in NamesOf(d, entries) && NamesOf(d, entries)[Key(d, e.name)] == e.ino
  {
    hide NamesOf, UniqueNames;
    NamesOfStep(d, entries);
    if entries != [] {
      UniqueInit(entries);
      NamesOfEntries(d, entries[..|entries| - 1]);
    }
  }

  /** Two lists of unique names with the same entries are the same names. */
  lemma SameNames(d: nat, a: seq<Entry>, names: Names)
    requires UniqueNames(a)
    requires forall k :: k in names ==> k.dir == d && Entry(k.name, names[k]) in a
    requires forall e :: e in a ==> Key(d, e.name) in names && names[Key(d, e.name)] == e.ino
    ensures NamesOf(d, a) == names
  {
    NamesOfEntries(d, a);
    forall k
      ensures k in NamesOf(d, a) <==> k in names
      ensures k in names ==> NamesOf(d, a)[k] == names[k]
    {
      if k in names {
        assert Key(d, Entry(k.name, names[k]).name) == k;
      }
      if k in NamesOf(d, a) {
        assert Key(d, Entry(k.name, NamesOf(d, a)[k]).name) == k;
      }
    }
  }

  /** direnter adds one name, dirremove takes it back. */
  lemma InsertedName(d: nat, a: seq<Entry>, b: seq<Entry>, x: Entry)
    requires Inserted(a, b, x) && UniqueNames(b)
    ensures UniqueNames(a) && Key(d, x.name) !in NamesOf(d, a)
    ensures NamesOf(d, b) == NamesOf(d, a)[Key(d, x.name) := x.ino]
    ensures NamesOf(d, a) == NamesOf(d, b) - {Key(d, x.name)}
  {
    hide Inserted, UniqueNames, NamesOf;
    InsertedUnique(a, b, x);
    InsertedFacts(a, b, x);
    NamesOfEntries(d, a);
    Absent(d, a, x.name);
    SameNames(d, b, NamesOf(d, a)[Key(d, x.name) := x.ino]);
    assert NamesOf(d, a) == NamesOf(d, a)[Key(d, x.name) := x.ino] - {Key(d, x.name)};
  }

  lemma Absent(d: nat, a: seq<Entry>, name: Bytes)
    requires UniqueNames(a)
    ensures Key(d, name) in NamesOf(d, a) <==> Directories.Names(a, name)
  {
    NamesOfEntries(d, a);
    if Directories.Names(a, name) {
      var i :| 0 <= i < |a| && a[i].name == name;
      assert a[i] in a;
    }
    if Key(d, name) in NamesOf(d, a) {
      var e := Entry(name, NamesOf(d, a)[Key(d, name)]);
      var i :| 0 <= i < |a| && a[i] == e;
    }
  }

  /** dirrewrite gives a name another inode. */
  lemma RewrittenName(d: nat, a: seq<Entry>, b: seq<Entry>, name: Bytes, i: nat, j: nat)
    requires Rewritten(a, b, Entry(name, i), Entry(name, j)) && UniqueNames(a)
    ensures NamesOf(d, b) == NamesOf(d, a)[Key(d, name) := j]
  {
    hide UniqueNames, Inserted, NamesOf;
    RewrittenUnique(a, b, Entry(name, i), Entry(name, j));
    var rest :| WithIn(rest, a, b, Entry(name, i), Entry(name, j));
    InsertedName(d, rest, a, Entry(name, i));
    InsertedName(d, rest, b, Entry(name, j));
  }

  /** What dirempty decides on the entries is emptiness on the level of names. */
  lemma EmptyNames(d: nat, entries: seq<Entry>, parent: nat)
    requires UniqueNames(entries)
    ensures OnlyDots(entries, parent) <==> Empty(NamesOf(d, entries), d, parent)
  {
    hide NamesOf, UniqueNames;
    NamesOfEntries(d, entries);
    var names := NamesOf(d, entries);
    if OnlyDots(entries, parent) {
      forall k | k in Within(names, d)
        ensures k.name == Dot() || (k.name == DotDot() && names[k] == parent)
      {
        assert Entry(k.name, names[k]) in entries;
      }
    }
    if Empty(names, d, parent) {
      forall e | e in entries
        ensures IsDot(e, parent)
      {
        assert Key(d, e.name) in Within(names, d);
      }
    }
  }
}
