/** What a path means, in terms of its names: the laws of a walk that meets a name with the rest of the path behind it,
    and the ways through the directories that end at what the walk finds. */
module PathMeaning {
  import opened DirEntries
  import opened NameTree
  import opened PathWalk

  /** A path is its first name, without a slash, and the rest, which starts with one. */
  predicate Splits(path: Bytes, name: Bytes, rest: Bytes) {
    path == name + rest && Slash() !in name && (rest == [] || rest[0] == Slash())
  }

  lemma {:induction false} SplitUnique(path: Bytes, name: Bytes, rest: Bytes)
    requires Splits(path, name, rest)
    ensures NameEnd(path) == |name| && path[..|name|] == name && path[|name|..] == rest
  {
    if name != [] {
      assert path[0] == name[0] && name[0] in name;
      assert Splits(path[1..], name[1..], rest);
      SplitUnique(path[1..], name[1..], rest);
    }
  }

  lemma {:induction false} Split(path: Bytes)
    ensures Splits(path, path[..NameEnd(path)], path[NameEnd(path)..])
  {
    if path != [] && path[0] != Slash() {
      Split(path[1..]);
      assert path[..NameEnd(path)] == [path[0]] + path[1..][..NameEnd(path[1..])];
    }
  }

  /** r is the path without the slashes in front. */
  predicate Stripped(path: Bytes, r: Bytes) {
    && |r| <= |path| && path[|path| - |r|..] == r && (r == [] || r[0] != Slash())
    && forall i :: 0 <= i < |path| - |r| ==> path[i] == Slash()
  }

  lemma {:induction false} StrippedIs(path: Bytes, r: Bytes)
    ensures Stripped(path, r) <==> r == SkipSlashes(path)
  {
    if path != [] && path[0] == Slash() {
      StrippedIs(path[1..], r);
      assert Stripped(path, r) ==> |r| < |path| && Stripped(path[1..], r);
      assert Stripped(path[1..], r) ==> forall i :: 1 <= i < |path| - |r| ==> path[i] == path[1..][i - 1];
    } else if Stripped(path, r) {
      assert |r| == |path|;
    }
  }

  ghost predicate Plain(name: Bytes, n: nat)
    requires n <= |name|
  {
    forall i :: 0 <= i < n ==> name[i] < 0x80
  }

  ghost predicate Good(name: Bytes) {
    |name| <= MAXNAMLEN && Plain(name, |name|)
  }

  /** Too many characters, and no 8-bit one among those that fit. */
  ghost predicate TooLong(name: Bytes) {
    |name| > MAXNAMLEN && Plain(name, MAXNAMLEN)
  }

  /** The error for a name is that of the first character at fault. */
  lemma NameProblemIs(name: Bytes)
    ensures NameProblem(name) == if Good(name) then [] else if TooLong(name) then [ENAMETOOLONG] else [EINVAL]
  {
    PlainPrefixIs(name);
  }

  /** Where the names are and how the walk goes. */
  datatype Setting = Setting(names: Names, kinds: map<nat, Kind>, root: nat, follow: bool) {
    function Walk(a: Stop): Outcome {
      Resolve(names, kinds, root, a.dir, a.path, a.links, follow)
    }

    function Turn(a: Stop): Turn {
      OneTurn(names, kinds, root, a.dir, a.path, a.links, follow)
    }

    predicate Searched(dir: nat) {
      dir in kinds && kinds[dir] == Directory(true)
    }

    /** A directory that may be searched has the name, for inode ip. */
    ghost predicate Leads(dir: nat, name: Bytes, ip: nat) {
      Searched(dir) && name != [] && Good(name) && Key(dir, name) in names && names[Key(dir, name)] == ip && ip in kinds
    }

    /** A link is followed if the walk follows links or the path goes on behind it. */
    predicate Expands(ip: nat, rest: Bytes) {
      ip in kinds && kinds[ip].Symlink? && (follow || rest != [])
    }
  }

  /** A point on the way: a directory, what is left of the path, and how many more links may be followed. */
  datatype Stop = Stop(dir: nat, path: Bytes, links: nat)

  /** A path read anew: from the root if it starts with a slash, from the directory otherwise. */
  function Restart(root: nat, dir: nat, path: Bytes, links: nat): Stop {
    if path != [] && path[0] == Slash() then Stop(root, SkipSlashes(path), links) else Stop(dir, path, links)
  }

  // The laws of one name.

  /** What is behind a link stays behind what the link holds. */
  lemma LinkExpanded(s: Setting, dir: nat, name: Bytes, rest: Bytes, ip: nat, links: nat)
    requires s.Leads(dir, name, ip) && s.Expands(ip, rest) && Splits(name + rest, name, rest)
    ensures var path := s.kinds[ip].target + rest;
            s.Walk(Stop(dir, name + rest, links)) ==
              if |path| + 1 >= MAXPATHLEN - 1 then Failed(ENAMETOOLONG)
              else if links == 0 then Failed(ELOOP)
              else s.Walk(Restart(s.root, dir, path, links - 1))
  {
    SplitUnique(name + rest, name, rest);
    NameProblemIs(name);
  }

  /** Behind anything else the walk goes on from there, if the path does. */
  lemma NamePassed(s: Setting, dir: nat, name: Bytes, rest: Bytes, ip: nat, links: nat)
    requires s.Leads(dir, name, ip) && !s.Expands(ip, rest) && Splits(name + rest, name, rest)
    ensures s.Walk(Stop(dir, name + rest, links))
      == if rest == [] then Found(ip) else s.Walk(Stop(ip, SkipSlashes(rest), links))
  {
    SplitUnique(name + rest, name, rest);
    NameProblemIs(name);
  }

  /** A name that is not there. */
  lemma NameMissing(s: Setting, dir: nat, name: Bytes, rest: Bytes, links: nat)
    requires s.Searched(dir) && name != [] && Good(name) && Key(dir, name) !in s.names
    requires Splits(name + rest, name, rest)
    ensures s.Walk(Stop(dir, name + rest, links)) == Failed(ENOENT)
  {
    SplitUnique(name + rest, name, rest);
    NameProblemIs(name);
  }

  /** Through a directory to what is behind the slash. */
  lemma Onward(s: Setting, dir: nat, name: Bytes, more: Bytes, ip: nat, links: nat)
    requires s.Leads(dir, name, ip) && s.Searched(ip) && Slash() !in name && more != [] && more[0] != Slash()
    ensures s.Walk(Stop(dir, name + [Slash()] + more, links)) == s.Walk(Stop(ip, more, links))
  {
    var rest := [Slash()] + more;
    assert name + [Slash()] + more == name + rest;
    NamePassed(s, dir, name, rest, ip, links);
    StrippedIs(rest, more);
  }

  // The way of a walk.

  /** From a to b by one name. */
  ghost predicate Passes(s: Setting, a: Stop, b: Stop, name: Bytes, rest: Bytes, ip: nat) {
    && Splits(a.path, name, rest) && s.Leads(a.dir, name, ip)
    && if s.Expands(ip, rest) then
         var path := s.kinds[ip].target + rest;
         && |path| + 1 < MAXPATHLEN - 1 && a.links == b.links + 1
         && if path != [] && path[0] == Slash() then b.dir == s.root && Stripped(path, b.path)
            else b.dir == a.dir && b.path == path
       else
         rest != [] && b.dir == ip && Stripped(rest, b.path) && b.links == a.links
  }

  ghost predicate Follows(s: Setting, a: Stop, b: Stop) {
    exists name, rest, ip :: Passes(s, a, b, name, rest, ip)
  }

  /** The way ends at a with the name for the outcome. */
  ghost predicate Stops(s: Setting, a: Stop, o: Outcome, name: Bytes, rest: Bytes) {
    && s.Searched(a.dir) && Splits(a.path, name, rest)
    && match o
       case Found(i) => if name == [] then i == a.dir else s.Leads(a.dir, name, i) && rest == [] && !s.Expands(i, rest)
       case Failed(EINVAL) => !Good(name) && !TooLong(name)
       case Failed(ENAMETOOLONG) => TooLong(name) || exists ip :: s.Leads(a.dir, name, ip) && Overflows(s, ip, rest)
       case Failed(ELOOP) =>
         a.links == 0 && exists ip :: s.Leads(a.dir, name, ip) && s.Expands(ip, rest) && !Overflows(s, ip, rest)
       case Failed(ENOENT) => name != [] && Good(name) && !exists ip :: s.Leads(a.dir, name, ip)
       case Failed(_) => false
  }

  ghost predicate Overflows(s: Setting, ip: nat, rest: Bytes) {
    s.Expands(ip, rest) && |s.kinds[ip].target| + |rest| + 1 >= MAXPATHLEN - 1
  }

  ghost predicate Ends(s: Setting, a: Stop, o: Outcome) {
    if a.dir !in s.kinds || !s.kinds[a.dir].Directory? then o == Failed(ENOTDIR)
    else if !s.kinds[a.dir].open then o == Failed(EACCES)
    else exists name, rest :: Stops(s, a, o, name, rest)
  }

  /** A way from a, name by name, to a point where it ends with the outcome. */
  ghost predicate Way(s: Setting, a: Stop, stops: seq<Stop>, o: Outcome) {
    && stops != [] && stops[0] == a && Ends(s, stops[|stops| - 1], o)
    && forall i :: 0 <= i < |stops| - 1 ==> Follows(s, stops[i], stops[i + 1])
  }

  lemma TurnPasses(s: Setting, a: Stop, b: Stop, name: Bytes, rest: Bytes)
    requires Splits(a.path, name, rest)
    ensures s.Turn(a) == Again(b.dir, b.path, b.links) <==> exists ip :: Passes(s, a, b, name, rest, ip)
  {
    hide NameEnd, SkipSlashes, NameProblem, Stripped, Plain;
    SplitUnique(a.path, name, rest);
    NameProblemIs(name);
    StrippedIs(rest, b.path);
    if s.Searched(a.dir) && name != [] && Good(name) && Key(a.dir, name) in s.names {
      var ip := s.names[Key(a.dir, name)];
      if s.Expands(ip, rest) {
        StrippedIs(s.kinds[ip].target + rest, b.path);
      }
      assert Passes(s, a, b, name, rest, ip) || !exists i :: Passes(s, a, b, name, rest, i);
    }
  }

  lemma PassesUnique(s: Setting, a: Stop, b: Stop, name: Bytes, rest: Bytes, ip: nat)
    requires Passes(s, a, b, name, rest, ip)
    ensures name == a.path[..NameEnd(a.path)] && rest == a.path[NameEnd(a.path)..]
  {
    SplitUnique(a.path, name, rest);
  }

  lemma StopsUnique(s: Setting, a: Stop, o: Outcome, name: Bytes, rest: Bytes)
    requires Stops(s, a, o, name, rest)
    ensures name == a.path[..NameEnd(a.path)] && rest == a.path[NameEnd(a.path)..]
  {
    SplitUnique(a.path, name, rest);
  }

  lemma TurnFollows(s: Setting, a: Stop, b: Stop)
    ensures s.Turn(a) == Again(b.dir, b.path, b.links) <==> Follows(s, a, b)
  {
    hide OneTurn, Passes;
    var name, rest := a.path[..NameEnd(a.path)], a.path[NameEnd(a.path)..];
    Split(a.path);
    TurnPasses(s, a, b, name, rest);
    if Follows(s, a, b) {
      var name', rest', ip :| Passes(s, a, b, name', rest', ip);
      PassesUnique(s, a, b, name', rest', ip);
    }
  }

  lemma TurnStops(s: Setting, a: Stop, o: Outcome, name: Bytes, rest: Bytes)
    requires s.Searched(a.dir) && Splits(a.path, name, rest)
    ensures s.Turn(a) == Done(o) <==> Stops(s, a, o, name, rest)
  {
    hide NameEnd, SkipSlashes, NameProblem;
    SplitUnique(a.path, name, rest);
    NameProblemIs(name);
    if name != [] && Good(name) && Key(a.dir, name) in s.names && s.names[Key(a.dir, name)] in s.kinds {
      assert s.Leads(a.dir, name, s.names[Key(a.dir, name)]);
    }
  }

  lemma TurnEnds(s: Setting, a: Stop, o: Outcome)
    ensures s.Turn(a) == Done(o) <==> Ends(s, a, o)
  {
    if s.Searched(a.dir) {
      hide OneTurn, Stops;
      var name, rest := a.path[..NameEnd(a.path)], a.path[NameEnd(a.path)..];
      Split(a.path);
      TurnStops(s, a, o, name, rest);
      if Ends(s, a, o) {
        var name', rest' :| Stops(s, a, o, name', rest');
        StopsUnique(s, a, o, name', rest');
      }
    }
  }

  /** A walk comes to an outcome if and only if there is a way to it. */
  lemma WalkIsWay(s: Setting, a: Stop, o: Outcome)
    ensures s.Walk(a) == o <==> exists stops :: Way(s, a, stops, o)
  {
    var stops := WayThere(s, a);
    if stops' :| Way(s, a, stops', o) {
      OneOutcome(s, a, stops', o);
    }
  }

  lemma {:induction false} WayThere(s: Setting, a: Stop) returns (stops: seq<Stop>)
    ensures Way(s, a, stops, s.Walk(a))
    decreases a.links, |a.path|
  {
    hide Follows, Ends, OneTurn;
    match s.Turn(a)
    case Done(o) =>
      TurnEnds(s, a, o);
      stops := [a];
    case Again(dir, path, links) =>
      var b := Stop(dir, path, links);
      TurnFollows(s, a, b);
      var more := WayThere(s, b);
      stops := [a] + more;
      forall i | 0 <= i < |stops| - 1
        ensures Follows(s, stops[i], stops[i + 1])
      {
        assert i > 0 ==> Follows(s, more[i - 1], more[i - 1 + 1]);
      }
  }

  lemma {:induction false} OneOutcome(s: Setting, a: Stop, stops: seq<Stop>, o: Outcome)
    requires Way(s, a, stops, o)
    ensures s.Walk(a) == o
    decreases |stops|
  {
    hide Follows, Ends, OneTurn;
    if |stops| == 1 {
      TurnEnds(s, a, o);
    } else {
      TurnFollows(s, a, stops[1]);
      forall i | 0 <= i < |stops[1..]| - 1
        ensures Follows(s, stops[1..][i], stops[1..][i + 1])
      {
        assert Follows(s, stops[i + 1], stops[i + 1 + 1]);
      }
      OneOutcome(s, stops[1], stops[1..], o);
    }
  }

  /** In the root are a link l to d and a directory d with a file f: l/f is the file, whether or not links are followed;
      l is the link or the directory. */
  lemma BehindLink(s: Setting, l: Bytes, d: Bytes, f: Bytes)
    requires l == [0x6c] && d == [0x64] && f == [0x66]
    requires s.Leads(2, l, 5) && s.Leads(2, d, 3) && s.Leads(3, f, 4)
    requires s.kinds[5] == Symlink(d) && s.Searched(3) && s.kinds[4] == Other
    ensures s.Walk(Stop(2, l + [Slash()] + f, MAXSYMLINKS)) == Found(4)
    ensures s.Walk(Stop(2, l, MAXSYMLINKS)) == Found(if s.follow then 3 else 5)
  {
    hide Resolve;
    var rest := [Slash()] + f;
    LinkExpanded(s, 2, l, rest, 5, MAXSYMLINKS);
    assert l + [Slash()] + f == l + rest && d + [Slash()] + f == d + rest;
    Onward(s, 2, d, f, 3, MAXSYMLINKS - 1);
    assert l + [] == l && d + [] == d && f + [] == f;
    NamePassed(s, 3, f, [], 4, MAXSYMLINKS - 1);
    if s.follow {
      LinkExpanded(s, 2, l, [], 5, MAXSYMLINKS);
      NamePassed(s, 2, d, [], 3, MAXSYMLINKS - 1);
    } else {
      NamePassed(s, 2, l, [], 5, MAXSYMLINKS);
    }
  }
}
