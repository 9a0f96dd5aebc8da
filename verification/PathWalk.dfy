/** namei in ufs_namei.c for a LOOKUP without LOCKPARENT: the walk along a path, with its symbolic links, reference
    counts, locks and buffers. */
module PathWalk {
  import opened DiskFormat
  import opened DirEntries
  import opened NameTree

  const MAXPATHLEN := 256
  const MAXSYMLINKS := 8

  function Slash(): Byte { 0x2f }

  /** What namei looks at in i_mode: the type, and for a directory whether it may be searched. */
  datatype Kind = Directory(open: bool) | Symlink(target: Bytes) | Other

  datatype NameError = ENOENT | ENOTDIR | EACCES | ENAMETOOLONG | EINVAL | ELOOP | ENFILE

  datatype Outcome = Found(ino: nat) | Failed(e: NameError)

  /** The length of the first component of a path. */
  function NameEnd(path: Bytes): (n: nat)
    ensures n <= |path| && (n < |path| ==> path[n] == Slash())
  {
    if path == [] || path[0] == Slash() then 0 else 1 + NameEnd(path[1..])
  }

  lemma NameEndWhole(name: Bytes)
    requires forall i :: 0 <= i < |name| ==> name[i] != Slash()
    ensures NameEnd(name) == |name|
  {
    if name != [] {
      assert forall i :: 0 <= i < |name[1..]| ==> name[1..][i] == name[i + 1];
      NameEndWhole(name[1..]);
    }
  }

  function SkipSlashes(path: Bytes): (r: Bytes)
    ensures |r| <= |path| && (path != [] && path[0] == Slash() ==> |r| < |path|)
  {
    if path == [] || path[0] != Slash() then path else SkipSlashes(path[1..])
  }

  /** The first 8-bit character of a name, or its length. */
  function PlainPrefix(name: Bytes): (n: nat)
    ensures n <= |name|
  {
    if name == [] || name[0] >= 0x80 then 0 else 1 + PlainPrefix(name[1..])
  }

  /** The error for a name, whichever of too many and 8-bit characters comes first. */
  function NameProblem(name: Bytes): seq<NameError> {
    var n := PlainPrefix(name);
    if n >= MAXNAMLEN && |name| > MAXNAMLEN then [ENAMETOOLONG] else if n < |name| then [EINVAL] else []
  }

  lemma {:induction false} PlainPrefixIs(name: Bytes)
    ensures var n := PlainPrefix(name);
            (forall i :: 0 <= i < n ==> name[i] < 0x80) && (n < |name| ==> name[n] >= 0x80)
  {
    if name != [] && name[0] < 0x80 {
      PlainPrefixIs(name[1..]);
      assert forall i :: 1 <= i < |name| ==> name[i] == name[1..][i - 1];
    }
  }

  /** Names and kinds fit together: what an entry names is there. */
  ghost predicate Closed(names: Names, kinds: map<nat, Kind>) {
    forall k :: k in names ==> names[k] in kinds
  }

  datatype Turn = Done(outcome: Outcome) | Again(dp: nat, path: Bytes, links: nat)

  /** What one component of a path means, in directory dp, with at most `links` more symbolic links. */
  function OneTurn(names: Names, kinds: map<nat, Kind>, root: nat, dp: nat, path: Bytes, links: nat,
      follow: bool): (t: Turn)
    ensures t.Again? ==> t.links < links || (t.links == links && |t.path| < |path|)
  {
    var n := NameEnd(path);
    var name, rest := path[..n], path[n..];
    if dp !in kinds || !kinds[dp].Directory? then Done(Failed(ENOTDIR))
    else if !kinds[dp].open then Done(Failed(EACCES))
    else if NameProblem(name) != [] then Done(Failed(NameProblem(name)[0]))
    else if name == [] then Done(Found(dp))
    else if Key(dp, name) !in names || names[Key(dp, name)] !in kinds then Done(Failed(ENOENT))
    else
      var ip := names[Key(dp, name)];
      if kinds[ip].Symlink? && (follow || rest != []) then
        var path' := kinds[ip].target + rest;
        if |path'| + 1 >= MAXPATHLEN - 1 then Done(Failed(ENAMETOOLONG))
        else if links == 0 then Done(Failed(ELOOP))
        else if path' != [] && path'[0] == Slash() then Again(root, SkipSlashes(path'), links - 1)
        else Again(dp, path', links - 1)
      else if rest != [] then Again(ip, SkipSlashes(rest), links)
      else Done(Found(ip))
  }

  /** What a path means. */
  function Resolve(names: Names, kinds: map<nat, Kind>, root: nat, dp: nat, path: Bytes, links: nat,
      follow: bool): Outcome
    decreases links, |path|
  {
    match OneTurn(names, kinds, root, dp, path, links, follow)
    case Done(o) => o
    case Again(dp', path', links') => Resolve(names, kinds, root, dp', path', links', follow)
  }

  /** The names that the walk looks up, in order. */
  function Looked(names: Names, kinds: map<nat, Kind>, root: nat, dp: nat, path: Bytes, links: nat,
      follow: bool): seq<Key>
    decreases links, |path|
  {
    var name := path[..NameEnd(path)];
    var here := if dp in kinds && kinds[dp].Directory? && kinds[dp].open && NameProblem(name) == [] && name != []
      then [Key(dp, name)] else [];
    match OneTurn(names, kinds, root, dp, path, links, follow)
    case Done(_) => here
    case Again(dp', path', links') => here + Looked(names, kinds, root, dp', path', links', follow)
  }

  /** Every name on a way that is found is there. */
  lemma {:induction false} LookedThere(names: Names, kinds: map<nat, Kind>, root: nat, dp: nat, path: Bytes, links: nat,
      follow: bool)
    requires Resolve(names, kinds, root, dp, path, links, follow).Found?
    ensures forall k :: k in Looked(names, kinds, root, dp, path, links, follow) ==> k in names
    decreases links, |path|
  {
    match OneTurn(names, kinds, root, dp, path, links, follow)
    case Done(_) =>
    case Again(dp', path', links') => LookedThere(names, kinds, root, dp', path', links', follow);
  }

  ghost predicate SameName(names: Names, names': Names, kinds: map<nat, Kind>, kinds': map<nat, Kind>, k: Key) {
    && (k in names' <==> k in names) && SameKind(kinds, kinds', k.dir)
    && (k in names ==> names'[k] == names[k] && SameKind(kinds, kinds', names[k]))
  }

  predicate SameKind(kinds: map<nat, Kind>, kinds': map<nat, Kind>, i: nat) {
    (i in kinds' <==> i in kinds) && (i in kinds ==> kinds'[i] == kinds[i])
  }

  /** A walk depends on the names it looks up only. */
  lemma {:induction false} SameWalk(names: Names, names': Names, kinds: map<nat, Kind>, kinds': map<nat, Kind>,
      root: nat, dp: nat, path: Bytes, links: nat, follow: bool)
    requires SameKind(kinds, kinds', dp) && SameKind(kinds, kinds', root)
    requires forall k :: k in Looked(names, kinds, root, dp, path, links, follow) ==>
      SameName(names, names', kinds, kinds', k)
    ensures Resolve(names', kinds', root, dp, path, links, follow)
      == Resolve(names, kinds, root, dp, path, links, follow)
    ensures Looked(names', kinds', root, dp, path, links, follow)
      == Looked(names, kinds, root, dp, path, links, follow)
    decreases links, |path|
  {
    var name := path[..NameEnd(path)];
    if dp in kinds && kinds[dp].Directory? && kinds[dp].open && NameProblem(name) == [] && name != [] {
      assert Key(dp, name) in Looked(names, kinds, root, dp, path, links, follow);
      assert SameName(names, names', kinds, kinds', Key(dp, name));
    }
    var turn := OneTurn(names, kinds, root, dp, path, links, follow);
    assert OneTurn(names', kinds', root, dp, path, links, follow) == turn;
    if turn.Again? {
      forall k | k in Looked(names, kinds, root, turn.dp, turn.path, turn.links, follow)
        ensures SameName(names, names', kinds, kinds', k)
      {
        assert k in Looked(names, kinds, root, dp, path, links, follow);
      }
      SameWalk(names, names', kinds, kinds', root, turn.dp, turn.path, turn.links, follow);
    }
  }

  /** A walk that follows links never ends at one. */
  lemma {:induction false} FollowedIsNoLink(names: Names, kinds: map<nat, Kind>, root: nat, dp: nat,
      path: Bytes, links: nat)
    ensures var o := Resolve(names, kinds, root, dp, path, links, true);
            o.Found? ==> o.ino in kinds && !kinds[o.ino].Symlink?
    decreases links, |path|
  {
    match OneTurn(names, kinds, root, dp, path, links, true)
    case Done(o) =>
    case Again(dp', path', links') => FollowedIsNoLink(names, kinds, root, dp', path', links');
  }

  /** A link that names itself is given up, however many links are allowed. */
  lemma {:induction false} SelfLink(names: Names, kinds: map<nat, Kind>, root: nat, dp: nat, name: Bytes, links: nat)
    requires name != [] && NameProblem(name) == [] && forall i :: 0 <= i < |name| ==> name[i] != Slash()
    requires dp in kinds && kinds[dp].Directory? && kinds[dp].open
    requires Key(dp, name) in names && names[Key(dp, name)] in kinds && kinds[names[Key(dp, name)]] == Symlink(name)
    ensures Resolve(names, kinds, root, dp, name, links, true) == Failed(ELOOP)
  {
    NameEndWhole(name);
    assert name[..|name|] == name && name[|name|..] == [] && name + [] == name;
    if links > 0 {
      SelfLink(names, kinds, root, dp, name, links - 1);
    }
  }

  /** The directory or inode that is held after a turn; -1 after a failure. */
  function HeldBy(t: Turn): int {
    match t
    case Done(Found(ino)) => ino
    case Done(Failed(_)) => -1
    case Again(dp, _, _) => dp
  }

  function One(b: bool): int {
    if b then 1 else 0
  }

  /** What the path means, from a turn on. */
  function Outcomes(names: Names, kinds: map<nat, Kind>, root: nat, t: Turn, follow: bool): Outcome {
    match t
    case Done(o) => o
    case Again(dp, path, links) => Resolve(names, kinds, root, dp, path, links, follow)
  }

  /** What a turn comes to, when the inode table may be full. */
  ghost predicate TurnOk(turn: Turn, meant: Turn, full: bool) {
    turn == meant || (full && turn == Done(Failed(ENFILE)))
  }

  lemma TurnTaken(names: Names, kinds: map<nat, Kind>, root: nat, t: Turn, t': Turn, follow: bool, full: bool)
    requires t.Again? && TurnOk(t', OneTurn(names, kinds, root, t.dp, t.path, t.links, follow), full)
    ensures Outcomes(names, kinds, root, t', follow) == Outcomes(names, kinds, root, t, follow)
      || (full && t' == Done(Failed(ENFILE)))
    ensures t'.Again? ==> t'.links < t.links || (t'.links == t.links && |t'.path| < |t.path|)
  {
    hide OneTurn;
  }

  class Walker {
    const count: array<int>     // i_count of every inode
    var locked: set<nat>        // ILOCKED
    var buffers: int            // buffers that namei holds

    constructor (inodes: nat)
      ensures fresh(count) && count.Length == inodes && locked == {} && buffers == 0
    {
      count := new int[inodes](_ => 0);
      locked := {};
      buffers := 0;
    }

    /** ILOCK of an inode that is not locked: otherwise the wait would not end. */
    method Lock(ip: nat)
      requires ip !in locked
      modifies this`locked
      ensures locked == old(locked) + {ip}
    {
      locked := locked + {ip};
    }

    method Refer(ip: nat, n: int)
      requires ip < count.Length
      modifies count
      ensures forall i :: 0 <= i < count.Length ==> count[i] == old(count[i]) + if i == ip then n else 0
    {
      count[ip] := count[ip] + n;
    }

    /** iget: an inode that nobody refers to may not be in core, and then the table may be full. */
    method Iget(ip: nat, full: bool) returns (got: bool)
      requires ip < count.Length && ip !in locked
      modifies this`locked, count
      ensures !got ==> full && locked == old(locked) && count[..] == old(count[..])
      ensures got ==> locked == old(locked) + {ip}
      ensures got ==> forall i :: 0 <= i < count.Length ==> count[i] == old(count[i]) + One(i == ip)
    {
      var incore: bool := *;
      if full && count[ip] <= 0 && !incore {
        return false;
      }
      Lock(ip);
      Refer(ip, 1);
      return true;
    }

    /** The walk ends, with the outcome that the path means, unless the inode table is full. On success the returned
        inode is locked and has one more reference, on failure none has; no other lock is left, no buffer stays held,
        and no inode is waited for. */
    method Namei(names: Names, kinds: map<nat, Kind>, rootdir: nat, cdir: nat, argument: Bytes, follow: bool,
        full: bool) returns (o: Outcome)
      requires Closed(names, kinds) && locked == {} && rootdir < count.Length && cdir < count.Length
      requires forall i :: i in kinds ==> i < count.Length
      modifies this, count
      ensures |argument| >= MAXPATHLEN ==> o == Failed(ENOENT)
      ensures |argument| < MAXPATHLEN ==>
                || (full && o == Failed(ENFILE))
                || o == if argument != [] && argument[0] == Slash()
                        then Resolve(names, kinds, rootdir, rootdir, SkipSlashes(argument), MAXSYMLINKS, follow)
                        else Resolve(names, kinds, rootdir, cdir, argument, MAXSYMLINKS, follow)
      ensures forall i :: 0 <= i < count.Length ==> count[i] == old(count[i]) + One(o == Found(i))
      ensures locked == (if o.Found? then {o.ino} else {}) && buffers == old(buffers)
    {
      hide Closed, NameEnd, NameProblem, SkipSlashes, Resolve;
      if |argument| >= MAXPATHLEN {
        return Failed(ENOENT);
      }
      var path, dp := argument, cdir;
      if path != [] && path[0] == Slash() {
        path, dp := SkipSlashes(path), rootdir;
      }
      Lock(dp);
      Refer(dp, 1);
      o := Walk(names, kinds, rootdir, dp, path, follow, full);
    }

    /** The turns of namei, from a directory that is referenced and locked. */
    method Walk(names: Names, kinds: map<nat, Kind>, rootdir: nat, dp: nat, path: Bytes, follow: bool,
        full: bool) returns (o: Outcome)
      requires Closed(names, kinds) && locked == {dp} && rootdir < count.Length && dp < count.Length
      requires forall i :: i in kinds ==> i < count.Length
      modifies this, count
      ensures (full && o == Failed(ENFILE)) || o == Resolve(names, kinds, rootdir, dp, path, MAXSYMLINKS, follow)
      ensures forall i :: 0 <= i < count.Length ==> count[i] == old(count[i]) - One(i == dp) + One(o == Found(i))
      ensures locked == (if o.Found? then {o.ino} else {}) && buffers == old(buffers)
    {
      hide OneTurn, Closed, Resolve, TurnOk;
      var turn := Again(dp, path, MAXSYMLINKS);
      while turn.Again?
        invariant Outcomes(names, kinds, rootdir, turn, follow) ==
          Resolve(names, kinds, rootdir, dp, path, MAXSYMLINKS, follow)
                  || (full && turn == Done(Failed(ENFILE)))
        invariant forall i :: 0 <= i < count.Length ==>
          count[i] == old(count[i]) - One(i == dp) + One(i == HeldBy(turn))
        invariant locked == (if HeldBy(turn) >= 0 then {HeldBy(turn)} else {}) && buffers == old(buffers)
        invariant HeldBy(turn) < count.Length
        decreases turn.Again?, if turn.Again? then turn.links else 0, if turn.Again? then |turn.path| else 0
      {
        ghost var t := turn;
        turn := Component(names, kinds, rootdir, turn.dp, turn.path, turn.links, follow, full);
        TurnTaken(names, kinds, rootdir, t, turn, follow, full);
      }
      o := turn.outcome;
    }

    /** One turn through namei, from dirloop on. The directory is referenced and locked. The name is found in the
        cache, or the directory's blocks are read. */
    method Component(names: Names, kinds: map<nat, Kind>, rootdir: nat, dp: nat, path: Bytes, links: nat, follow: bool,
        full: bool) returns (turn: Turn)
      requires Closed(names, kinds) && locked == {dp} && dp < count.Length && rootdir < count.Length
      requires forall i :: i in kinds ==> i < count.Length
      modifies this, count
      ensures TurnOk(turn, OneTurn(names, kinds, rootdir, dp, path, links, follow), full) && HeldBy(turn) < count.Length
      ensures forall i :: 0 <= i < count.Length ==> count[i] == old(count[i]) - One(i == dp) + One(i == HeldBy(turn))
      ensures locked == (if HeldBy(turn) >= 0 then {HeldBy(turn)} else {}) && buffers == old(buffers)
    {
      hide NameEnd, NameProblem, SkipSlashes, Resolve;
      var n := NameEnd(path);
      var name, cp := path[..n], path[n..];
      if dp !in kinds || !kinds[dp].Directory? {
        turn := Bad(dp, false, ENOTDIR);
        return;
      }
      if !kinds[dp].open {
        turn := Bad(dp, false, EACCES);
        return;
      }
      if NameProblem(name) != [] {
        turn := Bad(dp, false, NameProblem(name)[0]);
        return;
      }
      if name == [] {
        return Done(Found(dp));
      }
      var bp := BlockAtOff();
      if Key(dp, name) !in names {
        turn := Bad(dp, bp, ENOENT);
        return;
      }
      BlockRelse(bp);
      var ip := names[Key(dp, name)];
      var got := Step(dp, ip, name == DotDot(), full);
      if !got {
        Refer(dp, -1);
        return Done(Failed(ENFILE));
      }
      // Both are referenced now; only ip is locked.
      if kinds[ip].Symlink? && (follow || cp != []) {
        turn := Follow(rootdir, dp, ip, kinds[ip].target, cp, links);
        return;
      }
      Refer(dp, -1);
      if cp == [] {
        return Done(Found(ip));
      }
      return Again(ip, SkipSlashes(cp), links);
    }

    /** blkatoff: the last block of the directory that the search has read is held; none, if the name cache has the
        name or the directory is empty. */
    method BlockAtOff() returns (bp: bool)
      modifies this`buffers
      ensures buffers == old(buffers) + One(bp)
    {
      bp := *;
      buffers := buffers + One(bp);
    }

    method BlockRelse(bp: bool)
      modifies this`buffers
      ensures buffers == old(buffers) - One(bp)
    {
      buffers := buffers - One(bp);
    }

    /** bad: the buffer and the inode are released. */
    method Bad(dp: nat, bp: bool, e: NameError) returns (turn: Turn)
      requires locked == {dp} && dp < count.Length
      modifies this, count
      ensures turn == Done(Failed(e)) && locked == {} && buffers == old(buffers) - One(bp)
      ensures forall i :: 0 <= i < count.Length ==> count[i] == old(count[i]) - One(i == dp)
    {
      BlockRelse(bp);
      Refer(dp, -1);
      locked := locked - {dp};
      turn := Done(Failed(e));
    }

    /** From a locked directory to an inode that it names: ".." is locked after the directory is unlocked, "." is
        locked already, anything else is locked before. The directory is unlocked in any case. */
    method Step(pdp: nat, ino: nat, isdotdot: bool, full: bool) returns (got: bool)
      requires locked == {pdp} && ino < count.Length
      modifies this`locked, count
      ensures got ==> locked == {ino} && forall i :: 0 <= i < count.Length ==> count[i] == old(count[i]) + One(i == ino)
      ensures !got ==> full && locked == {} && count[..] == old(count[..])
    {
      if isdotdot {
        locked := locked - {pdp};
        got := Iget(ino, full);
      } else if pdp == ino {
        Refer(ino, 1);
        got := true;
      } else {
        got := Iget(ino, full);
        locked := locked - {pdp};
      }
    }

    /** A symbolic link ip in directory pdp: what it holds is put in front of the rest of the path. */
    method Follow(rootdir: nat, pdp: nat, ip: nat, target: Bytes, cp: Bytes, links: nat) returns (turn: Turn)
      requires locked == {ip} && ip < count.Length && pdp < count.Length && rootdir < count.Length
      modifies this, count
      ensures turn == if |target| + |cp| + 1 >= MAXPATHLEN - 1 then Done(Failed(ENAMETOOLONG))
                      else if links == 0 then Done(Failed(ELOOP))
                      else if target + cp != [] && (target + cp)[0] ==
                        Slash() then Again(rootdir, SkipSlashes(target + cp), links - 1)
                      else Again(pdp, target + cp, links - 1)
      ensures forall i :: 0 <= i < count.Length ==>
        count[i] == old(count[i]) - One(i == pdp) - One(i == ip) + One(i == HeldBy(turn))
      ensures locked == (if HeldBy(turn) >= 0 then {HeldBy(turn)} else {}) && buffers == old(buffers)
    {
      if |target| + |cp| + 1 >= MAXPATHLEN - 1 {
        Refer(pdp, -1);
        turn := Bad(ip, false, ENAMETOOLONG);
        return;
      }
      if links == 0 {
        Refer(pdp, -1);
        turn := Bad(ip, false, ELOOP);
        return;
      }
      buffers := buffers + 1;      // bread of the link's block
      var path := target + cp;
      buffers := buffers - 1;
      Refer(ip, -1);
      locked := locked - {ip};
      if path != [] && path[0] == Slash() {
        Refer(pdp, -1);
        Lock(rootdir);
        Refer(rootdir, 1);
        return Again(rootdir, SkipSlashes(path), links - 1);
      }
      Lock(pdp);
      return Again(pdp, path, links - 1);
    }
  }
}
