/** direnter's compaction of a directory chunk in the buffer of its block: the records of a region are copied
    together towards its start, and the new entry gets what is free. */
module Compaction {
  import opened DiskFormat
  import opened DirEntries

  /** The state of direnter's loop over the region [b, e) of a buffer that held o: records up to loc have been
      taken; those that are live, but for the last one, lie without gaps in [b, ep), and the last one taken has
      been copied to ep with its old record length. */
  ghost predicate Compacting(o: Bytes, s: Bytes, b: nat, e: nat, ep: nat, loc: nat) {
    && |s| == |o| && b <= ep < loc <= e <= |s|
    && s[..b] == o[..b] && s[loc..] == o[loc..]
    && Tiled(o, b, loc) && Tiled(o, loc, e)
    && Tiled(s, b, ep) && Room(s, b, ep) == 0
    && NamLen(s, ep) <= MAXNAMLEN && ep + DirSiz(NamLen(s, ep)) <= loc
    && Live(o, b, loc) == Live(s, b, ep) + Here(s, ep)
    && Room(o, b, loc) == loc - ep - Used(s, ep)
  }

  lemma CompactingStart(o: Bytes, b: nat, e: nat)
    requires Tiled(o, b, e) && b < e
    ensures SlotOk(o, b, e) && Compacting(o, o, b, e, b, b + RecLen(o, b))
  {
    hide Tiled, Live, Room, Used, Here;
    TiledStep(o, b, e);
    TiledStep(o, b, b);
    OneSlot(o, b);
    assert [] + Here(o, b) == Here(o, b);
  }

  /** The record at ep, if it is live, is cut to what it needs. */
  function Trim(s: Bytes, ep: nat): (t: Bytes)
    ensures |t| == |s|
  {
    if Ino(s, ep) != 0 && ep + 4 <= |s| && DirSiz(NamLen(s, ep)) < 0x1_0000 then
      Paste(s, ep + 2, Short2(DirSiz(NamLen(s, ep))))
    else s
  }

  /** Trimming: the record at ep gives up the space behind it. */
  lemma Trimmed(s: Bytes, b: nat, ep: nat)
    requires Tiled(s, b, ep) && Room(s, b, ep) == 0 && NamLen(s, ep) <= MAXNAMLEN && Ino(s, ep) != 0
    requires ep + DirSiz(NamLen(s, ep)) <= |s|
    ensures var d := DirSiz(NamLen(s, ep));
            var t := Paste(s, ep + 2, Short2(d));
            && Tiled(t, b, ep + d) && Room(t, b, ep + d) == 0
            && Live(t, b, ep + d) == Live(s, b, ep) + Here(s, ep)
  {
    hide Tiled, Live, Room, Used, Here, Paste, Ino, RecLen, NamLen, Name;
    var d := DirSiz(NamLen(s, ep));
    var t := Paste(s, ep + 2, Short2(d));
    TiledSize(s, b, ep);
    Relength(s, ep, d);
    PasteFrame(s, ep + 2, Short2(d), b, ep);
    Moved(s, b, t, b, ep - b);
    UsedLive(t, ep);
    OneSlot(t, ep);
    Join(t, b, ep, ep + d);
  }

  lemma UsedLive(s: Bytes, p: nat)
    ensures Used(s, p) == if Ino(s, p) == 0 then 0 else DirSiz(NamLen(s, p))
    ensures Ino(s, p) == 0 ==> Here(s, p) == []
  {
  }

  /** bcopy of the record at loc down to ep: its header and name arrive, and what lies outside stays. */
  lemma Copied(s: Bytes, b: nat, ep: nat, loc: nat, e: nat)
    requires Tiled(s, b, ep) && ep <= loc && SlotOk(s, loc, e) && e <= |s|
    ensures var d := DirSiz(NamLen(s, loc));
            var t := Paste(s, ep, s[loc..loc + d]);
            && |t| == |s| && t[..b] == s[..b] && t[loc + RecLen(s, loc)..] == s[loc + RecLen(s, loc)..]
            && Tiled(t, b, ep) && Room(t, b, ep) == Room(s, b, ep) && Live(t, b, ep) == Live(s, b, ep)
            && Here(t, ep) == Here(s, loc) && Used(t, ep) == Used(s, loc) && NamLen(t, ep) == NamLen(s, loc)
                  && RecLen(t, ep) == RecLen(s, loc)
  {
    hide Tiled, Live, Room, Used, Here, Paste, Ino, RecLen, NamLen, Name;
    var d, next := DirSiz(NamLen(s, loc)), loc + RecLen(s, loc);
    var bytes := s[loc..loc + d];
    var t := Paste(s, ep, bytes);
    TiledSize(s, b, ep);
    PasteParts(s, ep, bytes);
    PasteOutside(s, ep, bytes, b, next);
    PasteFrame(s, ep, bytes, b, ep);
    Moved(s, b, t, b, ep - b);
    HeaderMoved(s, loc, t, ep, d);
  }

  /** Before the next record is taken, what was taken before lies without gaps in front of it. */
  lemma Gapless(o: Bytes, s: Bytes, b: nat, e: nat, ep: nat, loc: nat)
    requires Compacting(o, s, b, e, ep, loc)
    ensures var t, at := Trim(s, ep), ep + Used(s, ep);
            && |t| == |o| && b <= at <= loc && t[..b] == o[..b] && t[loc..] == o[loc..]
            && Tiled(t, b, at) && Room(t, b, at) == 0 && Live(t, b, at) == Live(o, b, loc)
            && Room(o, b, loc) == loc - at
  {
    hide Tiled, Live, Room, Used, Here, Paste, Ino, RecLen, NamLen, Name;
    TrimLive(s, ep);
    TrimFrame(s, b, ep, loc);
    UsedLive(s, ep);
    hide Trim;
    if Ino(s, ep) != 0 {
      Trimmed(s, b, ep);
    } else {
      assert Live(s, b, ep) + [] == Live(s, b, ep);
    }
  }

  lemma TrimFrame(s: Bytes, b: nat, ep: nat, loc: nat)
    requires b <= ep && ep + 4 <= loc <= |s|
    ensures Trim(s, ep)[..b] == s[..b] && Trim(s, ep)[loc..] == s[loc..]
  {
    hide Ino, NamLen, Paste;
    if Ino(s, ep) != 0 && DirSiz(NamLen(s, ep)) < 0x1_0000 {
      PasteOutside(s, ep + 2, Short2(DirSiz(NamLen(s, ep))), b, loc);
    }
  }

  /** One turn of the loop. */
  lemma CompactingStep(o: Bytes, s: Bytes, b: nat, e: nat, ep: nat, loc: nat)
    requires Compacting(o, s, b, e, ep, loc) && loc < e
    ensures SlotOk(o, loc, e) && SlotOk(Trim(s, ep), loc, e) && ep + Used(s, ep) <= loc
    ensures NamLen(Trim(s, ep), loc) == NamLen(o, loc) && RecLen(Trim(s, ep), loc) == RecLen(o, loc)
    ensures var t, at := Trim(s, ep), ep + Used(s, ep);
            var u := Paste(t, at, t[loc..loc + DirSiz(NamLen(t, loc))]);
            Compacting(o, u, b, e, at, loc + RecLen(o, loc)) && NamLen(u, at) == NamLen(t, loc)
  {
    hide Tiled, Live, Room, Used, Here, Paste, Ino, RecLen, NamLen, Name, Trim;
    var t, at := Trim(s, ep), ep + Used(s, ep);
    Gapless(o, s, b, e, ep, loc);
    TiledStep(o, loc, e);
    SameTail(o, t, loc, e);
    Copied(t, b, at, loc, e);
    var next := loc + RecLen(o, loc);
    var u := Paste(t, at, t[loc..loc + DirSiz(NamLen(t, loc))]);
    OneSlot(o, loc);
    Join(o, b, loc, next);
    assert u[next..] == t[next..] == t[loc..][next - loc..] == o[loc..][next - loc..] == o[next..];
  }

  /** The record at loc reads the same where the rest of the buffer is the same. */
  lemma SameTail(o: Bytes, s: Bytes, loc: nat, e: nat)
    requires SlotOk(o, loc, e) && |s| == |o| && loc <= |s| && s[loc..] == o[loc..]
    ensures SlotOk(s, loc, e) && RecLen(s, loc) == RecLen(o, loc) && NamLen(s, loc) == NamLen(o, loc)
    ensures Here(s, loc) == Here(o, loc) && Used(s, loc) == Used(o, loc)
  {
    hide Used, Here, Ino, RecLen, NamLen, Name;
    HeaderMoved(o, loc, s, loc, |o| - loc);
  }

  /** A region [b, e) before and after an entry was put into its free space; its first record is in use. */
  ghost predicate Entered(o: Bytes, s: Bytes, b: nat, e: nat, added: Entry) {
    && b <= e <= |o| == |s| && s[..b] == o[..b] && s[e..] == o[e..]
    && Tiled(s, b, e) && Ino(s, b) != 0
    && Live(s, b, e) == Live(o, b, e) + [added]
    && Room(s, b, e) == Room(o, b, e) - DirSiz(|added.name|)
  }

  /** After the loop: the free space follows the last record, and suffices exactly when the region had room.
      The "wdir: compact" panics are the two cases in which it would not. */
  lemma CompactingEnd(o: Bytes, s: Bytes, b: nat, e: nat, ep: nat, need: nat)
    requires Compacting(o, s, b, e, ep, e)
    ensures e - (ep + Used(s, ep)) == Room(o, b, e)
    ensures need <= e - (ep + Used(s, ep)) <==> need <= Room(o, b, e)
  {
  }

  lemma EnterLast(o: Bytes, s: Bytes, b: nat, e: nat, ep: nat, ino: nat, name: Bytes, pad: Bytes)
    requires Compacting(o, s, b, e, ep, e) && e - b <= DIRBLKSIZ
    requires 0 < ino < 0x1_0000 && |name| <= MAXNAMLEN && |pad| == DirSiz(|name|) - HEADER - |name| - 1
    requires DirSiz(|name|) <= Room(o, b, e)
    ensures var t, at := Trim(s, ep), ep + Used(s, ep);
            && at + DirSiz(|name|) <= e
            && Entered(o, Paste(t, at, Dirent(ino, e - at, name, pad)), b, e, Entry(name, ino))
  {
    hide Tiled, Live, Room, Used, Here, Paste, Ino, RecLen, NamLen, Name, Dirent, Trim, Compacting;
    var t, at := Trim(s, ep), ep + Used(s, ep);
    Gapless(o, s, b, e, ep, e);
    CompactingBounds(o, s, b, e, ep, e);
    TiledSize(o, b, e);
    TiledSize(t, b, at);
    FoursLeft(e - b, at - b);
    EntryPut(t, b, at, e, ino, name, pad);
  }

  lemma FoursLeft(x: nat, y: nat)
    requires x % 4 == 0 && y % 4 == 0
    ensures (x - y) % 4 == 0
  {
  }

  /** The first record of a region keeps its place and its name. */
  lemma EnteredFirst(o: Bytes, s: Bytes, b: nat, e: nat, added: Entry)
    requires Entered(o, s, b, e, added) && Tiled(o, b, e) && b < e && Ino(o, b) != 0
    ensures Here(s, b) == Here(o, b)
  {
    hide Tiled, Live, Room, Used, Ino, RecLen, NamLen, Name;
    TiledStep(o, b, e);
    TiledStep(s, b, e);
    HereIs(o, b);
    HereIs(s, b);
    assert Live(s, b, e)[0] == Here(s, b)[0] && (Live(o, b, e) + [added])[0] == Here(o, b)[0];
  }

  /** Without free space, the first record is in use. */
  lemma GaplessFirst(t: Bytes, b: nat, at: nat)
    requires Tiled(t, b, at) && Room(t, b, at) == 0 && b < at
    ensures Ino(t, b) != 0
  {
    hide Tiled, Room, Live, Ino, RecLen, NamLen, Name;
    TiledStep(t, b, at);
    TiledSize(t, b + RecLen(t, b), at);
    UsedLive(t, b);
  }

  lemma EntryPut(t: Bytes, b: nat, at: nat, e: nat, ino: nat, name: Bytes, pad: Bytes)
    requires Tiled(t, b, at) && at + DirSiz(|name|) <= e <= |t| && b <= at && e - b <= DIRBLKSIZ && (e - at) % 4 == 0
    requires 0 < ino < 0x1_0000 && |name| <= MAXNAMLEN && |pad| == DirSiz(|name|) - HEADER - |name| - 1
    requires Room(t, b, at) == 0
    ensures var u := Paste(t, at, Dirent(ino, e - at, name, pad));
            && Ino(u, b) != 0
            && |u| == |t| && u[..b] == t[..b] && u[e..] == t[e..] && Tiled(u, b, e)
            && Live(u, b, e) == Live(t, b, at) + [Entry(name, ino)]
            && Room(u, b, e) == Room(t, b, at) + e - at - DirSiz(|name|)
  {
    hide Tiled, Live, Room, Used, Here, Paste, Ino, RecLen, NamLen, Name, Dirent;
    var bytes := Dirent(ino, e - at, name, pad);
    var u := Paste(t, at, bytes);
    PasteParts(t, at, bytes);
    PasteOutside(t, at, bytes, b, e);
    PasteFrame(t, at, bytes, b, at);
    Moved(t, b, u, b, at - b);
    DirentHere(u, at, ino, e - at, name, pad);
    OneSlot(u, at);
    HereIs(u, at);
    Join(u, b, at, e);
    if b < at {
      GaplessFirst(u, b, at);
    }
  }

  lemma TrimLive(s: Bytes, ep: nat)
    requires ep + 4 <= |s| && NamLen(s, ep) <= MAXNAMLEN
    ensures Trim(s, ep) == if Ino(s, ep) != 0 then Paste(s, ep + 2, Short2(DirSiz(NamLen(s, ep)))) else s
  {
  }

  lemma HereIs(s: Bytes, p: nat)
    ensures Ino(s, p) != 0 ==> Here(s, p) == [Entry(Name(s, p), Ino(s, p))] && Used(s, p) == DirSiz(NamLen(s, p))
  {
  }

  // The buffer is changed in place.

  method PutShort(buf: array<Byte>, at: nat, v: nat)
    requires at + 2 <= buf.Length && v < 0x1_0000
    modifies buf
    ensures buf[..] == Paste(old(buf[..]), at, Short2(v))
  {
    buf[at], buf[at + 1] := v % 0x100, v / 0x100;
  }

  /** bcopy: the ranges may overlap. */
  method Bcopy(buf: array<Byte>, from: nat, to: nat, n: nat)
    requires from + n <= buf.Length && to + n <= buf.Length
    modifies buf
    ensures buf[..] == Paste(old(buf[..]), to, old(buf[..])[from..from + n])
  {
    var moved := buf[from..from + n];
    assert moved == buf[..][from..from + n];
    CopyIn(buf, to, moved);
  }

  lemma PasteNothing(s: Bytes, at: nat)
    requires at <= |s|
    ensures Paste(s, at, []) == s
  {
  }

  lemma PasteMore(s: Bytes, at: nat, bytes: Bytes, i: nat)
    requires i < |bytes| && at + |bytes| <= |s|
    ensures Paste(s, at, bytes[..i + 1]) == Paste(s, at, bytes[..i])[at + i := bytes[i]]
  {
  }

  method CopyIn(buf: array<Byte>, to: nat, bytes: Bytes)
    requires to + |bytes| <= buf.Length
    modifies buf
    ensures buf[..] == Paste(old(buf[..]), to, bytes)
  {
    hide Paste;
    var i := 0;
    PasteNothing(buf[..], to);
    while i < |bytes|
      invariant i <= |bytes|
      invariant buf[..] == Paste(old(buf[..]), to, bytes[..i])
    {
      PasteMore(old(buf[..]), to, bytes, i);
      buf[to + i] := bytes[i];
      i := i + 1;
    }
    assert bytes[..i] == bytes;
  }

  /** The body of direnter's loop. */
  method Take(ghost o: Bytes, buf: array<Byte>, dirbuf: nat, count: nat, ep: nat, dsize: nat, spacefree: nat, loc: nat)
      returns (ep': nat, dsize': nat, spacefree': nat, loc': nat)
    requires loc < count && Compacting(o, buf[..], dirbuf, dirbuf + count, ep, dirbuf + loc)
    requires dsize == DirSiz(NamLen(buf[..], ep)) && ep + dsize + spacefree == dirbuf + loc
    modifies buf
    ensures loc < loc' <= count && Compacting(o, buf[..], dirbuf, dirbuf + count, ep', dirbuf + loc')
    ensures dsize' == DirSiz(NamLen(buf[..], ep')) && ep' + dsize' + spacefree' == dirbuf + loc'
  {
    hide Tiled, Live, Room, Used, Here, Paste, Ino, RecLen, NamLen, Name, Dirent, Compacting, Entered, SlotOk, Trim,
      Word, DirSiz, Short2;
    ep', spacefree' := ep, spacefree;
    ghost var e := dirbuf + count;
    var nep := dirbuf + loc;
    UsedLive(buf[..], ep);
    CompactingStep(o, buf[..], dirbuf, e, ep, nep);
    CompactingBounds(o, buf[..], dirbuf, e, ep, nep);
    TrimLive(buf[..], ep);
    ghost var t := Trim(buf[..], ep);
    if Ino(buf[..], ep) != 0 {
      PutShort(buf, ep + 2, dsize);
      ep' := ep + dsize;
    } else {
      spacefree' := spacefree + dsize;
    }
    assert buf[..] == t;
    CopyBounds(t, nep, e);
    dsize' := DirSiz(NamLen(buf[..], nep));
    spacefree' := spacefree' + RecLen(buf[..], nep) - dsize';
    loc' := loc + RecLen(buf[..], nep);
    Bcopy(buf, nep, ep', dsize');
    CompactingBounds(o, buf[..], dirbuf, e, ep', nep + RecLen(t, nep));
  }

  /** The loop of direnter. */
  method Squeeze(buf: array<Byte>, dirbuf: nat, count: nat)
      returns (ep: nat, dsize: nat, spacefree: nat)
    requires 0 < count && dirbuf + count <= buf.Length
    requires Tiled(buf[..], dirbuf, dirbuf + count)
    modifies buf
    ensures Compacting(old(buf[..]), buf[..], dirbuf, dirbuf + count, ep, dirbuf + count)
    ensures dsize == DirSiz(NamLen(buf[..], ep)) && ep + dsize + spacefree == dirbuf + count
  {
    hide Tiled, Live, Room, Used, Here, Paste, Ino, RecLen, NamLen, Name, Dirent, Compacting, Entered, SlotOk, Trim,
      Word, DirSiz, Short2;
    ghost var o, e := buf[..], dirbuf + count;
    CompactingStart(o, dirbuf, e);
    CopyBounds(o, dirbuf, e);
    ep := dirbuf;
    dsize := DirSiz(NamLen(buf[..], ep));
    spacefree := RecLen(buf[..], ep) - dsize;
    var loc: nat := RecLen(buf[..], ep);
    while loc < count
      invariant loc <= count && Compacting(o, buf[..], dirbuf, e, ep, dirbuf + loc)
      invariant dsize == DirSiz(NamLen(buf[..], ep)) && ep + dsize + spacefree == dirbuf + loc
    {
      CompactingBounds(o, buf[..], dirbuf, e, ep, dirbuf + loc);
      ep, dsize, spacefree, loc := Take(o, buf, dirbuf, count, ep, dsize, spacefree, loc);
    }
  }

  /** direnter, from the point where the block is in the buffer: the entry goes into the region of count bytes
      at dirbuf, which namei found to have room for it. */
  method Compact(buf: array<Byte>, dirbuf: nat, count: nat, ino: nat, name: Bytes, pad: Bytes)
    requires 0 < count <= DIRBLKSIZ && dirbuf + count <= buf.Length
    requires Tiled(buf[..], dirbuf, dirbuf + count)
    requires 0 < ino < 0x1_0000 && |name| <= MAXNAMLEN && |pad| == DirSiz(|name|) - HEADER - |name| - 1
    requires DirSiz(|name|) <= Room(buf[..], dirbuf, dirbuf + count)
    modifies buf
    ensures Entered(old(buf[..]), buf[..], dirbuf, dirbuf + count, Entry(name, ino))
  {
    hide Tiled, Live, Room, Used, Here, Paste, Ino, RecLen, NamLen, Name, Dirent, Compacting, Entered, SlotOk, Trim,
      Word, DirSiz, Short2;
    ghost var o, e := buf[..], dirbuf + count;
    var newentrysize := DirSiz(|name|);
    var ep: nat, dsize: nat, spacefree: nat := Squeeze(buf, dirbuf, count);
    CompactingBounds(o, buf[..], dirbuf, e, ep, e);
    UsedLive(buf[..], ep);
    TrimLive(buf[..], ep);
    CompactingEnd(o, buf[..], dirbuf, e, ep, newentrysize);
    EnterLast(o, buf[..], dirbuf, e, ep, ino, name, pad);
    var reclen;
    if Ino(buf[..], ep) == 0 {
      assert spacefree + dsize >= newentrysize;    // else panic: "wdir: compact1"
      reclen := spacefree + dsize;
    } else {
      assert spacefree >= newentrysize;            // else panic: "wdir: compact2"
      reclen := spacefree;
      PutShort(buf, ep + 2, dsize);
      ep := ep + dsize;
    }
    CopyIn(buf, ep, Dirent(ino, reclen, name, pad));
  }

  lemma CompactingBounds(o: Bytes, s: Bytes, b: nat, e: nat, ep: nat, loc: nat)
    requires Compacting(o, s, b, e, ep, loc)
    ensures Tiled(o, b, loc) && Tiled(o, loc, e)
    ensures |s| == |o| && b <= ep && ep + DirSiz(NamLen(s, ep)) <= loc <= e <= |s| && NamLen(s, ep) <= MAXNAMLEN
  {
  }

  lemma CopyBounds(s: Bytes, p: nat, e: nat)
    requires SlotOk(s, p, e)
    ensures p + DirSiz(NamLen(s, p)) <= p + RecLen(s, p) <= e <= |s|
  {
  }
}
