/** The directory operations of ufs_namei.c on the bytes of one directory file. */
module DirFile {
  import opened DiskFormat
  import opened DirEntries
  import opened Compaction
  import opened Directories
  import opened DirDots

  /** A live entry found by the search, among the others. */
  lemma FoundEntry(s: Bytes, ends: seq<nat>, c: nat, off: nat) returns (before: seq<Entry>, after: seq<Entry>)
    requires DirOk(s, ends) && Boundary(s, ends, c, off) && off < ends[c] && Ino(s, off) != 0
    ensures Entries(s, ends) == before + [Entry(Name(s, off), Ino(s, off))] + after
    ensures Entry(Name(s, off), Ino(s, off)) in Entries(s, ends) && Names(Entries(s, ends), Name(s, off))
  {
    hide Tiled, Live, Room, DirOk, Name, Ino, RecLen, Used, Here, Entries;
    AtNext(s, ends, c, off);
    HereIs(s, off);
    OneSlot(s, off);
    before, after := RegionChanged(s, s, ends, c, off, off + RecLen(s, off));
    var all := Entries(s, ends);
    assert all[|before|] == Entry(Name(s, off), Ino(s, off));
  }

  /** With unique names, the inode number found is the only one under that name. */
  lemma OnlyEntry(entries: seq<Entry>, name: Bytes, i: nat, j: nat)
    requires UniqueNames(entries) && Entry(name, i) in entries && Entry(name, j) in entries
    ensures i == j
  {
    var a :| 0 <= a < |entries| && entries[a] == Entry(name, i);
    var b :| 0 <= b < |entries| && entries[b] == Entry(name, j);
    assert a == b;
  }

  /** The buffer of a block changes within the file. */
  lemma EnteredInFile(s: Bytes, lo: nat, o: Bytes, u: Bytes, b: nat, e: nat, x: Entry)
    requires lo + |o| <= |s| && s[lo..lo + |o|] == o && Tiled(o, b, e) && Entered(o, u, b, e, x)
    ensures Entered(s, Paste(s, lo, u), lo + b, lo + e, x)
  {
    hide Tiled, Live, Room, Paste;
    var t := Paste(s, lo, u);
    PasteParts(s, lo, u);
    SliceOf(s, lo, |o|, b, e);
    Moved(o, b, s, lo + b, e - b);
    SliceOf(t, lo, |u|, b, e);
    Moved(u, b, t, lo + b, e - b);
    SameIno(u, t, lo, b);
    PrefixJoin(s, t, lo, o, u, b);
    SuffixJoin(s, t, lo, o, u, e);
  }

  lemma SameIno(u: Bytes, t: Bytes, lo: nat, b: nat)
    requires lo + |u| <= |t| && t[lo..lo + |u|] == u && Ino(u, b) != 0
    ensures Ino(t, lo + b) == Ino(u, b)
  {
    assert u[..] == u;
    WordMoved(u, 0, t, lo, |u|, b);
  }

  lemma PrefixJoin(s: Bytes, t: Bytes, lo: nat, o: Bytes, u: Bytes, b: nat)
    requires |s| == |t| && |o| == |u| && lo + |o| <= |s| && b <= |o|
    requires s[..lo] == t[..lo] && s[lo..lo + |o|] == o && t[lo..lo + |u|] == u && o[..b] == u[..b]
    ensures s[..lo + b] == t[..lo + b]
  {
    SliceOf(s, lo, |o|, 0, b);
    SliceOf(t, lo, |u|, 0, b);
    assert s[..lo + b] == s[..lo] + s[lo..lo + b] && t[..lo + b] == t[..lo] + t[lo..lo + b];
  }

  lemma SuffixJoin(s: Bytes, t: Bytes, lo: nat, o: Bytes, u: Bytes, e: nat)
    requires |s| == |t| && |o| == |u| && lo + |o| <= |s| && e <= |o|
    requires s[lo + |o|..] == t[lo + |u|..] && s[lo..lo + |o|] == o && t[lo..lo + |u|] == u && o[e..] == u[e..]
    ensures s[lo + e..] == t[lo + e..]
  {
    SliceOf(s, lo, |o|, e, |o|);
    SliceOf(t, lo, |u|, e, |o|);
    assert s[lo + e..] == s[lo + e..lo + |o|] + s[lo + |o|..] && t[lo + e..] == t[lo + e..lo + |u|] + t[lo + |u|..];
  }

  /** A record is overwritten with another one of the same length: direct entries are rewritten this way, and
      with inode number 0 they are removed. */
  lemma RecordWritten(s: Bytes, ends: seq<nat>, c: nat, off: nat, ino: nat, name: Bytes, pad: Bytes)
    requires DirOk(s, ends) && Boundary(s, ends, c, off) && off < ends[c] && Ino(s, off) != 0 && Name(s, off) == name
    requires ino < 0x1_0000 && |name| <= MAXNAMLEN && |pad| == DirSiz(|name|) - HEADER - |name| - 1
    ensures off + DirSiz(|name|) <= |s| && RecLen(s, off) < 0x1_0000
    ensures var t := Paste(s, off, Dirent(ino, RecLen(s, off), name, pad));
            && DirOk(t, ends)
            && (ino == 0 ==> Inserted(Entries(t, ends), Entries(s, ends), Entry(name, Ino(s, off))))
            && (ino != 0 ==> Rewritten(Entries(s, ends), Entries(t, ends), Entry(name, Ino(s, off)), Entry(name, ino)))
  {
    hide Tiled, Live, Room, DirOk, Name, Ino, RecLen, Used, Here, Entries, Inserted, Paste, Dirent, NamLen;
    AtNext(s, ends, c, off);
    OneSlot(s, off);
    HereIs(s, off);
    var n, e := RecLen(s, off), off + RecLen(s, off);
    var bytes := Dirent(ino, n, name, pad);
    var t := Paste(s, off, bytes);
    PasteParts(s, off, bytes);
    PasteOutside(s, off, bytes, off, e);
    DirentHere(t, off, ino, n, name, pad);
    OneSlot(t, off);
    HereIs(t, off);
    UsedLive(t, off);
    var before, after := RegionChanged(s, t, ends, c, off, e);
    assert before + [] + after == before + after;
    Between(before, after, Entry(name, Ino(s, off)));
    if ino != 0 {
      Between(before, after, Entry(name, ino));
      assert WithIn(before + after, Entries(s, ends), Entries(t, ends), Entry(name, Ino(s, off)), Entry(name, ino));
    }
  }

  ghost predicate WithIn(rest: seq<Entry>, a: seq<Entry>, b: seq<Entry>, x: Entry, y: Entry) {
    Inserted(rest, a, x) && Inserted(rest, b, y)
  }

  /** b is a with the entry y in the place of x. */
  ghost predicate Rewritten(a: seq<Entry>, b: seq<Entry>, x: Entry, y: Entry) {
    exists rest :: WithIn(rest, a, b, x, y)
  }

  lemma RewrittenUnique(a: seq<Entry>, b: seq<Entry>, x: Entry, y: Entry)
    requires Rewritten(a, b, x, y) && x.name == y.name
    ensures UniqueNames(a) <==> UniqueNames(b)
    ensures multiset(b) + multiset{x} == multiset(a) + multiset{y}
  {
    hide UniqueNames, Inserted;
    var rest :| WithIn(rest, a, b, x, y);
    InsertedUnique(rest, a, x);
    InsertedUnique(rest, b, y);
    InsertedFacts(rest, a, x);
    InsertedFacts(rest, b, y);
  }

  /** The record before gets the space of the removed one. */
  lemma RecordAbsorbed(s: Bytes, ends: seq<nat>, c: nat, prev: nat, off: nat)
    requires DirOk(s, ends) && Boundary(s, ends, c, off) && off < ends[c] && Before(s, ends, c, prev, off)
    requires Ino(s, off) != 0
    ensures prev + 4 <= |s| && RecLen(s, prev) + RecLen(s, off) < 0x1_0000
    ensures var t := Paste(s, prev + 2, Short2(RecLen(s, prev) + RecLen(s, off)));
            DirOk(t, ends) && Inserted(Entries(t, ends), Entries(s, ends), Entry(Name(s, off), Ino(s, off)))
  {
    hide Tiled, Live, Room, DirOk, Name, Ino, RecLen, Used, Here, Entries, Inserted, Paste, NamLen, Boundary, SlotOk,
      Before;
    PrevInside(s, ends, c, prev, off);
    ChunkStart(s, ends, c);
    RecordFits(s, ends, c, off);
    RecordFits(s, ends, c, prev);
    HereIs(s, off);
    var e := off + RecLen(s, off);
    var t := Paste(s, prev + 2, Short2(RecLen(s, prev) + RecLen(s, off)));
    AbsorbedRegion(s, prev, off, ends[c]);
    Join(s, prev, off, e);
    LastDropped(s, t, ends, c, prev, e, Here(s, prev), Entry(Name(s, off), Ino(s, off)));
  }

  lemma LastDropped(s: Bytes, t: Bytes, ends: seq<nat>, c: nat, prev: nat, e: nat, here: seq<Entry>, x: Entry)
    requires DirOk(s, ends) && Boundary(s, ends, c, prev) && Boundary(s, ends, c, e) && Tiled(s, prev, e)
    requires |t| == |s| && s[..prev] == t[..prev] && s[e..] == t[e..] && Tiled(t, prev, e)
    requires Live(s, prev, e) == here + [x] && Live(t, prev, e) == here
    ensures DirOk(t, ends) && Inserted(Entries(t, ends), Entries(s, ends), x)
  {
    hide Tiled, Live, DirOk, Entries, Inserted, Boundary;
    var before, after := RegionChanged(s, t, ends, c, prev, e);
    BetweenBehind(before, here, after, x);
  }

  lemma BetweenBehind(before: seq<Entry>, here: seq<Entry>, after: seq<Entry>, x: Entry)
    ensures Inserted(before + here + after, before + (here + [x]) + after, x)
  {
    Between(before + here, after, x);
    assert before + (here + [x]) + after == before + here + [x] + after;
  }

  lemma AbsorbedRegion(s: Bytes, prev: nat, off: nat, m: nat)
    requires SlotOk(s, prev, m) && SlotOk(s, off, m) && prev + RecLen(s, prev) == off && m - prev <= DIRBLKSIZ
    ensures prev + 4 <= |s| && RecLen(s, prev) + RecLen(s, off) < 0x1_0000
    ensures Tiled(s, prev, off) && Live(s, prev, off) == Here(s, prev)
    ensures Tiled(s, off, off + RecLen(s, off)) && Live(s, off, off + RecLen(s, off)) == Here(s, off)
    ensures var t, e := Paste(s, prev + 2, Short2(RecLen(s, prev) + RecLen(s, off))), off + RecLen(s, off);
            && |t| == |s| && t[..prev] == s[..prev] && t[e..] == s[e..]
            && Tiled(t, prev, e) && Live(t, prev, e) == Here(s, prev)
  {
    hide Tiled, Live, Room, Name, Ino, RecLen, Used, Here, Paste, NamLen, Word, Short2, DirSiz;
    var n := RecLen(s, prev) + RecLen(s, off);
    OneSlot(s, prev);
    OneSlot(s, off);
    var t := Paste(s, prev + 2, Short2(n));
    Relength(s, prev, n);
    PasteOutside(s, prev + 2, Short2(n), prev, off + RecLen(s, off));
    OneSlot(t, prev);
  }

  lemma RecordFits(s: Bytes, ends: seq<nat>, c: nat, off: nat)
    requires Boundary(s, ends, c, off) && off < ends[c]
    ensures SlotOk(s, off, ends[c]) && Boundary(s, ends, c, off + RecLen(s, off)) && DIRBLKSIZ * c <= off
  {
    AtNext(s, ends, c, off);
  }

  lemma PrevInside(s: Bytes, ends: seq<nat>, c: nat, prev: nat, off: nat)
    requires Before(s, ends, c, prev, off) && Boundary(s, ends, c, off) && off < ends[c]
    ensures c < |ends| && Boundary(s, ends, c, prev) && prev < off == prev + RecLen(s, prev) && DIRBLKSIZ * c <= prev
  {
  }

  /** A chunk that holds one entry is added. */
  lemma ChunkAdded(s: Bytes, ends: seq<nat>, ino: nat, name: Bytes, pad: Bytes, rest: Bytes)
    requires DirOk(s, ends) && 0 < ino < 0x1_0000 && |name| <= MAXNAMLEN
    requires |pad| == DirSiz(|name|) - HEADER - |name| - 1 && DirSiz(|name|) + |rest| == DIRBLKSIZ
    ensures var t, ends' := s + Dirent(ino, DIRBLKSIZ, name, pad) + rest, ends + [|s| + DIRBLKSIZ];
            DirOk(t, ends') && Inserted(Entries(s, ends), Entries(t, ends'), Entry(name, ino))
  {
    hide Live, LiveChunks, Tiled, Room, Dirent, RecLen, NamLen, Ino, Name, Here, Used;
    var bytes := Dirent(ino, DIRBLKSIZ, name, pad);
    var t, ends' := s + bytes + rest, ends + [|s| + DIRBLKSIZ];
    var n := |ends|;
    assert t[|s|..|s| + |bytes|] == bytes;
    DirentHere(t, |s|, ino, DIRBLKSIZ, name, pad);
    OneSlot(t, |s|);
    HereIs(t, |s|);
    forall k | 0 <= k < n
      ensures ChunkOk(t, k, ends[k]) && Live(t, DIRBLKSIZ * k, ends[k]) == Live(s, DIRBLKSIZ * k, ends[k])
    {
      assert ChunkOk(s, k, ends[k]);
      assert s[DIRBLKSIZ * k..DIRBLKSIZ * k + DIRBLKSIZ] == t[DIRBLKSIZ * k..DIRBLKSIZ * k + DIRBLKSIZ];
      ChunkFrame(s, t, k, ends[k]);
    }
    LiveChunksFrame(s, t, ends, ends', 0, n);
    LiveChunksNext(t, ends', 0, n);
    Between(Entries(s, ends), [], Entry(name, ino));
    assert Entries(s, ends) + [] == Entries(s, ends);
    assert Entries(s, ends) + [Entry(name, ino)] + [] == Entries(s, ends) + [Entry(name, ino)];
  }

  /** Chunks without live entries at the end are dropped. */
  lemma ChunksDropped(s: Bytes, ends: seq<nat>, m: nat)
    requires DirOk(s, ends) && m <= |ends|
    requires forall k :: m <= k < |ends| ==> Live(s, DIRBLKSIZ * k, ends[k]) == []
    ensures DirOk(s[..DIRBLKSIZ * m], ends[..m]) && Entries(s[..DIRBLKSIZ * m], ends[..m]) == Entries(s, ends)
  {
    hide Live, LiveChunks, Tiled;
    var t, ends' := s[..DIRBLKSIZ * m], ends[..m];
    forall k | 0 <= k < m
      ensures ChunkOk(t, k, ends[k]) && Live(t, DIRBLKSIZ * k, ends[k]) == Live(s, DIRBLKSIZ * k, ends[k])
    {
      assert ChunkOk(s, k, ends[k]);
      assert s[DIRBLKSIZ * k..DIRBLKSIZ * k + DIRBLKSIZ] == t[DIRBLKSIZ * k..DIRBLKSIZ * k + DIRBLKSIZ];
      ChunkFrame(s, t, k, ends[k]);
    }
    LiveChunksFrame(s, t, ends, ends', 0, m);
    NothingLive(s, ends, m, |ends|);
    LiveChunksJoin(s, ends, 0, m, |ends|);
  }

  lemma {:induction false} NothingLive(s: Bytes, ends: seq<nat>, f: nat, c: nat)
    requires f <= c <= |ends|
    requires forall k :: f <= k < c ==> Live(s, DIRBLKSIZ * k, ends[k]) == []
    ensures LiveChunks(s, ends, f, c) == []
    decreases c
  {
    hide Live;
    if f < c {
      NothingLive(s, ends, f, c - 1);
    }
  }

  /** What namei leaves for direnter, dirremove and dirrewrite: ni_offset, ni_count, ni_endoff and ni_dent. */
  datatype NameiData = NameiData(offset: nat, count: nat, endoff: nat, name: Bytes, reclen: nat, ino: nat)

  function Zeros(n: nat): (z: Bytes)
    ensures |z| == n
  {
    seq(n, _ => 0)
  }

  /** After a search for a name that is to be created: the name is new, and there is a region with room for it,
      or the entry goes into a new chunk because no chunk has room. Behind endoff no entry is live. */
  ghost predicate CanEnter(s: Bytes, ends: seq<nat>, ni: NameiData) {
    var need := DirSiz(|ni.name|);
    && |ni.name| <= MAXNAMLEN && !Names(Entries(s, ends), ni.name)
    && (ni.count == 0 ==> ni.offset == |s| && NoRoom(s, ends, |ends|, need))
    && (ni.count > 0 ==>
          SlotFor(s, ends, ni.offset / DIRBLKSIZ, ni.offset, ni.count, need) && ni.offset + ni.count <= ni.endoff)
    && (ni.count > 0 ==> StartsFree(s, ni.offset))
    && ni.endoff % DIRBLKSIZ == 0 && ni.endoff <= |s|
    && (forall k :: 0 <= k < |ends| && ni.endoff <= DIRBLKSIZ * k ==> Live(s, DIRBLKSIZ * k, ends[k]) == [])
  }

  /** After a search for a name that is to be removed or rewritten: the name's record, and the distance to the
      record before it, if there is one in the chunk. */
  ghost predicate CanRemove(s: Bytes, ends: seq<nat>, ni: NameiData) {
    var c := ni.offset / DIRBLKSIZ;
    && Boundary(s, ends, c, ni.offset) && ni.offset < ends[c]
    && 0 < ni.ino == Ino(s, ni.offset) && ni.name == Name(s, ni.offset) && ni.reclen == RecLen(s, ni.offset)
    && |ni.name| <= MAXNAMLEN
    && (ni.count > 0 ==> ni.count <= ni.offset && Before(s, ends, c, ni.offset - ni.count, ni.offset))
  }

  /** A region that lies in one chunk lies in the block that holds the chunk. */
  lemma InBlock(offset: nat, count: nat, lo: nat, hi: nat, size: nat, chunks: nat)
    requires size == DIRBLKSIZ * chunks && count > 0
    requires var c := offset / DIRBLKSIZ; offset + count <= DIRBLKSIZ * c + DIRBLKSIZ <= size
    requires lo == offset - offset % BSIZE && hi == if lo + BSIZE <= size then lo + BSIZE else size
    ensures lo <= offset && offset + count <= hi <= size
  {
  }

  /** The part of direnter between the reading and the writing of the block in bytes [lo, hi). */
  method InBuffer(s: Bytes, lo: nat, hi: nat, dirbuf: nat, count: nat, ino: nat, name: Bytes,
      pad: Bytes) returns (t: Bytes)
    requires lo <= hi <= |s| && lo + dirbuf + count <= hi && 0 < count <= DIRBLKSIZ
    requires Tiled(s, lo + dirbuf, lo + dirbuf + count) && DirSiz(|name|) <= Room(s, lo + dirbuf, lo + dirbuf + count)
    requires 0 < ino < 0x1_0000 && |name| <= MAXNAMLEN && |pad| == DirSiz(|name|) - HEADER - |name| - 1
    ensures Entered(s, t, lo + dirbuf, lo + dirbuf + count, Entry(name, ino))
  {
    hide Tiled, Live, Room, Entered, Paste, Ino;
    var block := s[lo..hi];
    SliceOf(s, lo, hi - lo, dirbuf, dirbuf + count);
    Moved(s, lo + dirbuf, block, dirbuf, count);
    var buf := new Byte[|block|](i requires 0 <= i < |block| => block[i]);
    assert buf[..] == block;
    Compact(buf, dirbuf, count, ino, name, pad);
    EnteredSize(block, buf[..], dirbuf, dirbuf + count, Entry(name, ino));
    PasteIs(s, lo, buf[..], hi);
    EnteredInFile(s, lo, block, buf[..], dirbuf, dirbuf + count, Entry(name, ino));
    t := s[..lo] + buf[..] + s[hi..];
  }

  /** roundup(n, DIRBLKSIZ). */
  function RoundUp(n: nat): nat {
    (n + DIRBLKSIZ - 1) / DIRBLKSIZ * DIRBLKSIZ
  }

  lemma NewChunkFits(s: Bytes, ends: seq<nat>, ni: NameiData)
    requires DirOk(s, ends) && |ni.name| <= MAXNAMLEN && !Names(Entries(s, ends), ni.name)
    requires ni.count == 0 && ni.offset == ni.endoff == |s| && NoRoom(s, ends, |ends|, DirSiz(|ni.name|))
    ensures CanEnter(s, ends, ni)
  {
    hide ChunkOk, Names, Entries, NoRoom, Live, SlotFor, StartsFree, DirSiz;
  }

  lemma RegionFits(s: Bytes, ends: seq<nat>, name: Bytes, offset: nat, size: nat, enduseful: nat)
    requires DirOk(s, ends) && |name| <= MAXNAMLEN && !Names(Entries(s, ends), name)
    requires SlotFor(s, ends, offset / DIRBLKSIZ, offset, size, DirSiz(|name|)) && StartsFree(s, offset)
    requires enduseful <= DIRBLKSIZ * |ends|
    requires forall k :: 0 <= k < |ends| && enduseful <= DIRBLKSIZ * k ==> Live(s, DIRBLKSIZ * k, ends[k]) == []
    ensures var end := if enduseful < offset + size then offset + size else enduseful;
      CanEnter(s, ends, NameiData(offset, size, RoundUp(end), name, 0, 0))
  {
    hide ChunkOk, Names, Entries, NoRoom, Live, StartsFree, DirSiz;
    SlotInside(s, ends, offset / DIRBLKSIZ, offset, size, DirSiz(|name|));
    hide SlotFor;
    Rounded(if enduseful < offset + size then offset + size else enduseful, |ends|);
  }

  lemma Rounded(n: nat, chunks: nat)
    requires n <= DIRBLKSIZ * chunks
    ensures n <= RoundUp(n) <= DIRBLKSIZ * chunks && RoundUp(n) % DIRBLKSIZ == 0
  {
  }

  class Directory {
    var data: Bytes          // the file's contents, of length i_size
    var prevoffset: nat      // u.u_ncache.nc_prevoffset, when the last lookup was in this directory
    ghost var ends: seq<nat> // where the records of each chunk end

    ghost predicate Valid()
      reads this
    {
      DirOk(data, ends) && UniqueNames(Contents()) && prevoffset % DIRBLKSIZ == 0
    }

    ghost function Contents(): seq<Entry>
      reads this
    {
      Entries(data, ends)
    }

    /** What mkdir writes: "." and "..", in one chunk. */
    constructor (ino: nat, parent: nat)
      requires 0 < ino < 0x1_0000 && 0 < parent < 0x1_0000
      ensures Valid() && |data| == DIRBLKSIZ && prevoffset == 0
      ensures Contents() == [Entry([0x2e], ino), Entry([0x2e, 0x2e], parent)] && DotsAt(data, ino, parent)
    {
      data := Dirent(ino, 8, [0x2e], []) + Dirent(parent, DIRBLKSIZ - 8, [0x2e, 0x2e],
        [0, 0, 0]) + Zeros(DIRBLKSIZ - 20);
      prevoffset := 0;
      ends := [DIRBLKSIZ];
      new;
      Template(data, ino, parent);
    }

    /** namei with LOOKUP: the search starts at the chunk in which the last one ended, and covers the chunks
        before that in a second pass. */
    method NameiLookup(name: Bytes) returns (found: bool, ino: nat)
      requires Valid()
      modifies this`prevoffset
      ensures Valid()
      ensures found <==> Names(Contents(), name)
      ensures found ==> Entry(name, ino) in Contents()
    {
      hide DirOk, Searched, Boundary, Ino, Name, Before, LiveChunks, UniqueNames;
      DirSize(data, ends);
      var offset, prevoff, slot, enduseful;
      ghost var c;
      if prevoffset > |data| {
        prevoffset := 0;
      }
      ghost var all := Contents();
      found, offset, prevoff, slot, enduseful, c :=
        SearchLoop(data, ends, prevoffset / DIRBLKSIZ, |data| / DIRBLKSIZ, name, 0);
      if !found {
        SearchedNames(data, ends, prevoffset / DIRBLKSIZ, |ends|, name, enduseful);
        found, offset, prevoff, slot, enduseful, c := SearchLoop(data, ends, 0, prevoffset / DIRBLKSIZ, name, 0);
        if !found {
          SearchedNames(data, ends, 0, prevoffset / DIRBLKSIZ, name, enduseful);
          TwoPasses(data, ends, prevoffset / DIRBLKSIZ, name);
          return false, 0;
        }
      }
      ghost var _, _ := FoundEntry(data, ends, c, offset);
      prevoffset := offset - offset % DIRBLKSIZ;
      ino := Ino(data, offset);
    }

    /** namei with CREATE, at the last component of a path. */
    method NameiCreate(name: Bytes) returns (found: bool, ni: NameiData)
      requires Valid() && |name| <= MAXNAMLEN
      ensures found <==> Names(Contents(), name)
      ensures found ==> CanRemove(data, ends, ni.(count := 0)) && Entry(name, ni.ino) in Contents()
      ensures !found ==> CanEnter(data, ends, ni)
      ensures ni.name == name
    {
      hide DirOk, Boundary, Ino, Name, Before, LiveChunks, UniqueNames, RecLen, Entries, SlotLoop, Searched, CanEnter,
        SlotFor, StartsFree, NoRoom, Names, Live, DirSiz, RoundUp;
      DirSize(data, ends);
      var slotneeded := DirSiz(|name|);
      var offset, prevoff, slot, enduseful;
      ghost var c;
      found, offset, prevoff, slot, enduseful, c := SearchLoop(data, ends, 0, |data| / DIRBLKSIZ, name, slotneeded);
      if found {
        ni := NameiData(offset, 0, 0, name, RecLen(data, offset), Ino(data, offset));
        ghost var _, _ := FoundEntry(data, ends, c, offset);
        FoundChunk(data, ends, c, offset);
        return;
      }
      SearchedNames(data, ends, 0, |ends|, name, enduseful);
      SearchedUseless(data, ends, |ends|, name, enduseful);
      SlotAtEnd(data, ends, slotneeded, slot);
      if slot.status == NONE {
        offset := |data|;
        enduseful := offset;
        ni := NameiData(offset, 0, offset, name, 0, 0);
        NewChunkFits(data, ends, ni);
      } else {
        RegionFits(data, ends, name, slot.offset, slot.size, enduseful);
        if enduseful < slot.offset + slot.size {
          enduseful := slot.offset + slot.size;
        }
        ni := NameiData(slot.offset, slot.size, RoundUp(enduseful), name, 0, 0);
      }
    }

    /** namei with DELETE, at the last component of a path. */
    method NameiDelete(name: Bytes) returns (found: bool, ni: NameiData)
      requires Valid()
      ensures found <==> Names(Contents(), name)
      ensures found ==> CanRemove(data, ends, ni) && Entry(name, ni.ino) in Contents() && ni.name == name
      ensures found ==> (ni.count == 0 <==> ni.offset % DIRBLKSIZ == 0)
    {
      hide DirOk, Boundary, Ino, Name, Before, LiveChunks, UniqueNames, RecLen, Entries, SlotLoop, Searched;
      DirSize(data, ends);
      var offset, prevoff, slot, enduseful;
      ghost var c;
      found, offset, prevoff, slot, enduseful, c := SearchLoop(data, ends, 0, |data| / DIRBLKSIZ, name, 0);
      if found {
        ghost var _, _ := FoundEntry(data, ends, c, offset);
        FoundChunk(data, ends, c, offset);
        var count := 0;
        if offset % DIRBLKSIZ != 0 {
          PrevBounds(data, ends, c, prevoff, offset);
          count := offset - prevoff;
        }
        ni := NameiData(offset, count, 0, name, RecLen(data, offset), Ino(data, offset));
      } else {
        SearchedNames(data, ends, 0, |ends|, name, enduseful);
        ni := NameiData(0, 0, 0, name, 0, 0);
      }
    }

    /** direnter: the entry goes into the region that namei found, or into a new chunk. Chunks without live
        entries at the end are then cut off. A new chunk that starts a block needs one; without it nothing
        changes. */
    method Direnter(ni: NameiData, ino: nat, pad: Bytes, nospace: bool) returns (error: bool)
      requires Valid() && CanEnter(data, ends, ni) && 0 < ino < 0x1_0000
      requires |pad| == DirSiz(|ni.name|) - HEADER - |ni.name| - 1
      modifies this`data, this`ends
      ensures Valid()
      ensures error <==> nospace && ni.count == 0 && ni.offset % BSIZE == 0
      ensures error ==> data == old(data) && ends == old(ends)
      ensures !error ==> Inserted(old(Contents()), Contents(), Entry(ni.name, ino))
      ensures forall d, p :: old(DotsAt(data, d, p)) ==> DotsAt(data, d, p)
      ensures !error ==>
        |data| == if ni.count == 0 then |old(data)| + DIRBLKSIZ else if ni.endoff != 0 then ni.endoff else |old(data)|
    {
      hide DirOk, Boundary, Ino, Name, Before, LiveChunks, UniqueNames, RecLen, Entries, SlotFor, Tiled, Live, Room,
        Names, Inserted, NoRoom, Dirent, Entered;
      ghost var x := Entry(ni.name, ino);
      var newentrysize := DirSiz(|ni.name|);
      DirSize(data, ends);
      if ni.count == 0 {
        assert ni.offset % DIRBLKSIZ == 0;           // else panic: "wdir: newblk"
        if nospace && ni.offset % BSIZE == 0 {
          return true;
        }
        ghost var s, chunks := data, ends;
        ChunkAdded(data, ends, ino, ni.name, pad, Zeros(DIRBLKSIZ - newentrysize));
        ends := ends + [|data| + DIRBLKSIZ];
        data := data + Dirent(ino, DIRBLKSIZ, ni.name, pad) + Zeros(DIRBLKSIZ - newentrysize);
        InsertedUnique(Entries(s, chunks), Entries(data, ends), x);
        DotsGrown(s, data);
        return false;
      }
      ghost var s := data;
      EnterRegion(ni, ino, pad);
      InsertedUnique(Entries(s, ends), Entries(data, ends), x);
      if ni.endoff != 0 && ni.endoff < |data| {
        ChunksDropped(data, ends, ni.endoff / DIRBLKSIZ);
        ends := ends[..ni.endoff / DIRBLKSIZ];
        DotsGrown(data, data[..ni.endoff]);
        data := data[..ni.endoff];
      }
      return false;
    }

    /** The block of the region is read into a buffer, compacted there, and written. */
    method EnterRegion(ni: NameiData, ino: nat, pad: Bytes)
      requires Valid() && CanEnter(data, ends, ni) && ni.count > 0 && 0 < ino < 0x1_0000
      requires |pad| == DirSiz(|ni.name|) - HEADER - |ni.name| - 1
      modifies this`data
      ensures DirOk(data, ends) && |data| == |old(data)|
      ensures Inserted(old(Contents()), Contents(), Entry(ni.name, ino))
      ensures forall k :: 0 <= k < |ends| && ni.endoff <= DIRBLKSIZ * k ==> Live(data, DIRBLKSIZ * k, ends[k]) == []
      ensures forall d, p :: old(DotsAt(data, d, p)) ==> DotsAt(data, d, p)
    {
      hide DirOk, Boundary, Ino, Name, Before, LiveChunks, UniqueNames, RecLen, Entries, SlotFor, Tiled, Live, Room,
        Names, Inserted, NoRoom, Dirent, Entered, Paste, DotsAt, StartsFree;
      ghost var s, x := data, Entry(ni.name, ino);
      SlotInside(data, ends, ni.offset / DIRBLKSIZ, ni.offset, ni.count, DirSiz(|ni.name|));
      DirSize(data, ends);
      var lo := ni.offset - ni.offset % BSIZE;
      var hi := if lo + BSIZE <= |data| then lo + BSIZE else |data|;
      InBlock(ni.offset, ni.count, lo, hi, |data|, |ends|);
      data := InBuffer(data, lo, hi, ni.offset - lo, ni.count, ino, ni.name, pad);
      EntryInserted(s, data, ends, ni.offset / DIRBLKSIZ, ni.offset, ni.count, x);
      EnteredSize(s, data, ni.offset, ni.offset + ni.count, x);
      forall d, p | DotsAt(s, d, p)
        ensures DotsAt(data, d, p)
      {
        DotsEntered(s, data, ends, ni.offset / DIRBLKSIZ, ni.offset, ni.count, x, d, p);
      }
    }

    /** dirremove: the record before it takes the space of the removed entry; the first record of a chunk is
        marked as free. */
    method Dirremove(ni: NameiData, pad: Bytes)
      requires Valid() && CanRemove(data, ends, ni)
      requires ni.count == 0 ==> |pad| == DirSiz(|ni.name|) - HEADER - |ni.name| - 1
      modifies this`data
      ensures Valid() && |data| == |old(data)|
      ensures Inserted(Contents(), old(Contents()), Entry(ni.name, ni.ino))
      ensures ni.name != [0x2e] && ni.name != [0x2e, 0x2e] ==> forall d, p :: old(DotsAt(data, d, p)) ==>
        DotsAt(data, d, p)
    {
      hide DirOk, Boundary, Ino, Name, Before, LiveChunks, UniqueNames, RecLen, Entries, Tiled, Live, Room, Names,
        Inserted, Dirent, Paste, Rewritten, DotsAt;
      ghost var s := data;
      ghost var c := ni.offset / DIRBLKSIZ;
      if ni.count == 0 {
        RecordWritten(data, ends, c, ni.offset, 0, ni.name, pad);
        PasteIs(data, ni.offset, Dirent(0, ni.reclen, ni.name, pad), ni.offset + DirSiz(|ni.name|));
        DotsOverwritten(data, ends, c, ni.offset, Dirent(0, ni.reclen, ni.name, pad));
        data := data[..ni.offset] + Dirent(0, ni.reclen, ni.name, pad) + data[ni.offset + DirSiz(|ni.name|)..];
      } else {
        var ep := ni.offset - ni.count;
        RecordAbsorbed(data, ends, c, ep, ni.offset);
        PasteIs(data, ep + 2, Short2(RecLen(data, ep) + ni.reclen), ep + 4);
        PrevBounds(data, ends, c, ep, ni.offset);
        DotsAbsorbed(data, ends, c, ep, ni.offset, RecLen(data, ep) + ni.reclen);
        data := data[..ep + 2] + Short2(RecLen(data, ep) + ni.reclen) + data[ep + 4..];
      }
      InsertedUnique(Entries(data, ends), Entries(s, ends), Entry(ni.name, ni.ino));
    }

    /** dirrewrite: the name now stands for another inode. */
    method Dirrewrite(ni: NameiData, ino: nat, pad: Bytes)
      requires Valid() && CanRemove(data, ends, ni.(count := 0)) && 0 < ino < 0x1_0000
      requires |pad| == DirSiz(|ni.name|) - HEADER - |ni.name| - 1
      modifies this`data
      ensures Valid() && |data| == |old(data)|
      ensures Rewritten(old(Contents()), Contents(), Entry(ni.name, ni.ino), Entry(ni.name, ino))
      ensures ni.name != [0x2e] && ni.name != [0x2e, 0x2e] ==> forall d, p :: old(DotsAt(data, d, p)) ==>
        DotsAt(data, d, p)
    {
      hide DirOk, Boundary, Ino, Name, Before, LiveChunks, UniqueNames, RecLen, Entries, Tiled, Live, Room, Names,
        Inserted, Dirent, Paste, Rewritten, DotsAt;
      ghost var s := data;
      RecordWritten(data, ends, ni.offset / DIRBLKSIZ, ni.offset, ino, ni.name, pad);
      PasteIs(data, ni.offset, Dirent(ino, ni.reclen, ni.name, pad), ni.offset + DirSiz(|ni.name|));
      DotsOverwritten(data, ends, ni.offset / DIRBLKSIZ, ni.offset, Dirent(ino, ni.reclen, ni.name, pad));
      data := data[..ni.offset] + Dirent(ino, ni.reclen, ni.name, pad) + data[ni.offset + DirSiz(|ni.name|)..];
      RewrittenUnique(Entries(s, ends), Entries(data, ends), Entry(ni.name, ni.ino), Entry(ni.name, ino));
    }

    /** What checkpath and rename read: the inode number of ".." from its place in the first bytes of the file. */
    method DotDot() returns (ok: bool, ino: nat)
      requires Valid()
      ensures forall d, p :: DotsAt(data, d, p) ==> ok && ino == p
    {
      hide DirOk, DotsAt, Entries, UniqueNames;
      if |data| < TEMPLATE_SIZE || NamLen(data, DOT_SIZE) != 2 || data[14] != 0x2e || data[15] != 0x2e {
        NoTemplate(data);
        return false, 0;
      }
      forall d, p | DotsAt(data, d, p)
        ensures Ino(data, DOT_SIZE) == p
      {
        DotsHeader(data, d, p);
      }
      return true, Ino(data, DOT_SIZE);
    }

    /** What rename does to the ".." of a directory that gets a new parent. */
    method SetDotDot(parent: nat, ghost d: nat, ghost oldParent: nat)
      requires Valid() && ends != [] && DotsAt(data, d, oldParent) && 0 < parent < 0x1_0000
      modifies this`data
      ensures Valid() && |data| == |old(data)| && DotsAt(data, d, parent)
      ensures Rewritten(old(Contents()), Contents(), Entry([0x2e, 0x2e], oldParent), Entry([0x2e, 0x2e], parent))
    {
      hide DirOk, Entries, UniqueNames, DotsAt, Rewritten, Paste;
      ghost var s := data;
      DirSize(data, ends);
      DotDotSet(data, ends, d, oldParent, parent);
      PasteIs(data, DOT_SIZE, Short2(parent), DOT_SIZE + 2);
      data := data[..DOT_SIZE] + Short2(parent) + data[DOT_SIZE + 2..];
      RewrittenUnique(Entries(s, ends), Entries(data, ends), Entry([0x2e, 0x2e], oldParent),
        Entry([0x2e, 0x2e], parent));
    }

    /** dirempty: whether there are only "." and "..". */
    method Dirempty(parent: nat) returns (empty: bool)
      requires Valid()
      ensures Regular(data, ends) ==> (empty <==> OnlyDots(Contents(), parent))
    {
      hide DirOk, Boundary, Ino, Name, NamLen, RecLen, LiveChunks, UniqueNames, Live, Tiled, Read, OnlyDots, IsDot,
        Regular;
      DirSize(data, ends);
      var off := 0;
      ghost var c := 0;
      ReadNothing(data, ends, parent);
      if ends != [] {
        ChunkStart(data, ends, 0);
      }
      while off < |data|
        invariant c <= |ends| && (c == |ends| ==> off == |data|)
        invariant c < |ends| ==> off < DIRBLKSIZ * c + DIRBLKSIZ && Boundary(data, ends, c, off)
        invariant Regular(data, ends) ==> Read(data, ends, c, off, parent)
        decreases |data| - off
      {
        ChunkStart(data, ends, c);
        Mangled(data, ends, c, off);
        RegularAt(data, ends, c, off);
        if off + TEMPLATE_SIZE / 2 > |data| {
          if Regular(data, ends) {
            ShortRecord(data, ends, c, off, parent);
          }
          return false;
        }
        if RecLen(data, off) == 0 {
          return false;
        }
        AtNext(data, ends, c, off);
        if Ino(data, off) != 0 {
          ghost var e := Entry(Name(data, off), Ino(data, off));
          ReadOther(data, ends, c, off, parent);
          Nameless(data, ends, e);
          NameFits(data, ends, c, off);
          if NamLen(data, off) > 0 {
            DotTest(data, off, parent);
          }
          var dot := NamLen(data, off) <= 2 && data[off + HEADER] == 0x2e
                     && (NamLen(data, off) == 1 || (data[off + HEADER + 1] == 0x2e && Ino(data, off) == parent));
          if !dot {
            NotOnly(Contents(), e, parent);
            return false;
          }
        }
        if Regular(data, ends) {
          ReadRecord(data, ends, c, off, parent);
        }
        off := off + RecLen(data, off);
        if off == DIRBLKSIZ * c + DIRBLKSIZ {
          if Regular(data, ends) {
            EndsFull(data, ends, c);
            ReadChunk(data, ends, c, parent);
          }
          c := c + 1;
          if c < |ends| {
            ChunkStart(data, ends, c);
          }
        }
      }
      if Regular(data, ends) {
        ReadAll(data, ends, off, parent);
      }
      return true;
    }
  }

  lemma DotsGrown(s: Bytes, t: Bytes)
    requires (t <= s || s <= t) && (|s| >= TEMPLATE_SIZE ==> |t| >= TEMPLATE_SIZE)
    ensures forall d, p :: DotsAt(s, d, p) ==> DotsAt(t, d, p)
  {
    hide DotsAt;
    forall d, p | DotsAt(s, d, p)
      ensures DotsAt(t, d, p)
    {
      assert |s| >= TEMPLATE_SIZE by { DotsSize(s, d, p); }
      assert t[..TEMPLATE_SIZE] == s[..TEMPLATE_SIZE];
      DotsFrame(s, t, d, p);
    }
  }

  lemma DotsSize(s: Bytes, d: nat, p: nat)
    requires DotsAt(s, d, p)
    ensures |s| >= TEMPLATE_SIZE
  {
  }

  lemma DotsOverwritten(s: Bytes, ends: seq<nat>, c: nat, off: nat, bytes: Bytes)
    requires Boundary(s, ends, c, off) && off + |bytes| <= |s|
    ensures Name(s, off) != [0x2e] && Name(s, off) != [0x2e, 0x2e] ==>
      forall d, p :: DotsAt(s, d, p) ==> DotsAt(Paste(s, off, bytes), d, p)
  {
    hide DotsAt, Boundary, Name, Paste;
    if Name(s, off) != [0x2e] && Name(s, off) != [0x2e, 0x2e] {
      forall d, p | DotsAt(s, d, p)
        ensures DotsAt(Paste(s, off, bytes), d, p)
      {
        DotsPasted(s, ends, c, off, bytes, d, p);
      }
    }
  }

  lemma DotsAbsorbed(s: Bytes, ends: seq<nat>, c: nat, prev: nat, off: nat, v: nat)
    requires Before(s, ends, c, prev, off) && prev + 4 <= |s| && 0 < v < 0x1_0000
    ensures Name(s, off) != [0x2e, 0x2e] ==> forall d, p :: DotsAt(s, d, p) ==>
      DotsAt(Paste(s, prev + 2, Short2(v)), d, p)
  {
    hide DotsAt, Before, Name, Paste, Short2;
    if Name(s, off) != [0x2e, 0x2e] {
      forall d, p | DotsAt(s, d, p)
        ensures DotsAt(Paste(s, prev + 2, Short2(v)), d, p)
      {
        DotsRelength(s, ends, c, prev, off, v, d, p);
      }
    }
  }

  lemma DotsBytes(s: Bytes, d: nat, p: nat)
    requires DotsAt(s, d, p)
    ensures |s| >= TEMPLATE_SIZE && NamLen(s, DOT_SIZE) == 2 && s[14] == 0x2e && s[15] == 0x2e
  {
    hide NamLen, DotsAt;
    DotsSize(s, d, p);
    DotsHeader(s, d, p);
    assert Name(s, DOT_SIZE)[0] == s[14] && Name(s, DOT_SIZE)[1] == s[15];
  }

  lemma NoTemplate(s: Bytes)
    requires |s| < TEMPLATE_SIZE || NamLen(s, DOT_SIZE) != 2 || s[14] != 0x2e || s[15] != 0x2e
    ensures forall d, p :: !DotsAt(s, d, p)
  {
    hide NamLen, DotsAt;
    forall d, p
      ensures !DotsAt(s, d, p)
    {
      if DotsAt(s, d, p) {
        DotsBytes(s, d, p);
      }
    }
  }

  lemma DotDotSet(s: Bytes, ends: seq<nat>, d: nat, p: nat, parent: nat)
    requires DirOk(s, ends) && ends != [] && DotsAt(s, d, p) && 0 < parent < 0x1_0000
    ensures DOT_SIZE + 2 <= |s|
    ensures var t := Paste(s, DOT_SIZE, Short2(parent));
      && DirOk(t, ends) && DotsAt(t, d, parent)
      && Rewritten(Entries(s, ends), Entries(t, ends), Entry([0x2e, 0x2e], p), Entry([0x2e, 0x2e], parent))
  {
    hide Tiled, Live, Room, Name, Ino, RecLen, Used, Here, Entries, Inserted, Paste, NamLen, DirOk;
    DotsHeader(s, d, p);
    ChunkStart(s, ends, 0);
    Mangled(s, ends, 0, 0);
    AtNext(s, ends, 0, 0);
    Mangled(s, ends, 0, DOT_SIZE);
    var e := DOT_SIZE + RecLen(s, DOT_SIZE);
    AtNext(s, ends, 0, DOT_SIZE);
    OneSlot(s, DOT_SIZE);
    HereIs(s, DOT_SIZE);
    var t := Paste(s, DOT_SIZE, Short2(parent));
    PasteParts(s, DOT_SIZE, Short2(parent));
    PasteOutside(s, DOT_SIZE, Short2(parent), DOT_SIZE, e);
    Renumbered(s, DOT_SIZE, parent);
    HeadSame2(s, t, DOT_SIZE, 0, DOT_SIZE);
    HeaderMoved(s, 0, t, 0, DOT_SIZE);
    OneSlot(t, DOT_SIZE);
    HereIs(t, DOT_SIZE);
    var before, after := RegionChanged(s, t, ends, 0, DOT_SIZE, e);
    Between(before, after, Entry([0x2e, 0x2e], p));
    Between(before, after, Entry([0x2e, 0x2e], parent));
    assert WithIn(before + after, Entries(s, ends), Entries(t, ends), Entry([0x2e, 0x2e], p),
      Entry([0x2e, 0x2e], parent));
  }

  lemma ReadNothing(s: Bytes, ends: seq<nat>, parent: nat)
    ensures Read(s, ends, 0, 0, parent)
  {
  }

  lemma RegularAt(s: Bytes, ends: seq<nat>, c: nat, off: nat)
    requires Boundary(s, ends, c, off) && off < |s|
    ensures Regular(s, ends) ==> ends[c] == DIRBLKSIZ * c + DIRBLKSIZ
    ensures Regular(s, ends) && off + TEMPLATE_SIZE / 2 > |s| ==> Ino(s, off) != 0 && Name(s, off) != [0x2e]
  {
    hide Boundary, Entries, Ino, Name;
    ChunkExists(s, ends, c, off);
  }

  /** There is no space for ".." in the last 10 bytes. */
  lemma ShortRecord(s: Bytes, ends: seq<nat>, c: nat, off: nat, parent: nat)
    requires DirOk(s, ends) && Regular(s, ends) && Boundary(s, ends, c, off)
    requires off < ends[c] <= |s| < off + TEMPLATE_SIZE / 2
    ensures !OnlyDots(Entries(s, ends), parent)
  {
    hide DirOk, Regular, Entries, Ino, Name, RecLen, NamLen, OnlyDots;
    RegularAt(s, ends, c, off);
    ReadOther(s, ends, c, off, parent);
    NameFits(s, ends, c, off);
    AtNext(s, ends, c, off);
    NotOnly(Entries(s, ends), Entry(Name(s, off), Ino(s, off)), parent);
  }

  lemma ChunkExists(s: Bytes, ends: seq<nat>, c: nat, off: nat)
    requires Boundary(s, ends, c, off)
    ensures c < |ends|
  {
  }

  lemma EndsFull(s: Bytes, ends: seq<nat>, c: nat)
    requires Regular(s, ends) && c < |ends|
    ensures ends[c] == DIRBLKSIZ * c + DIRBLKSIZ
  {
    hide Boundary, Entries;
  }

  lemma Nameless(s: Bytes, ends: seq<nat>, e: Entry)
    requires e in Entries(s, ends)
    ensures Regular(s, ends) ==> e.name != []
  {
    hide Boundary, Entries;
  }

  lemma NameFits(s: Bytes, ends: seq<nat>, c: nat, off: nat)
    requires Boundary(s, ends, c, off) && off < ends[c]
    ensures off + HEADER + NamLen(s, off) < |s| && |Name(s, off)| == NamLen(s, off)
  {
    AtNext(s, ends, c, off);
  }

  lemma NotOnly(entries: seq<Entry>, e: Entry, parent: nat)
    requires e in entries
    ensures !IsDot(e, parent) ==> !OnlyDots(entries, parent)
  {
  }

  lemma ReadAll(s: Bytes, ends: seq<nat>, off: nat, parent: nat)
    requires Read(s, ends, |ends|, off, parent)
    ensures OnlyDots(Entries(s, ends), parent)
  {
    hide OnlyDots;
  }

  lemma PasteIs(s: Bytes, at: nat, bytes: Bytes, hi: nat)
    requires at + |bytes| == hi <= |s|
    ensures Paste(s, at, bytes) == s[..at] + bytes + s[hi..]
    ensures |s[..at] + bytes + s[hi..]| == |s|
  {
  }

  lemma EnteredSize(o: Bytes, u: Bytes, b: nat, e: nat, x: Entry)
    requires Entered(o, u, b, e, x)
    ensures |o| == |u|
  {
  }

  lemma Template(s: Bytes, ino: nat, parent: nat)
    requires 0 < ino < 0x1_0000 && 0 < parent < 0x1_0000
    requires s == Dirent(ino, 8, [0x2e], []) + Dirent(parent, DIRBLKSIZ - 8, [0x2e, 0x2e],
      [0, 0, 0]) + Zeros(DIRBLKSIZ - 20)
    ensures DirOk(s, [DIRBLKSIZ]) && Entries(s, [DIRBLKSIZ]) == [Entry([0x2e], ino), Entry([0x2e, 0x2e], parent)]
    ensures DotsAt(s, ino, parent)
  {
    hide Tiled, Live, Dirent, RecLen, NamLen, Ino, Name, Here, Used, Room;
    assert s[0..8] == Dirent(ino, 8, [0x2e], []);
    assert s[8..20] == Dirent(parent, DIRBLKSIZ - 8, [0x2e, 0x2e], [0, 0, 0]);
    DirentHere(s, 0, ino, 8, [0x2e], []);
    DirentHere(s, 8, parent, DIRBLKSIZ - 8, [0x2e, 0x2e], [0, 0, 0]);
    OneSlot(s, 0);
    OneSlot(s, 8);
    HereIs(s, 0);
    HereIs(s, 8);
    Join(s, 0, 8, DIRBLKSIZ);
    LiveChunksNext(s, [DIRBLKSIZ], 0, 0);
    assert LiveChunks(s, [DIRBLKSIZ], 0, 0) == [];
  }

  lemma DirSize(s: Bytes, ends: seq<nat>)
    requires DirOk(s, ends)
    ensures |s| == DIRBLKSIZ * |ends| && |s| / DIRBLKSIZ == |ends|
  {
  }

  lemma SearchedNames(s: Bytes, ends: seq<nat>, f: nat, c: nat, name: Bytes, u: nat)
    requires Searched(s, ends, f, c, DIRBLKSIZ * c, name, u)
    ensures f <= c <= |ends| && !Names(LiveChunks(s, ends, f, c), name)
    ensures f == 0 && c == |ends| ==> !Names(Entries(s, ends), name)
  {
  }

  lemma TwoPasses(s: Bytes, ends: seq<nat>, m: nat, name: Bytes)
    requires m <= |ends| && !Names(LiveChunks(s, ends, 0, m), name) && !Names(LiveChunks(s, ends, m, |ends|), name)
    ensures !Names(Entries(s, ends), name)
  {
    LiveChunksJoin(s, ends, 0, m, |ends|);
    NamesCat(LiveChunks(s, ends, 0, m), LiveChunks(s, ends, m, |ends|), name);
  }

  lemma SearchedUseless(s: Bytes, ends: seq<nat>, c: nat, name: Bytes, u: nat)
    requires c == |ends| && Searched(s, ends, 0, c, DIRBLKSIZ * c, name, u)
    ensures u <= DIRBLKSIZ * c
    ensures forall k :: 0 <= k < |ends| && u <= DIRBLKSIZ * k ==> Live(s, DIRBLKSIZ * k, ends[k]) == []
  {
  }

  lemma FoundChunk(s: Bytes, ends: seq<nat>, c: nat, off: nat)
    requires Boundary(s, ends, c, off) && off < ends[c] && off < DIRBLKSIZ * c + DIRBLKSIZ
    ensures off / DIRBLKSIZ == c && off % DIRBLKSIZ == off - DIRBLKSIZ * c && |Name(s, off)| <= MAXNAMLEN
  {
    AtNext(s, ends, c, off);
  }

  lemma PrevBounds(s: Bytes, ends: seq<nat>, c: nat, prev: nat, off: nat)
    requires Before(s, ends, c, prev, off)
    ensures prev < off == prev + RecLen(s, prev)
  {
  }

  lemma SlotAtEnd(s: Bytes, ends: seq<nat>, need: nat, slot: Slot)
    requires SlotLoop(s, ends, |ends|, DIRBLKSIZ * |ends|, need, slot)
    ensures slot.status == NONE ==> NoRoom(s, ends, |ends|, need)
    ensures slot.status != NONE ==>
      slot.offset >= 0 && SlotFor(s, ends, slot.offset / DIRBLKSIZ, slot.offset, slot.size, need)
        && StartsFree(s, slot.offset)
  {
  }

  lemma SlotInside(s: Bytes, ends: seq<nat>, c: nat, off: nat, size: nat, need: nat)
    requires DirOk(s, ends) && SlotFor(s, ends, c, off, size, need)
    ensures c < |ends| && DIRBLKSIZ * c <= off && off + size <= DIRBLKSIZ * c + DIRBLKSIZ <= |s|
    ensures 0 < size <= DIRBLKSIZ
    ensures Tiled(s, off, off + size) && need <= Room(s, off, off + size) && SlotFor(s, ends, c, off, size, 0)
  {
    assert ChunkOk(s, c, ends[c]);
    TiledSize(s, off, off + size);
  }
}
