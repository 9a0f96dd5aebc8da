/** A directory as a file of chunks (namei's search of one directory, direnter, dirremove and dirrewrite in
    ufs_namei.c). */
module Directories {
  import opened DirEntries
  import opened Compaction

  /** The records of chunk c end at m. Where that is not the end of the chunk the next record has length 0:
      the "mangled entry" at which namei gives the chunk up. */
  ghost predicate ChunkOk(s: Bytes, c: nat, m: nat) {
    && DIRBLKSIZ * c <= m <= DIRBLKSIZ * c + DIRBLKSIZ <= |s|
    && Tiled(s, DIRBLKSIZ * c, m)
    && (m < DIRBLKSIZ * c + DIRBLKSIZ ==> RecLen(s, m) == 0)
  }

  ghost predicate DirOk(s: Bytes, ends: seq<nat>) {
    |s| == DIRBLKSIZ * |ends| && forall c :: 0 <= c < |ends| ==> ChunkOk(s, c, ends[c])
  }

  /** The live entries of chunks f up to c. */
  ghost function LiveChunks(s: Bytes, ends: seq<nat>, f: nat, c: nat): seq<Entry>
    requires c <= |ends|
  {
    if c <= f then [] else LiveChunks(s, ends, f, c - 1) + Live(s, DIRBLKSIZ * (c - 1), ends[c - 1])
  }

  ghost function Entries(s: Bytes, ends: seq<nat>): seq<Entry> {
    LiveChunks(s, ends, 0, |ends|)
  }

  ghost predicate Names(entries: seq<Entry>, name: Bytes) {
    exists i :: 0 <= i < |entries| && entries[i].name == name
  }

  ghost predicate UniqueNames(entries: seq<Entry>) {
    forall i, j :: 0 <= i < j < |entries| ==> entries[i].name != entries[j].name
  }

  /** b is a with the entry x put in somewhere. */
  ghost predicate Inserted(a: seq<Entry>, b: seq<Entry>, x: Entry) {
    exists i :: 0 <= i <= |a| && b == a[..i] + [x] + a[i..]
  }

  lemma NamesCat(a: seq<Entry>, b: seq<Entry>, name: Bytes)
    ensures Names(a + b, name) <==> Names(a, name) || Names(b, name)
  {
    if Names(a, name) {
      var i :| 0 <= i < |a| && a[i].name == name;
      assert (a + b)[i].name == name;
    }
    if Names(b, name) {
      var i :| 0 <= i < |b| && b[i].name == name;
      assert (a + b)[|a| + i].name == name;
    }
  }

  lemma InsertedFacts(a: seq<Entry>, b: seq<Entry>, x: Entry)
    requires Inserted(a, b, x)
    ensures multiset(b) == multiset(a) + multiset{x}
    ensures forall e :: e in b <==> e in a || e == x
  {
    var i :| 0 <= i <= |a| && b == a[..i] + [x] + a[i..];
    assert a == a[..i] + a[i..];
  }

  lemma InsertedUnique(a: seq<Entry>, b: seq<Entry>, x: Entry)
    requires Inserted(a, b, x)
    ensures UniqueNames(b) <==> UniqueNames(a) && !Names(a, x.name)
  {
    var i :| 0 <= i <= |a| && b == a[..i] + [x] + a[i..];
    UniqueCat(a[..i] + [x], a[i..]);
    UniqueCat(a[..i], [x]);
    UniqueCat(a[..i], a[i..]);
    NamesCat(a[..i], a[i..], x.name);
    NamesCat(a[..i], [x], x.name);
    assert a == a[..i] + a[i..];
    assert [x][0].name == x.name;
    forall k | 0 <= k < |a[i..]|
      ensures Names(a[..i] + [x], a[i..][k].name) <==> Names(a[..i], a[i..][k].name) || a[i..][k].name == x.name
    {
      NamesCat(a[..i], [x], a[i..][k].name);
    }
  }

  lemma UniqueCat(a: seq<Entry>, b: seq<Entry>)
    ensures UniqueNames(a + b) <==> UniqueNames(a) && UniqueNames(b) && forall k :: 0 <= k < |b| ==>
      !Names(a, b[k].name)
  {
    var c := a + b;
    if UniqueNames(c) {
      forall i, j | 0 <= i < j < |a|
        ensures a[i].name != a[j].name
      {
        assert c[i].name != c[j].name;
      }
      forall i, j | 0 <= i < j < |b|
        ensures b[i].name != b[j].name
      {
        assert c[|a| + i].name != c[|a| + j].name;
      }
      forall k | 0 <= k < |b|
        ensures !Names(a, b[k].name)
      {
        assert forall i :: 0 <= i < |a| ==> a[i].name == c[i].name != c[|a| + k].name;
      }
    }
  }

  // Chunks.

  lemma {:induction false} LiveChunksJoin(s: Bytes, ends: seq<nat>, f: nat, m: nat, c: nat)
    requires f <= m <= c <= |ends|
    ensures LiveChunks(s, ends, f, c) == LiveChunks(s, ends, f, m) + LiveChunks(s, ends, m, c)
    decreases c
  {
    hide Live;
    if m < c {
      LiveChunksJoin(s, ends, f, m, c - 1);
    }
  }

  /** The entries around one chunk. */
  lemma AroundChunk(s: Bytes, ends: seq<nat>, c: nat)
    requires c < |ends|
    ensures Entries(s, ends) ==
      LiveChunks(s, ends, 0, c) + Live(s, DIRBLKSIZ * c, ends[c]) + LiveChunks(s, ends, c + 1, |ends|)
  {
    hide Live;
    LiveChunksJoin(s, ends, 0, c, |ends|);
    LiveChunksJoin(s, ends, c, c + 1, |ends|);
    assert LiveChunks(s, ends, c, c + 1) == Live(s, DIRBLKSIZ * c, ends[c]) by {
      assert LiveChunks(s, ends, c, c) == [];
    }
  }

  lemma ChunkFrame(s: Bytes, t: Bytes, c: nat, m: nat)
    requires ChunkOk(s, c, m) && DIRBLKSIZ * c + DIRBLKSIZ <= |t|
    requires s[DIRBLKSIZ * c..DIRBLKSIZ * c + DIRBLKSIZ] == t[DIRBLKSIZ * c..DIRBLKSIZ * c + DIRBLKSIZ]
    ensures ChunkOk(t, c, m) && Live(t, DIRBLKSIZ * c, m) == Live(s, DIRBLKSIZ * c, m)
  {
    hide Tiled, Live, Room, Word, RecLen, Here, Used;
    var p := DIRBLKSIZ * c;
    TiledSize(s, p, m);
    SliceOf(s, p, DIRBLKSIZ, 0, m - p);
    SliceOf(t, p, DIRBLKSIZ, 0, m - p);
    Moved(s, p, t, p, m - p);
    ZeroLength(s, p, t, m);
  }

  lemma ZeroLength(s: Bytes, p: nat, t: Bytes, m: nat)
    requires p <= m && (m - p) % 4 == 0 && p + DIRBLKSIZ <= |s| && p + DIRBLKSIZ <= |t|
    requires s[p..p + DIRBLKSIZ] == t[p..p + DIRBLKSIZ]
    ensures m < p + DIRBLKSIZ ==> RecLen(t, m) == RecLen(s, m)
  {
    hide Word;
    if m < p + DIRBLKSIZ {
      WordMoved(s, p, t, p, DIRBLKSIZ, m - p + 2);
    }
  }

  lemma {:induction false} LiveChunksFrame(s: Bytes, t: Bytes, ends: seq<nat>, ends': seq<nat>, f: nat, c: nat)
    requires c <= |ends| && c <= |ends'|
    requires forall k :: f <= k < c ==>
      ends'[k] == ends[k] && Live(t, DIRBLKSIZ * k, ends[k]) == Live(s, DIRBLKSIZ * k, ends[k])
    ensures LiveChunks(t, ends', f, c) == LiveChunks(s, ends, f, c)
    decreases c
  {
    hide Live;
    if f < c {
      LiveChunksFrame(s, t, ends, ends', f, c - 1);
    }
  }

  /** off is where a record of chunk c starts, or where its records end. */
  ghost predicate Boundary(s: Bytes, ends: seq<nat>, c: nat, off: nat) {
    c < |ends| && DIRBLKSIZ * c <= off <= ends[c] && Tiled(s, DIRBLKSIZ * c, off) && Tiled(s, off, ends[c])
  }

  /** A region of whole records with room for an entry of size need. */
  ghost predicate SlotFor(s: Bytes, ends: seq<nat>, c: nat, off: nat, size: nat, need: nat) {
    && size > 0 && Boundary(s, ends, c, off) && Boundary(s, ends, c, off + size)
    && Tiled(s, off, off + size)
    && need <= Room(s, off, off + size)
  }

  /** The record at off has free space. */
  ghost predicate StartsFree(s: Bytes, off: nat) {
    Used(s, off) < RecLen(s, off)
  }

  /** A region of whole records is changed into other records: nothing else in the directory changes. */
  lemma RegionChanged(s: Bytes, t: Bytes, ends: seq<nat>, c: nat, off: nat,
      e: nat) returns (before: seq<Entry>, after: seq<Entry>)
    requires DirOk(s, ends) && Boundary(s, ends, c, off) && Boundary(s, ends, c, e) && Tiled(s, off, e)
    requires |t| == |s| && s[..off] == t[..off] && s[e..] == t[e..] && Tiled(t, off, e)
    ensures DirOk(t, ends)
    ensures forall k :: 0 <= k < |ends| && k != c ==> Live(t, DIRBLKSIZ * k, ends[k]) == Live(s, DIRBLKSIZ * k, ends[k])
    ensures Entries(s, ends) == before + Live(s, off, e) + after
    ensures Entries(t, ends) == before + Live(t, off, e) + after
  {
    hide Tiled, Live, Room, Word, LiveChunks;
    var p, m := DIRBLKSIZ * c, ends[c];
    assert ChunkOk(s, c, m);
    TiledSize(s, e, m);
    TiledSize(s, off, e);
    // The chunk itself.
    HeadSame(s, t, off, p, off);
    Moved(s, p, t, p, off - p);
    TailSame(s, t, e, e, m);
    Moved(s, e, t, e, m - e);
    Join(t, p, off, e);
    Join(t, p, e, m);
    Join(s, p, off, e);
    Join(s, p, e, m);
    if m < p + DIRBLKSIZ {
      TailSame(s, t, e, m, |s|);
      TiledSize(s, p, m);
      WordMoved(s, m, t, m, |s| - m, 2);
    }
    assert ChunkOk(t, c, m);
    OtherChunks(s, t, ends, c, off, e);
    AroundChunk(s, ends, c);
    AroundChunk(t, ends, c);
    before, after := LiveChunks(s, ends, 0, c) + Live(s, p, off), Live(s, e, m) + LiveChunks(s, ends, c + 1, |ends|);
  }

  lemma OtherChunk(s: Bytes, t: Bytes, ends: seq<nat>, c: nat, off: nat, e: nat, k: nat)
    requires DirOk(s, ends) && c < |ends| && DIRBLKSIZ * c <= off <= e <= DIRBLKSIZ * c + DIRBLKSIZ
    requires |t| == |s| && s[..off] == t[..off] && s[e..] == t[e..] && k < |ends| && k != c
    ensures ChunkOk(t, k, ends[k]) && Live(t, DIRBLKSIZ * k, ends[k]) == Live(s, DIRBLKSIZ * k, ends[k])
  {
    hide ChunkOk, Live;
    SameChunk(s, t, off, e, k);
    ChunkFrame(s, t, k, ends[k]);
  }

  lemma OtherChunks(s: Bytes, t: Bytes, ends: seq<nat>, c: nat, off: nat, e: nat)
    requires DirOk(s, ends) && c < |ends| && DIRBLKSIZ * c <= off <= e <= DIRBLKSIZ * c + DIRBLKSIZ
    requires |t| == |s| && s[..off] == t[..off] && s[e..] == t[e..] && ChunkOk(t, c, ends[c])
    ensures DirOk(t, ends)
    ensures forall k :: 0 <= k < |ends| && k != c ==> Live(t, DIRBLKSIZ * k, ends[k]) == Live(s, DIRBLKSIZ * k, ends[k])
    ensures LiveChunks(t, ends, 0, c) == LiveChunks(s, ends, 0, c)
    ensures LiveChunks(t, ends, c + 1, |ends|) == LiveChunks(s, ends, c + 1, |ends|)
  {
    hide ChunkOk, Live, LiveChunks;
    forall k | 0 <= k < |ends| && k != c
      ensures ChunkOk(t, k, ends[k]) && Live(t, DIRBLKSIZ * k, ends[k]) == Live(s, DIRBLKSIZ * k, ends[k])
    {
      OtherChunk(s, t, ends, c, off, e, k);
    }
    LiveChunksFrame(s, t, ends, ends, 0, c);
    LiveChunksFrame(s, t, ends, ends, c + 1, |ends|);
  }

  lemma Between(before: seq<Entry>, after: seq<Entry>, x: Entry)
    ensures Inserted(before + after, before + [x] + after, x)
  {
    var i, a := |before|, before + after;
    assert a[..i] == before && a[i..] == after;
  }

  /** An entry put into a region is put into the directory, and into no other chunk. */
  lemma EntryInserted(s: Bytes, t: Bytes, ends: seq<nat>, c: nat, off: nat, size: nat, x: Entry)
    requires DirOk(s, ends) && SlotFor(s, ends, c, off, size, 0)
    requires Entered(s, t, off, off + size, x)
    ensures DirOk(t, ends) && Inserted(Entries(s, ends), Entries(t, ends), x)
    ensures forall k :: 0 <= k < |ends| && k != c ==> Live(t, DIRBLKSIZ * k, ends[k]) == Live(s, DIRBLKSIZ * k, ends[k])
  {
    hide Tiled, Live, Room, DirOk, Boundary, Entries, Inserted;
    var before, after := RegionChanged(s, t, ends, c, off, off + size);
    Between(before + Live(s, off, off + size), after, x);
    assert before + (Live(s, off, off + size) + [x]) + after == before + Live(s, off, off + size) + [x] + after;
  }

  lemma HeadSame(s: Bytes, t: Bytes, off: nat, p: nat, q: nat)
    requires off <= |s| == |t| && s[..off] == t[..off] && p <= q <= off
    ensures s[p..q] == t[p..q]
  {
    assert s[..off][p..q] == s[p..q] && t[..off][p..q] == t[p..q];
  }

  lemma TailSame(s: Bytes, t: Bytes, e: nat, p: nat, q: nat)
    requires e <= p <= q <= |s| == |t| && s[e..] == t[e..]
    ensures s[p..q] == t[p..q]
  {
    SliceOf(s, e, |s| - e, p - e, q - e);
    SliceOf(t, e, |s| - e, p - e, q - e);
  }

  lemma SameChunk(s: Bytes, t: Bytes, off: nat, e: nat, k: nat)
    requires off <= e <= |s| == |t| && s[..off] == t[..off] && s[e..] == t[e..] && DIRBLKSIZ * k + DIRBLKSIZ <= |s|
    requires DIRBLKSIZ * k + DIRBLKSIZ <= off || e <= DIRBLKSIZ * k
    ensures s[DIRBLKSIZ * k..DIRBLKSIZ * k + DIRBLKSIZ] == t[DIRBLKSIZ * k..DIRBLKSIZ * k + DIRBLKSIZ]
  {
    var p, q := DIRBLKSIZ * k, DIRBLKSIZ * k + DIRBLKSIZ;
    if q <= off {
      HeadSame(s, t, off, p, q);
    } else {
      TailSame(s, t, e, p, q);
    }
  }

  // The search for a slot.

  datatype SlotStatus = NONE | COMPACT | FOUND

  /** slotstatus, slotoffset, slotsize and slotfreespace. */
  datatype Slot = Slot(status: SlotStatus, offset: int, size: nat, free: nat)

  /** No chunk before c has room for an entry of size need. */
  ghost predicate NoRoom(s: Bytes, ends: seq<nat>, c: nat, need: nat) {
    forall k :: 0 <= k < c && k < |ends| ==> Room(s, DIRBLKSIZ * k, ends[k]) < need
  }

  /** What the slot variables say after the records of chunk c up to off. */
  ghost predicate SlotInv(s: Bytes, ends: seq<nat>, c: nat, off: nat, need: nat, slot: Slot) {
    if slot.status != NONE then
      && slot.offset >= 0 && SlotFor(s, ends, slot.offset / DIRBLKSIZ, slot.offset, slot.size, need)
      && StartsFree(s, slot.offset)
    else
      && NoRoom(s, ends, c, need)
      && Room(s, DIRBLKSIZ * c, off) == slot.free < need
      && (slot.offset < 0 ==> slot.offset == -1 && slot.free == 0)
      && (slot.offset >= 0 ==>
            && slot.offset < off && Boundary(s, ends, c, slot.offset) && Tiled(s, slot.offset, off)
            && Room(s, slot.offset, off) == slot.free && StartsFree(s, slot.offset))
  }

  /** The same before the variables are reset at the start of a chunk. */
  ghost predicate SlotLoop(s: Bytes, ends: seq<nat>, c: nat, off: nat, need: nat, slot: Slot) {
    if slot.status == NONE && off == DIRBLKSIZ * c then NoRoom(s, ends, c, need)
      else SlotInv(s, ends, c, off, need, slot)
  }

  /** The record at off, by itself and behind those before it. */
  lemma AtNext(s: Bytes, ends: seq<nat>, c: nat, off: nat)
    requires Boundary(s, ends, c, off) && off < ends[c]
    ensures SlotOk(s, off, ends[c]) && Boundary(s, ends, c, off + RecLen(s, off))
    ensures Tiled(s, off, off + RecLen(s, off)) && Room(s, off, off + RecLen(s, off)) == RecLen(s, off) - Used(s, off)
    ensures Used(s, off) <= RecLen(s, off) && RecLen(s, off) > 0 && |Name(s, off)| == NamLen(s, off)
    ensures Room(s, DIRBLKSIZ * c, off + RecLen(s, off)) == Room(s, DIRBLKSIZ * c, off) + RecLen(s, off) - Used(s, off)
    ensures Live(s, DIRBLKSIZ * c, off + RecLen(s, off)) == Live(s, DIRBLKSIZ * c, off) + Here(s, off)
  {
    hide Tiled, Live, Room;
    TiledStep(s, off, ends[c]);
    OneSlot(s, off);
    Join(s, DIRBLKSIZ * c, off, off + RecLen(s, off));
  }

  /** One record's contribution to the slot variables: they go on describing a region with enough room, or what has
      been free in the chunk so far. */
  method NoteSlot(s: Bytes, ghost ends: seq<nat>, ghost c: nat, off: nat, need: nat, slot: Slot) returns (noted: Slot)
    requires need > 0 && Boundary(s, ends, c, off) && off < ends[c] <= DIRBLKSIZ * c + DIRBLKSIZ
    requires SlotInv(s, ends, c, off, need, slot)
    ensures SlotInv(s, ends, c, off + RecLen(s, off), need, noted)
  {
    hide Tiled, Live, Room, Used, RecLen, NoRoom;
    AtNext(s, ends, c, off);
    noted := slot;
    ghost var next := off + RecLen(s, off);
    if slot.status == NONE && slot.offset >= 0 {
      Join(s, slot.offset, off, next);
    }
    if slot.status != FOUND {
      var size := RecLen(s, off) - Used(s, off);
      if size > 0 {
        if size >= need {
          noted := Slot(FOUND, off, RecLen(s, off), slot.free);
          assert off / DIRBLKSIZ == c;
        } else if slot.status == NONE {
          noted := Slot(NONE, if slot.offset == -1 then off else slot.offset, slot.size, slot.free + size);
          if noted.free >= need {
            noted := noted.(status := COMPACT, size := off + RecLen(s, off) - noted.offset);
            assert noted.offset / DIRBLKSIZ == c;
          }
        }
      }
    }
  }

  /** The record before off in its chunk. */
  ghost predicate Before(s: Bytes, ends: seq<nat>, c: nat, prevoff: nat, off: nat) {
    Boundary(s, ends, c, prevoff) && prevoff < off && prevoff + RecLen(s, prevoff) == off
  }

  /** Behind u there is no live entry, up to off in chunk c. */
  ghost predicate UselessFrom(s: Bytes, ends: seq<nat>, f: nat, c: nat, off: nat, u: nat) {
    && (forall k :: f <= k < c && k < |ends| && u <= DIRBLKSIZ * k ==> Live(s, DIRBLKSIZ * k, ends[k]) == [])
    && (u <= DIRBLKSIZ * c ==> Live(s, DIRBLKSIZ * c, off) == [])
  }

  /** The search has passed chunks f up to c and the records of chunk c up to off. */
  ghost predicate Searched(s: Bytes, ends: seq<nat>, f: nat, c: nat, off: nat, name: Bytes, u: nat) {
    && f <= c <= |ends| && u <= off
    && !Names(LiveChunks(s, ends, f, c), name) && !Names(Live(s, DIRBLKSIZ * c, off), name)
    && UselessFrom(s, ends, f, c, off, u)
  }

  lemma SearchedStart(s: Bytes, ends: seq<nat>, f: nat, name: Bytes)
    requires f <= |ends|
    ensures Searched(s, ends, f, f, DIRBLKSIZ * f, name, 0)
  {
  }

  lemma RecordPassed(s: Bytes, ends: seq<nat>, f: nat, c: nat, off: nat, name: Bytes, u: nat)
    requires Searched(s, ends, f, c, off, name, u) && Boundary(s, ends, c, off) && off < ends[c]
    requires Ino(s, off) != 0 ==> Name(s, off) != name
    ensures Searched(s, ends, f, c, off + RecLen(s, off), name, if Ino(s, off) != 0 then off + RecLen(s, off) else u)
  {
    hide Tiled, Live, Room, Used, RecLen, LiveChunks, Ino, Name;
    AtNext(s, ends, c, off);
    HereIs(s, off);
    UsedLive(s, off);
    NamesCat(Live(s, DIRBLKSIZ * c, off), Here(s, off), name);
  }

  lemma ChunkPassed(s: Bytes, ends: seq<nat>, f: nat, c: nat, name: Bytes, u: nat)
    requires c < |ends| && Searched(s, ends, f, c, ends[c], name, u) && ends[c] <= DIRBLKSIZ * c + DIRBLKSIZ
    ensures Searched(s, ends, f, c + 1, DIRBLKSIZ * c + DIRBLKSIZ, name, u)
  {
    NamesCat(LiveChunks(s, ends, f, c), Live(s, DIRBLKSIZ * c, ends[c]), name);
    hide Live, LiveChunks;
    TiledStep(s, DIRBLKSIZ * (c + 1), DIRBLKSIZ * (c + 1));
    LiveChunksNext(s, ends, f, c);
  }

  lemma LiveChunksNext(s: Bytes, ends: seq<nat>, f: nat, c: nat)
    requires f <= c < |ends|
    ensures LiveChunks(s, ends, f, c + 1) == LiveChunks(s, ends, f, c) + Live(s, DIRBLKSIZ * c, ends[c])
  {
  }

  lemma SlotPassed(s: Bytes, ends: seq<nat>, c: nat, need: nat, slot: Slot)
    requires c < |ends| && need > 0 && SlotInv(s, ends, c, ends[c], need, slot)
    ensures SlotLoop(s, ends, c + 1, DIRBLKSIZ * c + DIRBLKSIZ, need, slot)
  {
  }

  lemma ChunkStart(s: Bytes, ends: seq<nat>, c: nat)
    requires DirOk(s, ends) && c < |ends|
    ensures Boundary(s, ends, c, DIRBLKSIZ * c) && ends[c] <= DIRBLKSIZ * c + DIRBLKSIZ
    ensures Room(s, DIRBLKSIZ * c, DIRBLKSIZ * c) == 0
  {
    assert ChunkOk(s, c, ends[c]);
  }

  lemma Mangled(s: Bytes, ends: seq<nat>, c: nat, off: nat)
    requires DirOk(s, ends) && Boundary(s, ends, c, off) && off < DIRBLKSIZ * c + DIRBLKSIZ
    ensures off <= ends[c] && (RecLen(s, off) == 0 <==> off == ends[c])
  {
    assert ChunkOk(s, c, ends[c]);
    TiledStep(s, off, ends[c]);
  }

  /** The loop of namei over the records from chunk f up to chunk g. With need > 0 it also looks for a slot for
      a new entry. */
  method SearchLoop(s: Bytes, ghost ends: seq<nat>, f: nat, g: nat, name: Bytes, need: nat)
      returns (found: bool, offset: nat, prevoff: nat, slot: Slot, enduseful: nat, ghost c: nat)
    requires DirOk(s, ends) && f <= g <= |ends| && (need > 0 ==> f == 0)
    ensures found ==> f <= c < g && Boundary(s, ends, c, offset) && offset < ends[c]
    ensures found ==> Ino(s, offset) != 0 && Name(s, offset) == name && offset < DIRBLKSIZ * c + DIRBLKSIZ
    ensures found ==> offset > DIRBLKSIZ * c ==> Before(s, ends, c, prevoff, offset)
    ensures !found ==> Searched(s, ends, f, g, DIRBLKSIZ * g, name, enduseful)
    ensures !found && need > 0 ==> SlotLoop(s, ends, g, DIRBLKSIZ * g, need, slot)
  {
    hide Tiled, Live, Room, Used, RecLen, LiveChunks, Ino, Name, NamLen, SlotInv, Searched, Boundary, DirOk, NoRoom;
    found, offset, prevoff, slot, enduseful, c := false, DIRBLKSIZ * f, 0, Slot(NONE, -1, 0, 0), 0, f;
    var endsearch := DIRBLKSIZ * g;
    SearchedStart(s, ends, f, name);
    NoRoomStart(s, ends, need);
    if f < g {
      ChunkStart(s, ends, f);
    }
    while offset < endsearch
      invariant f <= c <= g && DIRBLKSIZ * c <= offset && (c == g ==> offset == DIRBLKSIZ * g)
      invariant c < g ==> offset < DIRBLKSIZ * c + DIRBLKSIZ && Boundary(s, ends, c, offset)
      invariant c < g && offset > DIRBLKSIZ * c ==> Before(s, ends, c, prevoff, offset)
      invariant Searched(s, ends, f, c, offset, name, enduseful)
      invariant need > 0 ==> SlotLoop(s, ends, c, offset, need, slot)
      decreases endsearch - offset
    {
      ChunkStart(s, ends, c);
      if slot.status == NONE && offset % DIRBLKSIZ == 0 {
        slot := slot.(offset := -1, free := 0);
        SlotReset(s, ends, c, need, slot);
      }
      Mangled(s, ends, c, offset);
      if RecLen(s, offset) == 0 {
        ChunkPassed(s, ends, f, c, name, enduseful);
        if need > 0 {
          SlotPassed(s, ends, c, need, slot);
        }
        offset := offset + (DIRBLKSIZ - offset % DIRBLKSIZ);
      } else {
        AtNext(s, ends, c, offset);
        if need > 0 {
          slot := NoteSlot(s, ends, c, offset, need, slot);
        }
        if Ino(s, offset) != 0 && NamLen(s, offset) == |name| && Name(s, offset) == name {
          found := true;
          return;
        }
        RecordPassed(s, ends, f, c, offset, name, enduseful);
        prevoff := offset;
        offset := offset + RecLen(s, offset);
        if Ino(s, prevoff) != 0 {
          enduseful := offset;
        }
        if offset == DIRBLKSIZ * c + DIRBLKSIZ {
          ChunkPassed(s, ends, f, c, name, enduseful);
          if need > 0 {
            SlotPassed(s, ends, c, need, slot);
          }
        }
      }
      if offset == DIRBLKSIZ * c + DIRBLKSIZ {
        c := c + 1;
        if c < g {
          ChunkStart(s, ends, c);
        }
      }
    }
  }

  lemma NoRoomStart(s: Bytes, ends: seq<nat>, need: nat)
    ensures NoRoom(s, ends, 0, need)
  {
  }

  lemma SlotReset(s: Bytes, ends: seq<nat>, c: nat, need: nat, slot: Slot)
    requires slot.status == NONE && slot.offset == -1 && slot.free == 0 && Room(s, DIRBLKSIZ * c, DIRBLKSIZ * c) == 0
    ensures need > 0 && NoRoom(s, ends, c, need) ==> SlotInv(s, ends, c, DIRBLKSIZ * c, need, slot)
  {
  }
}
