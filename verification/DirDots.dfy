/** "." and ".." of a directory: they keep their places in its first 20 bytes, where checkpath and rename read
    them as a struct dirtemplate. */
module DirDots {
  import opened DirEntries
  import opened Compaction
  import opened Directories

  const DOT_SIZE := 8          // offset of ".."
  const TEMPLATE_SIZE := 20    // sizeof(struct dirtemplate)

  /** The entry "." of directory d is the first record, without free space; the entry ".." follows it. */
  ghost predicate DotsAt(s: Bytes, d: nat, parent: nat) {
    && TEMPLATE_SIZE <= |s| && RecLen(s, 0) == DOT_SIZE && RecLen(s, DOT_SIZE) > 0
    && Here(s, 0) == [Entry([0x2e], d)] && Here(s, DOT_SIZE) == [Entry([0x2e, 0x2e], parent)]
  }

  lemma DotsHeader(s: Bytes, d: nat, parent: nat)
    requires DotsAt(s, d, parent)
    ensures Ino(s, 0) == d != 0 && NamLen(s, 0) == 1 && Name(s, 0) == [0x2e] && Used(s, 0) == DOT_SIZE
    ensures Ino(s, DOT_SIZE) == parent != 0 && NamLen(s, DOT_SIZE) == 2 && Name(s, DOT_SIZE) == [0x2e, 0x2e]
  {
    hide Ino, NamLen, RecLen;
  }

  /** The first 20 bytes stay. */
  lemma DotsFrame(s: Bytes, t: Bytes, d: nat, parent: nat)
    requires DotsAt(s, d, parent) && TEMPLATE_SIZE <= |t| && t[..TEMPLATE_SIZE] == s[..TEMPLATE_SIZE]
    ensures DotsAt(t, d, parent)
  {
    hide Ino, NamLen, RecLen, Name, Here;
    DotsHeader(s, d, parent);
    HeadSame2(s, t, TEMPLATE_SIZE, 0, DOT_SIZE);
    HeadSame2(s, t, TEMPLATE_SIZE, DOT_SIZE, TEMPLATE_SIZE);
    HeaderMoved(s, 0, t, 0, DOT_SIZE);
    HeaderMoved(s, DOT_SIZE, t, DOT_SIZE, TEMPLATE_SIZE - DOT_SIZE);
  }

  lemma HeadSame2(s: Bytes, t: Bytes, n: nat, p: nat, q: nat)
    requires n <= |s| && n <= |t| && s[..n] == t[..n] && p <= q <= n
    ensures s[p..q] == t[p..q]
  {
    assert s[..n][p..q] == s[p..q] && t[..n][p..q] == t[p..q];
  }

  /** The second record changes, but not its name. */
  lemma DotsKept(s: Bytes, t: Bytes, d: nat, parent: nat)
    requires DotsAt(s, d, parent) && TEMPLATE_SIZE <= |t| && t[..DOT_SIZE] == s[..DOT_SIZE]
    requires Here(t, DOT_SIZE) == Here(s, DOT_SIZE) && RecLen(t, DOT_SIZE) > 0
    ensures DotsAt(t, d, parent)
  {
    hide Ino, NamLen, RecLen, Name, Here;
    DotsHeader(s, d, parent);
    HeadSame2(s, t, DOT_SIZE, 0, DOT_SIZE);
    HeaderMoved(s, 0, t, 0, DOT_SIZE);
  }

  /** Where records can start in a directory with dots. */
  lemma Starts(s: Bytes, ends: seq<nat>, c: nat, off: nat, d: nat, parent: nat)
    requires DotsAt(s, d, parent) && Boundary(s, ends, c, off)
    ensures off == 0 || off == DOT_SIZE || off >= TEMPLATE_SIZE
  {
    hide Tiled, Ino, NamLen, RecLen, Name, Here;
    DotsHeader(s, d, parent);
    if c == 0 && off > 0 {
      TiledStep(s, 0, off);
      TiledStep(s, DOT_SIZE, off);
      if off > DOT_SIZE {
        TiledSize(s, DOT_SIZE + RecLen(s, DOT_SIZE), off);
      }
    }
  }

  /** An entry is put into a region that starts with free space. */
  lemma DotsEntered(s: Bytes, t: Bytes, ends: seq<nat>, c: nat, off: nat, size: nat, x: Entry, d: nat, parent: nat)
    requires SlotFor(s, ends, c, off, size, 0) && StartsFree(s, off) && Entered(s, t, off, off + size, x)
    requires DotsAt(s, d, parent)
    ensures DotsAt(t, d, parent)
  {
    hide Tiled, Live, Room, Ino, NamLen, RecLen, Name, Here, Used;
    DotsHeader(s, d, parent);
    Starts(s, ends, c, off, d, parent);
    if off == DOT_SIZE {
      EnteredFirst(s, t, off, off + size, x);
      TiledStep(t, off, off + size);
      DotsKept(s, t, d, parent);
    } else {
      assert t[..TEMPLATE_SIZE] == t[..off][..TEMPLATE_SIZE] == s[..TEMPLATE_SIZE];
      DotsFrame(s, t, d, parent);
    }
  }

  /** A record with another name is overwritten. */
  lemma DotsPasted(s: Bytes, ends: seq<nat>, c: nat, off: nat, bytes: Bytes, d: nat, parent: nat)
    requires Boundary(s, ends, c, off) && off + |bytes| <= |s| && DotsAt(s, d, parent)
    requires Name(s, off) != [0x2e] && Name(s, off) != [0x2e, 0x2e]
    ensures DotsAt(Paste(s, off, bytes), d, parent)
  {
    hide Tiled, Live, Room, Ino, NamLen, RecLen, Name, Here, Used, Paste;
    DotsHeader(s, d, parent);
    Starts(s, ends, c, off, d, parent);
    PasteParts(s, off, bytes);
    var t := Paste(s, off, bytes);
    assert t[..TEMPLATE_SIZE] == t[..off][..TEMPLATE_SIZE] == s[..TEMPLATE_SIZE];
    DotsFrame(s, t, d, parent);
  }

  /** The record before one with another name gets its space. */
  lemma DotsRelength(s: Bytes, ends: seq<nat>, c: nat, prev: nat, off: nat, v: nat, d: nat, parent: nat)
    requires Before(s, ends, c, prev, off) && DotsAt(s, d, parent) && prev + 4 <= |s| && 0 < v < 0x1_0000
    requires Name(s, off) != [0x2e, 0x2e]
    ensures DotsAt(Paste(s, prev + 2, Short2(v)), d, parent)
  {
    hide Tiled, Live, Room, Ino, NamLen, RecLen, Name, Here, Used, Paste, Short2;
    DotsHeader(s, d, parent);
    Starts(s, ends, c, prev, d, parent);
    PasteParts(s, prev + 2, Short2(v));
    var t := Paste(s, prev + 2, Short2(v));
    if prev == DOT_SIZE {
      Relength(s, prev, v);
      assert t[..DOT_SIZE] == t[..prev + 2][..DOT_SIZE] == s[..DOT_SIZE];
      DotsKept(s, t, d, parent);
    } else {
      assert t[..TEMPLATE_SIZE] == t[..prev + 2][..TEMPLATE_SIZE] == s[..TEMPLATE_SIZE];
      DotsFrame(s, t, d, parent);
    }
  }

  // An empty directory.

  /** Only "." and "..", the latter for the given parent. */
  ghost predicate OnlyDots(entries: seq<Entry>, parent: nat) {
    forall e :: e in entries ==> IsDot(e, parent)
  }

  predicate IsDot(e: Entry, parent: nat) {
    e.name == [0x2e] || (e.name == [0x2e, 0x2e] && e.ino == parent)
  }

  /** No chunk is mangled, no name is empty, and a record that starts so close to the end of the file that it cannot
      be read as half a struct dirtemplate is live and is not ".". */
  ghost predicate Regular(s: Bytes, ends: seq<nat>) {
    && (forall c :: 0 <= c < |ends| ==> ends[c] == DIRBLKSIZ * c + DIRBLKSIZ)
    && (forall e :: e in Entries(s, ends) ==> e.name != [])
    && (forall c: nat, off: nat :: Boundary(s, ends, c, off) && off < |s| < off + TEMPLATE_SIZE / 2 ==>
          Ino(s, off) != 0 && Name(s, off) != [0x2e])
  }

  lemma OnlyDotsCat(a: seq<Entry>, b: seq<Entry>, parent: nat)
    ensures OnlyDots(a + b, parent) <==> OnlyDots(a, parent) && OnlyDots(b, parent)
  {
    assert forall e :: e in a + b <==> e in a || e in b;
  }

  /** dirempty has read the records of the chunks before c, and those of chunk c up to off. */
  ghost predicate Read(s: Bytes, ends: seq<nat>, c: nat, off: nat, parent: nat) {
    && c <= |ends|
    && OnlyDots(LiveChunks(s, ends, 0, c), parent) && OnlyDots(Live(s, DIRBLKSIZ * c, off), parent)
  }

  lemma ReadRecord(s: Bytes, ends: seq<nat>, c: nat, off: nat, parent: nat)
    requires Read(s, ends, c, off, parent) && Boundary(s, ends, c, off) && off < ends[c]
    ensures RecLen(s, off) > 0 && Boundary(s, ends, c, off + RecLen(s, off))
    ensures (Ino(s, off) == 0 || IsDot(Entry(Name(s, off), Ino(s, off)), parent)) <==>
      Read(s, ends, c, off + RecLen(s, off), parent)
  {
    hide Tiled, Live, Room, Used, RecLen, LiveChunks, Ino, Name, NamLen;
    AtNext(s, ends, c, off);
    HereIs(s, off);
    UsedLive(s, off);
    OnlyDotsCat(Live(s, DIRBLKSIZ * c, off), Here(s, off), parent);
    assert Ino(s, off) != 0 ==> Entry(Name(s, off), Ino(s, off)) in Here(s, off);
  }

  lemma ReadChunk(s: Bytes, ends: seq<nat>, c: nat, parent: nat)
    requires c < |ends| && Read(s, ends, c, ends[c], parent)
    ensures Read(s, ends, c + 1, DIRBLKSIZ * (c + 1), parent)
  {
    hide Live, LiveChunks;
    LiveChunksNext(s, ends, 0, c);
    OnlyDotsCat(LiveChunks(s, ends, 0, c), Live(s, DIRBLKSIZ * c, ends[c]), parent);
    TiledStep(s, DIRBLKSIZ * (c + 1), DIRBLKSIZ * (c + 1));
  }

  /** An entry that is not a dot is among the directory's entries. */
  lemma ReadOther(s: Bytes, ends: seq<nat>, c: nat, off: nat, parent: nat)
    requires DirOk(s, ends) && Boundary(s, ends, c, off) && off < ends[c] && Ino(s, off) != 0
    ensures Entry(Name(s, off), Ino(s, off)) in Entries(s, ends)
  {
    hide Tiled, Live, Room, DirOk, Name, Ino, RecLen, Used, Here, Entries;
    AtNext(s, ends, c, off);
    HereIs(s, off);
    OneSlot(s, off);
    var before, after := RegionChanged(s, s, ends, c, off, off + RecLen(s, off));
    assert Entries(s, ends)[|before|] == Entry(Name(s, off), Ino(s, off));
  }

  /** What dirempty looks at: at most two characters, the first a dot, and so the second. */
  lemma DotTest(s: Bytes, off: nat, parent: nat)
    requires off + TEMPLATE_SIZE / 2 <= |s| && off + HEADER + NamLen(s, off) <= |s| && NamLen(s, off) > 0
    ensures IsDot(Entry(Name(s, off), Ino(s, off)), parent) <==>
      NamLen(s, off) <= 2 && s[off + HEADER] == 0x2e
      && (NamLen(s, off) == 1 || (s[off + HEADER + 1] == 0x2e && Ino(s, off) == parent))
  {
    hide Ino, NamLen;
    var name := Name(s, off);
    assert |name| == NamLen(s, off) && name[0] == s[off + HEADER];
    assert |name| >= 2 ==> name[1] == s[off + HEADER + 1];
  }

  /** rename sets the inode number of "..". */
  lemma Renumbered(s: Bytes, p: nat, v: nat)
    requires p + HEADER + NamLen(s, p) <= |s| && v < 0x1_0000
    ensures var t := Paste(s, p, Short2(v));
      Ino(t, p) == v && RecLen(t, p) == RecLen(s, p) && NamLen(t, p) == NamLen(s, p) && Name(t, p) == Name(s, p)
  {
    var t := Paste(s, p, Short2(v));
    PasteParts(s, p, Short2(v));
    assert t[p] == t[p..p + 2][0] && t[p + 1] == t[p..p + 2][1];
    forall i | p + 2 <= i < |s|
      ensures t[i] == s[i]
    {
      assert t[i] == t[p + 2..][i - p - 2] && s[i] == s[p + 2..][i - p - 2];
    }
    var n := p + HEADER + NamLen(s, p);
    assert t[p + HEADER..n] == s[p + HEADER..n];
  }
}
