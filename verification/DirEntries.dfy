/** Directory entries (dir.h) and their compaction (direnter in ufs_namei.c): records of variable length that
    tile the 512-byte chunks of a directory. */
module DirEntries {
  import opened DiskFormat

  const DIRBLKSIZ := 512
  const MAXNAMLEN := 63
  const HEADER := 6

  type Bytes = seq<Byte>

  /** A live entry, as callers see it. */
  datatype Entry = Entry(name: Bytes, ino: nat)

  /** DIRSIZ: header, name and its NUL, rounded up to a multiple of 4. */
  function DirSiz(namlen: nat): (n: nat)
    ensures n % 4 == 0 && namlen + 7 <= n <= namlen + 10
  {
    (namlen + 10) / 4 * 4
  }

  function Word(s: Bytes, p: nat): (w: nat)
    ensures w < 0x1_0000
  {
    if p + 2 <= |s| then
      var lo: int, hi: int := s[p], s[p + 1];
      lo + 0x100 * hi
    else 0
  }

  function Ino(s: Bytes, p: nat): (n: nat)
    ensures n < 0x1_0000
  {
    Word(s, p)
  }

  function RecLen(s: Bytes, p: nat): (n: nat)
    ensures n < 0x1_0000
  {
    Word(s, p + 2)
  }

  function NamLen(s: Bytes, p: nat): (n: nat)
    ensures n < 0x1_0000
  {
    Word(s, p + 4)
  }

  function Name(s: Bytes, p: nat): Bytes {
    if p + HEADER + NamLen(s, p) <= |s| then s[p + HEADER..p + HEADER + NamLen(s, p)] else []
  }

  /** What the record at p needs; a free record needs nothing. */
  function Used(s: Bytes, p: nat): nat {
    if Ino(s, p) == 0 then 0 else DirSiz(NamLen(s, p))
  }

  /** The live entry at p, if there is one. */
  function Here(s: Bytes, p: nat): seq<Entry> {
    if Ino(s, p) == 0 then [] else [Entry(Name(s, p), Ino(s, p))]
  }

  /** dirbadentry, without the check of the name's characters: a record that fits in [p, end). */
  ghost predicate SlotOk(s: Bytes, p: nat, end: nat) {
    && p + HEADER <= end <= |s|
    && NamLen(s, p) <= MAXNAMLEN
    && RecLen(s, p) % 4 == 0
    && DirSiz(NamLen(s, p)) <= RecLen(s, p)
    && p + RecLen(s, p) <= end
  }

  /** [p, end) is exactly covered by records. */
  ghost predicate Tiled(s: Bytes, p: nat, end: nat)
    decreases end - p
  {
    p == end <= |s| || (SlotOk(s, p, end) && Tiled(s, p + RecLen(s, p), end))
  }

  /** The live entries of [p, end), in order. */
  ghost function Live(s: Bytes, p: nat, end: nat): seq<Entry>
    decreases end - p
  {
    if p >= end || RecLen(s, p) == 0 then [] else Here(s, p) + Live(s, p + RecLen(s, p), end)
  }

  /** The space in [p, end) that live entries do not need. */
  ghost function Room(s: Bytes, p: nat, end: nat): int
    decreases end - p
  {
    if p >= end || RecLen(s, p) == 0 then 0 else RecLen(s, p) - Used(s, p) + Room(s, p + RecLen(s, p), end)
  }

  lemma TiledStep(s: Bytes, p: nat, end: nat)
    ensures Tiled(s, p, end) ==> p <= end <= |s| && (p < end ==> SlotOk(s, p, end) && Tiled(s, p + RecLen(s, p), end))
    ensures SlotOk(s, p, end) && Tiled(s, p + RecLen(s, p), end) ==> Tiled(s, p, end)
    ensures p == end <= |s| ==> Tiled(s, p, end)
    ensures p >= end ==> Live(s, p, end) == [] && Room(s, p, end) == 0
    ensures SlotOk(s, p, end) ==> Live(s, p, end) == Here(s, p) + Live(s, p + RecLen(s, p), end)
    ensures SlotOk(s, p, end) ==> Room(s, p, end) == RecLen(s, p) - Used(s, p) + Room(s, p + RecLen(s, p), end)
  {
  }

  /** One record by itself. */
  lemma OneSlot(s: Bytes, p: nat)
    requires SlotOk(s, p, p + RecLen(s, p))
    ensures Tiled(s, p, p + RecLen(s, p))
    ensures Live(s, p, p + RecLen(s, p)) == Here(s, p)
    ensures Room(s, p, p + RecLen(s, p)) == RecLen(s, p) - Used(s, p)
  {
    hide Tiled, Live, Room, Here, Used;
    var q := p + RecLen(s, p);
    TiledStep(s, p, q);
    TiledStep(s, q, q);
    assert Here(s, p) + [] == Here(s, p);
  }

  lemma {:induction false} Join(s: Bytes, p: nat, m: nat, end: nat)
    requires Tiled(s, p, m) && Tiled(s, m, end)
    ensures Tiled(s, p, end)
    ensures Live(s, p, end) == Live(s, p, m) + Live(s, m, end)
    ensures Room(s, p, end) == Room(s, p, m) + Room(s, m, end)
    decreases m - p
  {
    hide Tiled, Live, Room, Here, Used;
    TiledStep(s, p, m);
    TiledStep(s, m, end);
    TiledStep(s, p, end);
    if p < m {
      Join(s, p + RecLen(s, p), m, end);
    }
  }

  /** Records cover multiples of 4 bytes, and have room for what is left. */
  lemma {:induction false} TiledSize(s: Bytes, p: nat, end: nat)
    requires Tiled(s, p, end)
    ensures p <= end <= |s| && (end - p) % 4 == 0 && 0 <= Room(s, p, end) <= end - p
    decreases end - p
  {
    hide Tiled, Live, Room;
    TiledStep(s, p, end);
    if p < end {
      TiledSize(s, p + RecLen(s, p), end);
    }
  }

  lemma SliceOf(s: Bytes, p: nat, n: nat, i: nat, j: nat)
    requires p + n <= |s| && i <= j <= n
    ensures s[p..p + n][i..j] == s[p + i..p + j]
  {
    var a, b := s[p..p + n][i..j], s[p + i..p + j];
    forall k | 0 <= k < j - i
      ensures a[k] == b[k]
    {
      assert a[k] == s[p..p + n][i + k] == s[p + i + k];
    }
  }

  lemma WordMoved(s: Bytes, p: nat, t: Bytes, q: nat, n: nat, i: nat)
    requires p + n <= |s| && q + n <= |t| && s[p..p + n] == t[q..q + n] && i + 2 <= n
    ensures Word(s, p + i) == Word(t, q + i)
  {
    assert s[p + i] == s[p..p + n][i] && s[p + i + 1] == s[p..p + n][i + 1];
    assert t[q + i] == t[q..q + n][i] && t[q + i + 1] == t[q..q + n][i + 1];
  }

  /** A record's header and name are determined by the bytes it needs. */
  lemma HeaderMoved(s: Bytes, p: nat, t: Bytes, q: nat, n: nat)
    requires p + n <= |s| && q + n <= |t| && s[p..p + n] == t[q..q + n]
    requires HEADER <= n && HEADER + NamLen(s, p) <= n
    ensures Ino(t, q) == Ino(s, p) && RecLen(t, q) == RecLen(s, p) && NamLen(t, q) == NamLen(s, p)
    ensures Name(t, q) == Name(s, p) && Here(t, q) == Here(s, p) && Used(t, q) == Used(s, p)
  {
    hide Word;
    WordMoved(s, p, t, q, n, 0);
    WordMoved(s, p, t, q, n, 2);
    WordMoved(s, p, t, q, n, 4);
    var k := HEADER + NamLen(s, p);
    SliceOf(s, p, n, HEADER, k);
    SliceOf(t, q, n, HEADER, k);
  }

  /** Equal bytes are tiled by the same records, wherever they lie. */
  lemma {:induction false} Moved(s: Bytes, p: nat, t: Bytes, q: nat, n: nat)
    requires p + n <= |s| && q + n <= |t| && s[p..p + n] == t[q..q + n]
    requires Tiled(s, p, p + n)
    ensures Tiled(t, q, q + n)
    ensures Live(t, q, q + n) == Live(s, p, p + n)
    ensures Room(t, q, q + n) == Room(s, p, p + n)
    decreases n
  {
    hide Tiled, Live, Room, Here, Used, Ino, Name, RecLen, NamLen;
    TiledStep(s, p, p + n);
    TiledStep(t, q, q + n);
    if n > 0 {
      HeaderMoved(s, p, t, q, n);
      var k := RecLen(s, p);
      assert s[p + k..p + n] == s[p..p + n][k..];
      assert t[q + k..q + n] == t[q..q + n][k..];
      Moved(s, p + k, t, q + k, n - k);
    }
  }

  // Changes to the bytes.

  function Paste(s: Bytes, at: nat, bytes: Bytes): (r: Bytes)
    requires at + |bytes| <= |s|
    ensures |r| == |s|
  {
    s[..at] + bytes + s[at + |bytes|..]
  }

  lemma PasteParts(s: Bytes, at: nat, bytes: Bytes)
    requires at + |bytes| <= |s|
    ensures var r := Paste(s, at, bytes);
            r[..at] == s[..at] && r[at..at + |bytes|] == bytes && r[at + |bytes|..] == s[at + |bytes|..]
  {
  }

  function Short2(v: nat): (b: Bytes)
    requires v < 0x1_0000
    ensures |b| == 2
  {
    [v % 0x100, v / 0x100]
  }

  /** A range outside the pasted bytes keeps its contents. */
  lemma PasteFrame(s: Bytes, at: nat, bytes: Bytes, lo: nat, hi: nat)
    requires at + |bytes| <= |s| && lo <= hi <= |s|
    requires hi <= at || at + |bytes| <= lo
    ensures Paste(s, at, bytes)[lo..hi] == s[lo..hi]
  {
    var r := Paste(s, at, bytes);
    PasteParts(s, at, bytes);
    if hi <= at {
      assert r[lo..hi] == r[..at][lo..hi];
      assert s[lo..hi] == s[..at][lo..hi];
    } else {
      var k := at + |bytes|;
      assert r[lo..hi] == r[k..][lo - k..hi - k];
      assert s[lo..hi] == s[k..][lo - k..hi - k];
    }
  }

  lemma PasteOutside(s: Bytes, at: nat, bytes: Bytes, lo: nat, hi: nat)
    requires lo <= at && at + |bytes| <= hi <= |s|
    ensures Paste(s, at, bytes)[..lo] == s[..lo] && Paste(s, at, bytes)[hi..] == s[hi..]
  {
    PasteFrame(s, at, bytes, 0, lo);
    PasteFrame(s, at, bytes, hi, |s|);
    var r := Paste(s, at, bytes);
    assert r[..lo] == r[0..lo] && s[..lo] == s[0..lo];
    assert r[hi..] == r[hi..|s|] && s[hi..] == s[hi..|s|];
  }

  /** The record length of a record is set; the rest of its header and its name stay. */
  lemma Relength(s: Bytes, p: nat, v: nat)
    requires p + HEADER + NamLen(s, p) <= |s| && v < 0x1_0000
    ensures RecLen(Paste(s, p + 2, Short2(v)), p) == v
    ensures Ino(Paste(s, p + 2, Short2(v)), p) == Ino(s, p) && NamLen(Paste(s, p + 2, Short2(v)), p) == NamLen(s, p)
    ensures Name(Paste(s, p + 2, Short2(v)), p) == Name(s, p)
    ensures Here(Paste(s, p + 2, Short2(v)), p) == Here(s, p) && Used(Paste(s, p + 2, Short2(v)), p) == Used(s, p)
  {
    var r := Paste(s, p + 2, Short2(v));
    PasteParts(s, p + 2, Short2(v));
    PasteFrame(s, p + 2, Short2(v), p, p + 2);
    assert r[p] == r[p..p + 2][0] && r[p + 1] == r[p..p + 2][1];
    assert s[p] == s[p..p + 2][0] && s[p + 1] == s[p..p + 2][1];
    assert r[p + 2] == r[p + 2..p + 4][0] && r[p + 3] == r[p + 2..p + 4][1];
    PasteFrame(s, p + 2, Short2(v), p + 4, p + HEADER + NamLen(s, p));
    assert r[p + 4] == r[p + 4..][0] && s[p + 4] == s[p + 4..][0];
    assert r[p + 5] == r[p + 4..][1] && s[p + 5] == s[p + 4..][1];
    var n := NamLen(s, p);
    assert r[p + 6..p + 6 + n] == r[p + 4..p + 6 + n][2..];
    assert s[p + 6..p + 6 + n] == s[p + 4..p + 6 + n][2..];
  }

  /** struct direct in memory, as far as DIRSIZ: what follows the name's NUL is whatever was there. */
  function Dirent(ino: nat, reclen: nat, name: Bytes, pad: Bytes): (b: Bytes)
    requires ino < 0x1_0000 && reclen < 0x1_0000 && |name| <= MAXNAMLEN
    requires |pad| == DirSiz(|name|) - HEADER - |name| - 1
    ensures |b| == DirSiz(|name|)
  {
    Short2(ino) + Short2(reclen) + Short2(|name|) + name + [0] + pad
  }

  lemma DirentHere(s: Bytes, p: nat, ino: nat, reclen: nat, name: Bytes, pad: Bytes)
    requires ino < 0x1_0000 && reclen < 0x1_0000 && |name| <= MAXNAMLEN
    requires |pad| == DirSiz(|name|) - HEADER - |name| - 1
    requires p + DirSiz(|name|) <= |s| && s[p..p + DirSiz(|name|)] == Dirent(ino, reclen, name, pad)
    ensures Ino(s, p) == ino && RecLen(s, p) == reclen && NamLen(s, p) == |name| && Name(s, p) == name
  {
    var b := Dirent(ino, reclen, name, pad);
    assert b[0] == ino % 0x100 && b[1] == ino / 0x100 && b[2] == reclen % 0x100 && b[3] == reclen / 0x100;
    assert b[4] == |name| % 0x100 && b[5] == |name| / 0x100;
    assert b[6..6 + |name|] == name;
    HeaderMoved(b, 0, s, p, |b|);
  }
}
