/** Inodes in the blocks of the disk (struct dinode in inode.h): what iupdat writes, iget reads back. */
module InodeBlocks {
  import opened DiskFormat
  import opened DirEntries
  import opened InodeMap
  import opened InodeTables

  const INOPB := 16           // inodes per block
  const DINODE := 64          // sizeof(struct dinode)

  /** itod: the block that holds an inode. */
  function Itod(ino: nat): nat {
    (ino + 2 * INOPB - 1) / INOPB
  }

  /** itoo: its place in the block. */
  function Itoo(ino: nat): (k: nat)
    ensures k < INOPB
  {
    (ino + 2 * INOPB - 1) % INOPB
  }

  lemma PlaceUnique(i: nat, j: nat)
    ensures Itod(i) == Itod(j) && Itoo(i) == Itoo(j) <==> i == j
  {
  }

  /** What fits into a struct dinode. */
  predicate Storable(d: Dinode) {
    && d.mode < 0x1_0000 && 0 <= d.nlink < 0x1_0000 && d.uid < 0x1_0000 && d.gid < 0x1_0000
    && d.size < 0x8000_0000 && d.flags < 0x1_0000
    && |d.addr| == NADDR && forall k :: 0 <= k < NADDR ==> -0x8000_0000 <= d.addr[k] < 0x8000_0000
  }

  function Long4(v: Long): (b: Bytes)
    ensures |b| == 4 && forall i :: 0 <= i < 4 ==> b[i] == LongByte(v, i)
  {
    [LongByte(v, 0), LongByte(v, 1), LongByte(v, 2), LongByte(v, 3)]
  }

  function Longs(a: seq<int>): (b: Bytes)
    requires forall k :: 0 <= k < |a| ==> -0x8000_0000 <= a[k] < 0x8000_0000
    ensures |b| == 4 * |a|
  {
    seq(4 * |a|, i requires 0 <= i < 4 * |a| => LongByte(a[i / 4], i % 4))
  }

  /** The bytes of an inode up to the block addresses. */
  function HeadBytes(d: Dinode): (b: Bytes)
    requires Storable(d)
    ensures |b| == 40
  {
    Short2(d.mode) + Short2(d.nlink) + Short2(d.uid) + Short2(d.gid) + Long4(d.size) + Longs(d.addr)
  }

  /** An inode is stored: its reserved bytes stay, its times are whatever they are. */
  function PutDinode(b: Block, k: nat, d: Dinode, times: Bytes): Block
    requires k < INOPB && Storable(d) && |times| == 12
  {
    Paste(Paste(b, DINODE * k, HeadBytes(d)), DINODE * k + 50, Short2(d.flags) + times)
  }

  function DinodeAt(b: Block, k: nat): Dinode
    requires k < INOPB
  {
    var at := DINODE * k;
    Dinode(Word(b, at), Word(b, at + 2), Word(b, at + 4), Word(b, at + 6),
           if LongAt(b, at + 8) < 0 then 0 else LongAt(b, at + 8),
           seq(NADDR, i requires 0 <= i < NADDR => LongAt(b, at + 12 + 4 * i)), Word(b, at + 50))
  }

  /** Whatever a block holds can be stored again. */
  lemma DinodeStorable(b: Block, k: nat)
    requires k < INOPB
    ensures Storable(DinodeAt(b, k))
  {
    hide LongAt;
  }

  lemma WordIs(s: Bytes, at: nat, v: nat)
    requires at + 2 <= |s| && v < 0x1_0000 && s[at..at + 2] == Short2(v)
    ensures Word(s, at) == v
  {
    assert s[at] == s[at..at + 2][0] && s[at + 1] == s[at..at + 2][1];
  }

  lemma LongIs(s: Bytes, at: nat, v: Long)
    requires at + 4 <= |s| && s[at..at + 4] == Long4(v)
    ensures LongAt(s, at) == v
  {
    forall i | 0 <= i < 4
      ensures s[at + i] == LongByte(v, i)
    {
      assert s[at + i] == s[at..at + 4][i];
    }
    LongRoundTrip(s, at, v);
  }

  lemma LongsAt(a: seq<int>, k: nat)
    requires forall j :: 0 <= j < |a| ==> -0x8000_0000 <= a[j] < 0x8000_0000
    requires k < |a|
    ensures Longs(a)[4 * k..4 * k + 4] == Long4(a[k])
  {
  }

  lemma HeadParts(d: Dinode)
    requires Storable(d)
    ensures var h := HeadBytes(d);
            && h[0..2] == Short2(d.mode) && h[2..4] == Short2(d.nlink) && h[4..6] == Short2(d.uid) && h[6..8] ==
                  Short2(d.gid)
            && h[8..12] == Long4(d.size) && h[12..40] == Longs(d.addr)
  {
  }

  /** The fields read from the stored bytes. */
  lemma HeadBack(c: Bytes, at: nat, d: Dinode)
    requires Storable(d) && at + 40 <= |c| && c[at..at + 40] == HeadBytes(d)
    ensures Word(c, at) == d.mode && Word(c, at + 2) == d.nlink && Word(c, at + 4) == d.uid && Word(c, at + 6) == d.gid
    ensures LongAt(c, at + 8) == d.size
    ensures c[at + 12..at + 40] == Longs(d.addr)
  {
    hide Word, LongAt, Longs, HeadBytes, Long4, Short2;
    HeadParts(d);
    SliceOf(c, at, 40, 0, 2);
    SliceOf(c, at, 40, 2, 4);
    SliceOf(c, at, 40, 4, 6);
    SliceOf(c, at, 40, 6, 8);
    SliceOf(c, at, 40, 8, 12);
    SliceOf(c, at, 40, 12, 40);
    WordIs(c, at, d.mode);
    WordIs(c, at + 2, d.nlink);
    WordIs(c, at + 4, d.uid);
    WordIs(c, at + 6, d.gid);
    LongIs(c, at + 8, d.size);
  }

  lemma AddressBack(c: Bytes, at: nat, d: Dinode, i: nat)
    requires Storable(d) && at + 40 <= |c| && c[at + 12..at + 40] == Longs(d.addr) && i < NADDR
    ensures LongAt(c, at + 12 + 4 * i) == d.addr[i]
  {
    hide LongAt, Longs, Long4;
    LongsAt(d.addr, i);
    SliceOf(c, at + 12, 28, 4 * i, 4 * i + 4);
    LongIs(c, at + 12 + 4 * i, d.addr[i]);
  }

  /** The round trip, and the other inodes of the block. */
  lemma DinodeRoundTrip(b: Block, k: nat, d: Dinode, times: Bytes)
    requires k < INOPB && Storable(d) && |times| == 12
    ensures DinodeAt(PutDinode(b, k, d, times), k) == d
  {
    hide Word, LongAt, Longs, HeadBytes, Long4, Paste, Short2;
    var at := DINODE * k;
    var b1 := Paste(b, at, HeadBytes(d));
    var tail := Short2(d.flags) + times;
    var c := Paste(b1, at + 50, tail);
    PasteParts(b, at, HeadBytes(d));
    PasteParts(b1, at + 50, tail);
    PasteFrame(b1, at + 50, tail, at, at + 40);
    assert c[at..at + 40] == HeadBytes(d);
    HeadBack(c, at, d);
    SliceOf(c, at + 50, 14, 0, 2);
    assert tail[0..2] == Short2(d.flags);
    WordIs(c, at + 50, d.flags);
    forall i | 0 <= i < NADDR
      ensures LongAt(c, at + 12 + 4 * i) == d.addr[i]
    {
      AddressBack(c, at, d, i);
    }
  }

  lemma OtherDinode(b: Block, k: nat, d: Dinode, times: Bytes, j: nat)
    requires k < INOPB && j < INOPB && j != k && Storable(d) && |times| == 12
    ensures DinodeAt(PutDinode(b, k, d, times), j) == DinodeAt(b, j)
  {
    hide Word, LongAt, HeadBytes, Paste;
    var at := DINODE * k;
    var b1 := Paste(b, at, HeadBytes(d));
    PasteFrame(b, at, HeadBytes(d), DINODE * j, DINODE * j + DINODE);
    PasteFrame(b1, at + 50, Short2(d.flags) + times, DINODE * j, DINODE * j + DINODE);
    SameDinode(b, PutDinode(b, k, d, times), j);
  }

  lemma SameDinode(b: Block, c: Block, j: nat)
    requires j < INOPB && b[DINODE * j..DINODE * j + DINODE] == c[DINODE * j..DINODE * j + DINODE]
    ensures DinodeAt(b, j) == DinodeAt(c, j)
  {
    hide Word, LongAt;
    var at := DINODE * j;
    WordMoved(b, at, c, at, DINODE, 0);
    WordMoved(b, at, c, at, DINODE, 2);
    WordMoved(b, at, c, at, DINODE, 4);
    WordMoved(b, at, c, at, DINODE, 6);
    WordMoved(b, at, c, at, DINODE, 50);
    LongMoved(b, c, at, DINODE, 8);
    forall i | 0 <= i < NADDR
      ensures LongAt(b, at + 12 + 4 * i) == LongAt(c, at + 12 + 4 * i)
    {
      LongMoved(b, c, at, DINODE, 12 + 4 * i);
    }
  }

  lemma LongMoved(s: Bytes, t: Bytes, p: nat, n: nat, i: nat)
    requires p + n <= |s| && p + n <= |t| && s[p..p + n] == t[p..p + n] && i + 4 <= n
    ensures LongAt(s, p + i) == LongAt(t, p + i)
  {
    var a, b := s[p..p + n], t[p..p + n];
    assert s[p + i] == a[i] && s[p + i + 1] == a[i + 1] && s[p + i + 2] == a[i + 2] && s[p + i + 3] == a[i + 3];
    assert t[p + i] == b[i] && t[p + i + 1] == b[i + 1] && t[p + i + 2] == b[i + 2] && t[p + i + 3] == b[i + 3];
  }
}
