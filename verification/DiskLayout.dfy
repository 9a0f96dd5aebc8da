/** Which bytes of the disk hold what: the layouts of fs.h, inode.h and dir.h with the PDP-11's order of bytes, in plain
    arithmetic on the bytes. */
module DiskLayout {
  import opened DiskFormat
  import opened DirEntries
  import opened Superblock
  import opened BlockTree
  import opened InodeMap
  import opened InodeTables
  import opened InodeBlocks

  /** A short: low byte first. */
  function Half(s: Bytes, at: nat): (u: int)
    requires at + 2 <= |s|
    ensures 0 <= u < 0x1_0000
  {
    var low: int, high: int := s[at], s[at + 1];
    low + 0x100 * high
  }

  /** A long: the high half first, each half as a short. */
  function Full(s: Bytes, at: nat): (u: int)
    requires at + 4 <= |s|
    ensures 0 <= u < 0x1_0000_0000
  {
    0x1_0000 * Half(s, at) + Half(s, at + 2)
  }

  /** v is the number whose low bits, 16 or 32 of them, are u. */
  predicate Reads(v: int, u: int, modulus: int) {
    (v - u == 0 || v - u == -modulus) && 2 * v < modulus && 2 * v >= -modulus
  }

  predicate ReadsLong(v: int, u: int) {
    Reads(v, u, 0x1_0000_0000)
  }

  /** The bytes 0, 0, 5, 0 are the number 5. */
  lemma LongLayout(s: Bytes, at: nat)
    requires at + 4 <= |s|
    ensures ReadsLong(LongAt(s, at), Full(s, at))
    ensures s[at..at + 4] == [0, 0, 5, 0] ==> LongAt(s, at) == 5
  {
    var u := HostWord(s, at);
    var b0: int, b1: int, b2: int, b3: int := s[at], s[at + 1], s[at + 2], s[at + 3];
    assert u == b0 + 0x100 * b1 + 0x1_0000 * (b2 + 0x100 * b3);
    assert u / 0x1_0000 == b2 + 0x100 * b3 && u % 0x1_0000 == b0 + 0x100 * b1;
    var q := s[at..at + 4];
    assert q[0] == s[at] && q[1] == s[at + 1] && q[2] == s[at + 2] && q[3] == s[at + 3];
  }

  /** The four bytes that are written for a long. */
  lemma LongStored(v: Long)
    ensures ReadsLong(v, Full([LongByte(v, 0), LongByte(v, 1), LongByte(v, 2), LongByte(v, 3)], 0))
  {
    hide LongByte;
    var s := [LongByte(v, 0), LongByte(v, 1), LongByte(v, 2), LongByte(v, 3)];
    LongRoundTrip(s, 0, v);
    LongLayout(s, 0);
  }

  /** An indirect block is a row of longs. */
  lemma PointersLayout(b: Block, i: nat)
    requires i < NINDIR
    ensures ReadsLong(Pointers(b)[i], Full(b, 4 * i))
  {
    hide LongAt, Full;
    LongLayout(b, 4 * i);
  }

  /** struct fblk, and the same fields in the superblock: the number of entries, then the entries. */
  lemma TableLayout(b: Block, at: nat, i: nat)
    requires at + TABLE_SIZE <= BSIZE && i < NICFREE
    ensures Reads(TableAt(b, at).nfree, Half(b, at), 0x1_0000)
    ensures ReadsLong(TableAt(b, at).free[i], Full(b, at + 2 + 4 * i))
  {
    hide LongAt, Full;
    LongLayout(b, at + 2 + 4 * i);
  }

  lemma SuperLayout(b: Block, i: nat)
    requires i < NICFREE
    ensures SuperAt(b).isize == Half(b, 0) && ReadsLong(SuperAt(b).fsize, Full(b, 2))
    ensures Reads(SuperAt(b).table.nfree, Half(b, 6), 0x1_0000)
    ensures ReadsLong(SuperAt(b).table.free[i], Full(b, 8 + 4 * i)) && ReadsLong(SuperAt(b).tfree, Full(b, 418))
  {
    hide LongAt, Full, TableAt;
    LongLayout(b, 2);
    LongLayout(b, 418);
    TableLayout(b, 6, i);
  }

  /** A write of the superblock leaves all its other bytes as they are in core. */
  lemma SuperOthers(b: Block, s: Super, i: nat)
    requires s.table.Sized() && (208 <= i < 418 || 422 <= i < BSIZE)
    ensures PutSuper(b, s)[i] == b[i]
  {
    hide LongByte;
  }

  /** An inode: 16 to a block, the first in block 2; mode, links, owner, group, size and addresses one after the other,
      and the flags at byte 50. */
  lemma DinodeLayout(b: Block, ino: nat, i: nat)
    requires ino >= 1 && i < NADDR
    ensures Itod(ino) == 2 + (ino - 1) / 16 && Itoo(ino) == (ino - 1) % 16
    ensures var d, at := DinodeAt(b, Itoo(ino)), 64 * ((ino - 1) % 16);
            && d.mode == Half(b, at) && d.nlink == Half(b, at + 2) && d.uid == Half(b, at + 4)
            && d.gid == Half(b, at + 6) && d.flags == Half(b, at + 50)
            && (Full(b, at + 8) < 0x8000_0000 ==> d.size == Full(b, at + 8))
            && ReadsLong(d.addr[i], Full(b, at + 12 + 4 * i))
  {
    hide LongAt, Full;
    var at := DINODE * Itoo(ino);
    assert at == 64 * ((ino - 1) % 16);
    LongLayout(b, at + 8);
    LongLayout(b, at + 12 + 4 * i);
  }

  /** Storing an inode leaves the ten reserved bytes and everything outside its 64 bytes alone; the three times are the
      last twelve. */
  lemma DinodeOthers(b: Block, k: nat, d: Dinode, times: Bytes, i: nat)
    requires k < INOPB && Storable(d) && |times| == 12 && i < BSIZE
    ensures var c, at := PutDinode(b, k, d, times), 64 * k;
            && (i < at || at + 40 <= i < at + 50 || at + 64 <= i ==> c[i] == b[i])
            && c[at + 52..at + 64] == times
  {
    hide HeadBytes;
    var at := DINODE * k;
    var b1, tail := Paste(b, at, HeadBytes(d)), Short2(d.flags) + times;
    PasteParts(b1, at + 50, tail);
    var c := PutDinode(b, k, d, times);
    assert c[at + 50..at + 64] == tail && tail[2..] == times;
    assert c[at + 52..at + 64] == c[at + 50..at + 64][2..];
  }

  /** struct direct. */
  lemma RecordLayout(s: Bytes, p: nat)
    requires p + 6 <= |s|
    ensures Ino(s, p) == Half(s, p) && RecLen(s, p) == Half(s, p + 2) && NamLen(s, p) == Half(s, p + 4)
    ensures p + 6 + NamLen(s, p) <= |s| ==>
              |Name(s, p)| == NamLen(s, p) && forall i :: 0 <= i < NamLen(s, p) ==> Name(s, p)[i] == s[p + 6 + i]
  {
  }

  /** Entry i of an indirect block; a missing block has none. */
  function Entry(d: Disk, b: int, i: nat): int
    requires i < NINDIR
  {
    if b == 0 then 0 else Pointers(At(d, b))[i]
  }

  /** The block of a file: four addresses in the inode, and a single, a double and a triple indirect block for the next
      256, 65536 and 16777216. */
  lemma BlockOfLayout(d: Disk, addr: seq<int>, bn: nat)
    requires |addr| == NADDR && bn < 4 + 256 + 65536 + 16777216
    ensures BlockOf(d, addr, bn) ==
      if bn < 4 then addr[bn]
      else if bn < 260 then Entry(d, addr[4], bn - 4)
      else if bn < 65796 then Entry(d, Entry(d, addr[5], (bn - 260) / 256), (bn - 260) % 256)
      else var k := bn - 65796;
           Entry(d, Entry(d, Entry(d, addr[6], k / 65536), k / 256 % 256), k % 256)
  {
    hide NodeAt, Entry, Span;
    Spans();
    if bn >= 65796 {
      TripleAt(d, addr[6], bn - 65796);
    } else if bn >= 260 {
      DoubleAt(d, addr[5], bn - 260);
    } else if bn >= 4 {
      EntryAt(d, 1, addr[4], bn - 4);
    } else {
      DataAt(d, addr[bn]);
    }
  }

  lemma TripleAt(d: Disk, b: int, k: nat)
    requires k < 16777216
    ensures k < Span(3) && NodeAt(d, 3, b, k, 0) == Entry(d, Entry(d, Entry(d, b, k / 65536), k / 256 % 256), k % 256)
  {
    hide NodeAt, Entry;
    Spans();
    EntryAt(d, 3, b, k);
    DoubleAt(d, Entry(d, b, k / 65536), k % 65536);
    ThreeDigits(k);
  }

  lemma ThreeDigits(k: nat)
    ensures k % 65536 / 256 == k / 256 % 256 && k % 65536 % 256 == k % 256
  {
    var high, low := k / 65536, k % 65536;
    assert k == 256 * (256 * high + low / 256) + low % 256;
    assert k / 256 == 256 * high + low / 256;
  }

  lemma DoubleAt(d: Disk, b: int, k: nat)
    requires k < 65536
    ensures k < Span(2) && NodeAt(d, 2, b, k, 0) == Entry(d, Entry(d, b, k / 256), k % 256)
  {
    hide NodeAt, Entry;
    Spans();
    EntryAt(d, 2, b, k);
    EntryAt(d, 1, Entry(d, b, k / 256), k % 256);
  }

  lemma EntryAt(d: Disk, level: nat, b: int, k: nat)
    requires 0 < level <= 3 && k < Span(level)
    ensures level == 3 ==> NodeAt(d, level, b, k, 0) == NodeAt(d, 2, Entry(d, b, k / 65536), k % 65536, 0)
    ensures level == 2 ==> NodeAt(d, level, b, k, 0) == NodeAt(d, 1, Entry(d, b, k / 256), k % 256, 0)
    ensures level == 1 ==> NodeAt(d, level, b, k, 0) == Entry(d, b, k)
  {
    hide At, Pointers;
    Spans();
    assert level == 1 ==> Slot(level, k) == k;
  }

  lemma DataAt(d: Disk, b: int)
    ensures 0 < Span(0) && NodeAt(d, 0, b, 0, 0) == b
  {
  }
}
