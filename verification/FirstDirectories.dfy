/** The two directories of a new volume (bsd211fs_initrootdir in bsd211fs.c), as bytes and as names. */
module FirstDirectories {
  import opened DirEntries
  import opened Compaction
  import opened Directories
  import opened DirDots
  import opened DirFile
  import opened DirNames
  import opened NameTree
  import opened TreeMoves
  import opened CallSpecs
  import opened RenameSpec

  const LOSTFOUNDINO := 3

  function LostFoundName(): Bytes {
    [0x6c, 0x6f, 0x73, 0x74, 0x2b, 0x66, 0x6f, 0x75, 0x6e, 0x64]
  }

  function RootBytes(): (s: Bytes)
    ensures |s| == DIRBLKSIZ
  {
    Dirent(ROOTINO, 8, [0x2e], []) + Dirent(ROOTINO, 12, [0x2e, 0x2e], [0, 0, 0])
    + Dirent(LOSTFOUNDINO, DIRBLKSIZ - 20, LostFoundName(), [0, 0, 0]) + Zeros(DIRBLKSIZ - 40)
  }

  /** The block that holds it. */
  function RootBlock(): (s: Bytes)
    ensures |s| == 2 * DIRBLKSIZ && s[..DIRBLKSIZ] == RootBytes()
    ensures forall i :: DIRBLKSIZ <= i < 2 * DIRBLKSIZ ==> s[i] == 0
  {
    RootBytes() + Zeros(DIRBLKSIZ)
  }

  function LostFoundBytes(): (s: Bytes)
    ensures |s| == 2 * DIRBLKSIZ
  {
    Dirent(LOSTFOUNDINO, 8, [0x2e], []) + Dirent(ROOTINO, DIRBLKSIZ - 8, [0x2e, 0x2e], [0, 0, 0])
    + Zeros(DIRBLKSIZ - 20) + Short2(0) + Short2(DIRBLKSIZ) + Zeros(DIRBLKSIZ - 4)
  }

  function RootEntries(): seq<Entry> {
    [Entry([0x2e], ROOTINO), Entry([0x2e, 0x2e], ROOTINO), Entry(LostFoundName(), LOSTFOUNDINO)]
  }

  function LostFoundEntries(): seq<Entry> {
    [Entry([0x2e], LOSTFOUNDINO), Entry([0x2e, 0x2e], ROOTINO)]
  }

  lemma RootIsDirectory()
    ensures DirOk(RootBytes(), [DIRBLKSIZ]) && Entries(RootBytes(), [DIRBLKSIZ]) == RootEntries()
    ensures UniqueNames(RootEntries()) && DotsAt(RootBytes(), ROOTINO, ROOTINO)
  {
    hide Tiled, Live, Dirent, RecLen, NamLen, Ino, Name, Here, Used, Room;
    var s := RootBytes();
    assert s[0..8] == Dirent(ROOTINO, 8, [0x2e], []);
    assert s[8..20] == Dirent(ROOTINO, 12, [0x2e, 0x2e], [0, 0, 0]);
    assert s[20..40] == Dirent(LOSTFOUNDINO, DIRBLKSIZ - 20, LostFoundName(), [0, 0, 0]);
    DirentHere(s, 0, ROOTINO, 8, [0x2e], []);
    DirentHere(s, 8, ROOTINO, 12, [0x2e, 0x2e], [0, 0, 0]);
    DirentHere(s, 20, LOSTFOUNDINO, DIRBLKSIZ - 20, LostFoundName(), [0, 0, 0]);
    OneSlot(s, 0);
    OneSlot(s, 8);
    OneSlot(s, 20);
    HereIs(s, 0);
    HereIs(s, 8);
    HereIs(s, 20);
    Join(s, 0, 8, 20);
    Join(s, 0, 20, DIRBLKSIZ);
    LiveChunksNext(s, [DIRBLKSIZ], 0, 0);
    assert LiveChunks(s, [DIRBLKSIZ], 0, 0) == [];
  }

  lemma LostFoundIsDirectory()
    ensures DirOk(LostFoundBytes(), [DIRBLKSIZ, 2 * DIRBLKSIZ])
    ensures Entries(LostFoundBytes(), [DIRBLKSIZ, 2 * DIRBLKSIZ]) == LostFoundEntries()
    ensures UniqueNames(LostFoundEntries()) && DotsAt(LostFoundBytes(), LOSTFOUNDINO, ROOTINO)
  {
    hide Tiled, Live, Dirent, RecLen, NamLen, Ino, Name, Here, Used, Room;
    var s, ends := LostFoundBytes(), [DIRBLKSIZ, 2 * DIRBLKSIZ];
    assert s[0..8] == Dirent(LOSTFOUNDINO, 8, [0x2e], []);
    assert s[8..20] == Dirent(ROOTINO, DIRBLKSIZ - 8, [0x2e, 0x2e], [0, 0, 0]);
    DirentHere(s, 0, LOSTFOUNDINO, 8, [0x2e], []);
    DirentHere(s, 8, ROOTINO, DIRBLKSIZ - 8, [0x2e, 0x2e], [0, 0, 0]);
    EmptyChunk(s);
    OneSlot(s, 0);
    OneSlot(s, 8);
    OneSlot(s, DIRBLKSIZ);
    HereIs(s, 0);
    HereIs(s, 8);
    Join(s, 0, 8, DIRBLKSIZ);
    LiveChunksNext(s, ends, 0, 0);
    LiveChunksNext(s, ends, 0, 1);
    assert LiveChunks(s, ends, 0, 0) == [];
  }

  lemma EmptyChunk(s: Bytes)
    requires s == LostFoundBytes()
    ensures RecLen(s, DIRBLKSIZ) == DIRBLKSIZ && NamLen(s, DIRBLKSIZ) == 0 && Here(s, DIRBLKSIZ) == []
  {
    assert s[DIRBLKSIZ] == 0 && s[DIRBLKSIZ + 1] == 0 && s[DIRBLKSIZ + 2] == 0 && s[DIRBLKSIZ + 3] == 2;
    assert s[DIRBLKSIZ + 4] == 0 && s[DIRBLKSIZ + 5] == 0;
  }

  /** The names of the two directories, with the link counts of their inodes, are those of a tree. */
  lemma FirstTree()
    ensures var names := NamesOf(ROOTINO, RootEntries()) + NamesOf(LOSTFOUNDINO, LostFoundEntries());
      && Conserved(names, map[ROOTINO := 3, LOSTFOUNDINO := 2]) && Tree(names, {ROOTINO, LOSTFOUNDINO})
  {
    hide Conserved, Tree;
    RootValid();
    MadeValid(RootNames(), map[ROOTINO := 2], {ROOTINO}, Key(ROOTINO, LostFoundName()), LOSTFOUNDINO);
    assert {ROOTINO} + {LOSTFOUNDINO} == {ROOTINO, LOSTFOUNDINO};
    assert Bump(map[ROOTINO := 2], ROOTINO, 1)[LOSTFOUNDINO := 2] == map[ROOTINO := 3, LOSTFOUNDINO := 2];
    FirstNames();
  }

  lemma FirstNames()
    ensures NamesOf(ROOTINO, RootEntries()) + NamesOf(LOSTFOUNDINO, LostFoundEntries())
      == Made(RootNames(), Key(ROOTINO, LostFoundName()), LOSTFOUNDINO)
  {
    hide NamesOf;
    NamesOfStep(ROOTINO, RootEntries());
    NamesOfStep(ROOTINO, RootEntries()[..2]);
    NamesOfStep(ROOTINO, RootEntries()[..2][..1]);
    NamesOfStep(ROOTINO, []);
    NamesOfStep(LOSTFOUNDINO, LostFoundEntries());
    NamesOfStep(LOSTFOUNDINO, LostFoundEntries()[..1]);
    NamesOfStep(LOSTFOUNDINO, []);
    assert RootEntries()[..2][..1][..0] == [] && LostFoundEntries()[..1][..0] == [];
  }
}
