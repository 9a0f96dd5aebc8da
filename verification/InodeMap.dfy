/** The map from logical to physical blocks of one inode: four direct addresses and the roots of a
    single, a double and a triple indirect tree. */
module InodeMap {
  import opened DiskFormat
  import opened Tally
  import opened BlockTree

  const NDADDR := 4
  const NADDR := 7

  /** One more than the largest logical block number an inode can map. */
  const MAX_BLOCKS := 4 + 256 + 65536 + 16777216

  function LevelOf(slot: nat): nat {
    if slot < NDADDR then 0 else slot - (NDADDR - 1)
  }

  /** The address slot that covers logical block bn, ... */
  function SlotFor(bn: nat): (slot: nat)
    requires bn < MAX_BLOCKS
    ensures slot < NADDR
  {
    if bn < 4 then bn else if bn < 4 + 256 then 4 else if bn < 4 + 256 + 65536 then 5 else 6
  }

  /** ... and the index of bn in the tree of that slot. */
  function IndexIn(bn: nat): (k: nat)
    requires bn < MAX_BLOCKS
    ensures k < Span(LevelOf(SlotFor(bn)))
  {
    Spans();
    if bn < 4 then 0 else if bn < 4 + 256 then bn - 4 else if bn < 4 + 256 + 65536 then bn - 260 else bn - 65796
  }

  lemma LocationUnique(bn: nat, bn': nat)
    requires bn < MAX_BLOCKS && bn' < MAX_BLOCKS
    requires SlotFor(bn) == SlotFor(bn') && IndexIn(bn) == IndexIn(bn')
    ensures bn == bn'
  {
  }

  /** The physical block of logical block bn, 0 for a hole. */
  function BlockOf(d: Disk, addr: seq<int>, bn: nat): int
    requires |addr| == NADDR && bn < MAX_BLOCKS
  {
    NodeAt(d, LevelOf(SlotFor(bn)), addr[SlotFor(bn)], IndexIn(bn), 0)
  }

  /** The addresses of a file without blocks. */
  function NoBlocks(): (addr: seq<int>)
    ensures |addr| == NADDR
  {
    seq(NADDR, _ => 0)
  }

  /** The block `floor` levels above the data on the way to logical block bn, 0 when it is missing. */
  function Way(d: Disk, addr: seq<int>, bn: nat, floor: nat): int
    requires |addr| == NADDR && bn < MAX_BLOCKS && floor <= LevelOf(SlotFor(bn))
  {
    NodeAt(d, LevelOf(SlotFor(bn)), addr[SlotFor(bn)], IndexIn(bn), floor)
  }

  /** Logical blocks bn and bn' are reached through the same block at height `floor`. */
  predicate SameWay(bn: nat, bn': nat, floor: nat)
    requires bn < MAX_BLOCKS && bn' < MAX_BLOCKS
  {
    SlotFor(bn) == SlotFor(bn') && Shared(IndexIn(bn), IndexIn(bn'), floor)
  }

  ghost function SlotTrees(d: Disk, addr: seq<int>, floor: nat): (ms: seq<multiset<int>>)
    ensures |ms| == |addr|
  {
    seq(|addr|, i requires 0 <= i < |addr| => Nodes(d, LevelOf(i), addr[i], floor))
  }

  /** Every block the inode owns (floor 0), or only its indirect blocks (floor 1). */
  ghost function Claims(d: Disk, addr: seq<int>, floor: nat): multiset<int> {
    Sum(SlotTrees(d, addr, floor))
  }

  lemma SlotTreesAt(d: Disk, addr: seq<int>, floor: nat, i: nat)
    requires i < |addr|
    ensures SlotTrees(d, addr, floor)[i] == Nodes(d, LevelOf(i), addr[i], floor)
  {
    hide Nodes;
  }

  lemma TreeInClaims(d: Disk, addr: seq<int>, floor: nat, i: nat)
    requires i < |addr|
    ensures Nodes(d, LevelOf(i), addr[i], floor) <= Claims(d, addr, floor)
  {
    hide Nodes, SlotTrees, Sum;
    SlotTreesAt(d, addr, floor, i);
    SumMember(SlotTrees(d, addr, floor), i);
  }

  lemma ClaimsFrame(d: Disk, d': Disk, addr: seq<int>, floor: nat)
    requires SameOn(d, d', Claims(d, addr, 1))
    ensures Claims(d', addr, floor) == Claims(d, addr, floor)
  {
    hide Nodes, Sum, SlotTrees, At;
    var ms, ms' := SlotTrees(d, addr, floor), SlotTrees(d', addr, floor);
    forall i | 0 <= i < |addr|
      ensures ms'[i] == ms[i]
    {
      TreeInClaims(d, addr, 1, i);
      NodesFrame(d, d', LevelOf(i), addr[i], floor);
      SlotTreesAt(d, addr, floor, i);
      SlotTreesAt(d', addr, floor, i);
    }
    assert ms' == ms;
  }

  lemma BlockOfFrame(d: Disk, d': Disk, addr: seq<int>, bn: nat)
    requires |addr| == NADDR && bn < MAX_BLOCKS
    requires SameOn(d, d', Claims(d, addr, 1))
    ensures BlockOf(d', addr, bn) == BlockOf(d, addr, bn)
  {
    hide Nodes, Claims, NodeAt, SlotFor, IndexIn, Span, At;
    var i := SlotFor(bn);
    TreeInClaims(d, addr, 1, i);
    NodeAtFrame(d, d', LevelOf(i), addr[i], IndexIn(bn), 0);
  }

  lemma WayFrame(d: Disk, d': Disk, addr: seq<int>, bn: nat, floor: nat)
    requires |addr| == NADDR && bn < MAX_BLOCKS && floor <= LevelOf(SlotFor(bn))
    requires SameOn(d, d', Claims(d, addr, 1))
    ensures Way(d', addr, bn, floor) == Way(d, addr, bn, floor)
  {
    hide Nodes, Claims, NodeAt, SlotFor, IndexIn, Span, At;
    var i := SlotFor(bn);
    TreeInClaims(d, addr, 1, i);
    NodeAtFrame(d, d', LevelOf(i), addr[i], IndexIn(bn), floor);
  }

  lemma WayShared(d: Disk, addr: seq<int>, bn: nat, bn': nat, floor: nat)
    requires |addr| == NADDR && bn < MAX_BLOCKS && bn' < MAX_BLOCKS && SameWay(bn, bn', floor)
    requires floor <= LevelOf(SlotFor(bn))
    ensures Way(d, addr, bn', floor) == Way(d, addr, bn, floor)
  {
    hide NodeAt, SlotFor, IndexIn, Span, Shared;
    SharedNode(d, LevelOf(SlotFor(bn)), addr[SlotFor(bn)], IndexIn(bn), IndexIn(bn'), floor);
  }

  lemma InnerClaims(d: Disk, addr: seq<int>)
    ensures Claims(d, addr, 1) <= Claims(d, addr, 0)
  {
    hide Nodes, Sum, SlotTrees;
    var ms, ms' := SlotTrees(d, addr, 1), SlotTrees(d, addr, 0);
    forall i | 0 <= i < |addr|
      ensures ms[i] <= ms'[i]
    {
      SlotTreesAt(d, addr, 0, i);
      SlotTreesAt(d, addr, 1, i);
      FloorMonotone(d, LevelOf(i), addr[i], 0, 1);
    }
    SumMonotone(ms, ms');
  }

  lemma OnceSlot(d: Disk, addr: seq<int>, i: nat)
    requires Once(Claims(d, addr, 0)) && i < |addr|
    ensures Once(Nodes(d, LevelOf(i), addr[i], 0))
  {
    hide Nodes, Claims;
    TreeInClaims(d, addr, 0, i);
  }

  /** Trees in different slots share no block. */
  lemma SlotsApart(d: Disk, addr: seq<int>, i: nat, j: nat, x: int)
    requires Once(Claims(d, addr, 0)) && i < |addr| && j < |addr| && i != j
    requires x in Nodes(d, LevelOf(i), addr[i], 0)
    ensures x !in Nodes(d, LevelOf(j), addr[j], 0)
  {
    hide Nodes, SlotTrees, Sum;
    SlotTreesAt(d, addr, 0, i);
    SlotTreesAt(d, addr, 0, j);
    SumApart(SlotTrees(d, addr, 0), i, j, x);
  }

  lemma DataInClaims(d: Disk, addr: seq<int>, bn: nat)
    requires |addr| == NADDR && bn < MAX_BLOCKS && BlockOf(d, addr, bn) != 0
    ensures BlockOf(d, addr, bn) in Claims(d, addr, 0)
    ensures BlockOf(d, addr, bn) in Nodes(d, LevelOf(SlotFor(bn)), addr[SlotFor(bn)], 0)
  {
    hide Nodes, Claims, NodeAt, SlotFor, IndexIn, Span;
    TreeInClaims(d, addr, 0, SlotFor(bn));
    NodeAtMember(d, LevelOf(SlotFor(bn)), addr[SlotFor(bn)], IndexIn(bn), 0, 0);
  }

  /** A data block is never an indirect block of the same file. */
  lemma DataNotInner(d: Disk, addr: seq<int>, bn: nat)
    requires |addr| == NADDR && bn < MAX_BLOCKS && Once(Claims(d, addr, 0))
    requires BlockOf(d, addr, bn) != 0
    ensures BlockOf(d, addr, bn) !in Claims(d, addr, 1)
  {
    hide Nodes, SlotTrees, NodeAt, SlotFor, IndexIn, Span, Sum, Once;
    var x, i := BlockOf(d, addr, bn), SlotFor(bn);
    DataInClaims(d, addr, bn);
    if x in Claims(d, addr, 1) {
      var j := SumWitness(SlotTrees(d, addr, 1), x);
      SlotTreesAt(d, addr, 1, j);
      FloorMonotone(d, LevelOf(j), addr[j], 0, 1);
      if j == i {
        OnceSlot(d, addr, i);
        LeafNotInner(d, LevelOf(i), addr[i], IndexIn(bn));
      } else {
        SlotsApart(d, addr, i, j, x);
      }
    }
  }

  /** Logical blocks and data blocks correspond one to one. */
  lemma BlockOfUnique(d: Disk, addr: seq<int>, bn: nat, bn': nat)
    requires |addr| == NADDR && bn < MAX_BLOCKS && bn' < MAX_BLOCKS && Once(Claims(d, addr, 0))
    requires BlockOf(d, addr, bn) != 0 && BlockOf(d, addr, bn) == BlockOf(d, addr, bn')
    ensures bn == bn'
  {
    hide Nodes, Claims, NodeAt, SlotFor, IndexIn, Span, Once;
    var i, j := SlotFor(bn), SlotFor(bn');
    if i == j {
      OnceSlot(d, addr, i);
      LeafUnique(d, LevelOf(i), addr[i], IndexIn(bn), IndexIn(bn'));
      LocationUnique(bn, bn');
    } else {
      DataInClaims(d, addr, bn);
      DataInClaims(d, addr, bn');
      SlotsApart(d, addr, i, j, BlockOf(d, addr, bn));
    }
  }
}
