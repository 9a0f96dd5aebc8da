/** Hash chains as lists of indices: buffers (buf.h) and in-core inodes (ufs_inode.c) are on one chain each. */
module HashChains {

  /** s without i. */
  function Unlink(s: seq<nat>, i: nat): (r: seq<nat>)
    ensures forall x :: x in r <==> x in s && x != i
  {
    if s == [] then [] else (if s[0] == i then [] else [s[0]]) + Unlink(s[1..], i)
  }

  ghost predicate Distinct(s: seq<nat>) {
    forall x, y :: 0 <= x < y < |s| ==> s[x] != s[y]
  }

  lemma UnlinkDistinct(s: seq<nat>, i: nat)
    requires Distinct(s)
    ensures Distinct(Unlink(s, i))
  {
    if s != [] {
      UnlinkDistinct(s[1..], i);
      assert s[0] !in s[1..];
    }
  }

  lemma AppendDistinct(s: seq<nat>, i: nat)
    requires Distinct(s)
    ensures i !in s ==> Distinct(s + [i]) && Distinct([i] + s)
  {
  }

  /** Chain c holds the elements whose home it is, once each. */
  ghost predicate ChainOk(homes: seq<nat>, chain: seq<nat>, c: nat) {
    Distinct(chain) && forall x :: x in chain <==> 0 <= x < |homes| && homes[x] == c
  }

  /** Every element is on the one of n chains that is its home, once. */
  ghost predicate Chained(homes: seq<nat>, chains: seq<seq<nat>>, n: nat) {
    |chains| == n && forall c :: 0 <= c < n ==> ChainOk(homes, chains[c], c)
  }

  /** Element i is taken off chain c, and put in front of chain h. */
  function Rehash(chains: seq<seq<nat>>, i: nat, c: nat, h: nat): (r: seq<seq<nat>>)
    requires c < |chains| && h < |chains|
    ensures |r| == |chains|
  {
    var without := chains[c := Unlink(chains[c], i)];
    without[h := [i] + without[h]]
  }

  lemma ChainRemove(homes: seq<nat>, chain: seq<nat>, c: nat, i: nat, h: nat)
    requires i < |homes| && ChainOk(homes, chain, c) && h != c
    ensures ChainOk(homes[i := h], if homes[i] == c then Unlink(chain, i) else chain, c)
  {
    UnlinkDistinct(chain, i);
  }

  lemma ChainInsert(homes: seq<nat>, chain: seq<nat>, c: nat, i: nat)
    requires i < |homes| && ChainOk(homes, chain, c)
    ensures ChainOk(homes[i := c], [i] + if homes[i] == c then Unlink(chain, i) else chain, c)
  {
    UnlinkDistinct(chain, i);
    AppendDistinct(if homes[i] == c then Unlink(chain, i) else chain, i);
  }

  lemma ChainedMove(homes: seq<nat>, chains: seq<seq<nat>>, n: nat, i: nat, h: nat)
    requires i < |homes| && homes[i] < n && h < n && Chained(homes, chains, n)
    ensures Chained(homes[i := h], Rehash(chains, i, homes[i], h), n)
  {
    hide ChainOk;
    forall c | 0 <= c < n
      ensures ChainOk(homes[i := h], Rehash(chains, i, homes[i], h)[c], c)
    {
      if c == h {
        ChainInsert(homes, chains[c], c, i);
      } else {
        ChainRemove(homes, chains[c], c, i, h);
      }
    }
  }

  lemma UnlinkHead(s: seq<nat>)
    requires s != [] && Distinct(s)
    ensures Unlink(s, s[0]) == s[1..]
  {
    UnlinkAbsent(s[1..], s[0]);
  }

  lemma UnlinkAbsent(s: seq<nat>, i: nat)
    requires i !in s
    ensures Unlink(s, i) == s
  {
  }

  lemma UnlinkLength(s: seq<nat>, i: nat)
    requires Distinct(s)
    ensures |Unlink(s, i)| == if i in s then |s| - 1 else |s|
  {
    if s != [] {
      UnlinkLength(s[1..], i);
      assert i in s <==> i == s[0] || i in s[1..];
    }
  }

  lemma ChainCount(homes: seq<nat>, chains: seq<seq<nat>>, n: nat)
    requires Chained(homes, chains, n)
    ensures |chains| == n
  {
  }
}
