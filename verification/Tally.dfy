/** Sums of multisets, used to count how often a block is claimed. */
module Tally {

  ghost function Sum(ms: seq<multiset<int>>): multiset<int> {
    if ms == [] then multiset{} else Sum(ms[..|ms| - 1]) + ms[|ms| - 1]
  }

  /** No element occurs twice. */
  ghost predicate Once(m: multiset<int>) {
    forall x :: m[x] <= 1
  }

  lemma {:induction false} SumOfPrefix(ms: seq<multiset<int>>, n: nat)
    requires n < |ms|
    ensures Sum(ms[..n + 1]) == Sum(ms[..n]) + ms[n]
  {
    assert ms[..n + 1][..n] == ms[..n];
  }

  lemma {:induction false} SumReplace(ms: seq<multiset<int>>, i: nat, m: multiset<int>)
    requires i < |ms|
    ensures Sum(ms[i := m]) + ms[i] == Sum(ms) + m
  {
    var n := |ms| - 1;
    var ms' := ms[i := m];
    if i < n {
      SumReplace(ms[..n], i, m);
      assert ms'[..n] == ms[..n][i := m];
      forall x
        ensures (Sum(ms') + ms[i])[x] == (Sum(ms) + m)[x]
      {
        assert Sum(ms')[x] == Sum(ms'[..n])[x] + ms[n][x];
        assert (Sum(ms'[..n]) + ms[i])[x] == (Sum(ms[..n]) + m)[x];
      }
    } else {
      assert ms'[..n] == ms[..n];
    }
  }

  lemma {:induction false} SumMember(ms: seq<multiset<int>>, i: nat)
    requires i < |ms|
    ensures ms[i] <= Sum(ms)
  {
    SumReplace(ms, i, multiset{});
    assert Sum(ms) == Sum(ms) + multiset{};
    assert Sum(ms) == Sum(ms[i := multiset{}]) + ms[i];
  }

  lemma {:induction false} SumPair(ms: seq<multiset<int>>, i: nat, j: nat)
    requires i < |ms| && j < |ms| && i != j
    ensures ms[i] + ms[j] <= Sum(ms)
  {
    SumReplace(ms, i, multiset{});
    SumMember(ms[i := multiset{}], j);
    assert Sum(ms) == Sum(ms) + multiset{};
    assert Sum(ms) == Sum(ms[i := multiset{}]) + ms[i];
  }

  /** Terms of a sum without repetitions are disjoint. */
  lemma SumApart(ms: seq<multiset<int>>, i: nat, j: nat, x: int)
    requires i < |ms| && j < |ms| && i != j && Once(Sum(ms)) && x in ms[i]
    ensures x !in ms[j]
  {
    SumPair(ms, i, j);
    assert (ms[i] + ms[j])[x] <= Sum(ms)[x];
  }

  lemma {:induction false} SumWitness(ms: seq<multiset<int>>, x: int) returns (i: nat)
    requires x in Sum(ms)
    ensures i < |ms| && x in ms[i]
  {
    var n := |ms| - 1;
    if x in ms[n] {
      i := n;
    } else {
      i := SumWitness(ms[..n], x);
    }
  }

  lemma {:induction false} SumMonotone(ms: seq<multiset<int>>, ms': seq<multiset<int>>)
    requires |ms| == |ms'| && forall i :: 0 <= i < |ms| ==> ms[i] <= ms'[i]
    ensures Sum(ms) <= Sum(ms')
  {
    if ms != [] {
      SumMonotone(ms[..|ms| - 1], ms'[..|ms| - 1]);
    }
  }

  lemma {:induction false} SumEmpty(ms: seq<multiset<int>>)
    requires forall i :: 0 <= i < |ms| ==> ms[i] == multiset{}
    ensures Sum(ms) == multiset{}
  {
    if ms != [] {
      SumEmpty(ms[..|ms| - 1]);
    }
  }

  lemma {:induction false} SumStrict(ms: seq<multiset<int>>, ms': seq<multiset<int>>, c: nat, x: int)
    requires |ms| == |ms'| && forall i :: 0 <= i < |ms| ==> ms[i] <= ms'[i]
    requires c < |ms| && ms[c][x] < ms'[c][x]
    ensures Sum(ms)[x] < Sum(ms')[x]
  {
    var mid := ms'[c := ms[c]];
    SumMonotone(ms, mid);
    SumReplace(ms', c, ms[c]);
    assert (Sum(mid) + ms'[c])[x] == (Sum(ms') + ms[c])[x];
  }

  lemma SumGrow(ms: seq<multiset<int>>, i: nat, more: multiset<int>)
    requires i < |ms|
    ensures Sum(ms[i := ms[i] + more]) == Sum(ms) + more
  {
    hide Sum;
    var m := ms[i] + more;
    SumReplace(ms, i, m);
    forall x
      ensures Sum(ms[i := m])[x] == (Sum(ms) + more)[x]
    {
      assert (Sum(ms[i := m]) + ms[i])[x] == (Sum(ms) + m)[x];
    }
  }

  lemma {:induction false} SumPrefixLess(ms: seq<multiset<int>>, n: nat)
    requires n <= |ms|
    ensures Sum(ms[..n]) <= Sum(ms)
    decreases |ms| - n
  {
    hide Sum;
    if n < |ms| {
      SumOfPrefix(ms, n);
      SumPrefixLess(ms, n + 1);
    } else {
      assert ms[..n] == ms;
    }
  }

  lemma {:induction false} SumEmptyTail(ms: seq<multiset<int>>, n: nat)
    requires n <= |ms| && forall i :: n <= i < |ms| ==> ms[i] == multiset{}
    ensures Sum(ms) == Sum(ms[..n])
    decreases |ms| - n
  {
    hide Sum;
    if n < |ms| {
      SumOfPrefix(ms, n);
      SumEmptyTail(ms, n + 1);
      assert Sum(ms[..n]) + multiset{} == Sum(ms[..n]);
    } else {
      assert ms[..n] == ms;
    }
  }
}
