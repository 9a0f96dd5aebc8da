/** Circular doubly linked lists (insque and remque in bsd211adapt.c, the macros of buf.h). A ring is the list of its
    elements, its head first; all hash chains and buffer queues are such rings. */
module Rings {
  import opened HashChains

  function After(r: seq<nat>, k: nat): nat
    requires k < |r|
  {
    if k + 1 < |r| then r[k + 1] else r[0]
  }

  /** The link from entry k to the one after it, and back. */
  ghost predicate LinkedAt(f: seq<nat>, b: seq<nat>, r: seq<nat>, k: nat) {
    k < |r| && r[k] < |f| && After(r, k) < |b| && f[r[k]] == After(r, k) && b[After(r, k)] == r[k]
  }

  ghost predicate Ring(f: seq<nat>, b: seq<nat>, r: seq<nat>) {
    |f| == |b| && r != [] && Distinct(r) && forall k :: 0 <= k < |r| ==> LinkedAt(f, b, r, k)
  }

  ghost predicate Apart(r: seq<nat>, s: seq<nat>) {
    forall x :: x in r ==> x !in s
  }

  /** Links of other elements do not matter. */
  lemma RingFrame(f: seq<nat>, b: seq<nat>, r: seq<nat>, f': seq<nat>, b': seq<nat>)
    requires Ring(f, b, r) && |f'| == |f| && |b'| == |b|
    requires forall x :: x in r ==> x < |f| && f'[x] == f[x] && b'[x] == b[x]
    ensures Ring(f', b', r)
  {
    forall k | 0 <= k < |r|
      ensures LinkedAt(f', b', r, k)
    {
      assert LinkedAt(f, b, r, k);
      assert r[k] in r && After(r, k) in r;
    }
  }

  function InsertAfter(r: seq<nat>, p: nat, x: nat): seq<nat>
    requires p < |r|
  {
    r[..p + 1] + [x] + r[p + 1..]
  }

  lemma RingInsert(f: seq<nat>, b: seq<nat>, r: seq<nat>, p: nat, x: nat, f': seq<nat>, b': seq<nat>)
    requires Ring(f, b, r) && p < |r| && x < |f| && x !in r && After(r, p) < |b| && r[p] < |f|
    requires f' == f[x := After(r, p)][r[p] := x] && b' == b[x := r[p]][After(r, p) := x]
    ensures Ring(f', b', InsertAfter(r, p, x))
  {
    var s := InsertAfter(r, p, x);
    assert forall k :: 0 <= k < |r| ==> r[k] in r;
    forall k | 0 <= k < |s|
      ensures LinkedAt(f', b', s, k)
    {
      if k < p {
        assert LinkedAt(f, b, r, k);
      } else if k > p + 1 {
        assert LinkedAt(f, b, r, k - 1);
      } else {
        assert LinkedAt(f, b, r, p);
      }
    }
  }

  lemma RingRemove(f: seq<nat>, b: seq<nat>, r: seq<nat>, k: nat, f': seq<nat>, b': seq<nat>)
    requires Ring(f, b, r) && 0 < k < |r| && r[k - 1] < |f| && After(r, k) < |b|
    requires f' == f[r[k - 1] := After(r, k)] && b' == b[After(r, k) := r[k - 1]]
    ensures Ring(f', b', r[..k] + r[k + 1..])
  {
    var s := r[..k] + r[k + 1..];
    forall j | 0 <= j < |s|
      ensures LinkedAt(f', b', s, j)
    {
      assert LinkedAt(f, b, r, if j < k then j else j + 1);
      assert LinkedAt(f, b, r, k) && LinkedAt(f, b, r, k - 1);
    }
  }

  lemma RingBounds(f: seq<nat>, b: seq<nat>, r: seq<nat>, k: nat)
    requires Ring(f, b, r) && k < |r|
    ensures |f| == |b| && r[k] < |f| && After(r, k) < |b| && f[r[k]] == After(r, k) && b[After(r, k)] == r[k]
  {
    assert LinkedAt(f, b, r, k);
  }

  /** insque, and with pred a list head also binshash and binsheadfree. */
  method Insque(forw: array<nat>, back: array<nat>, elem: nat, pred: nat, ghost r: seq<nat>, ghost p: nat)
    requires forw != back && Ring(forw[..], back[..], r) && p < |r| && r[p] == pred && elem < forw.Length && elem !in r
    modifies forw, back
    ensures Ring(forw[..], back[..], InsertAfter(r, p, elem))
    ensures forall s :: old(Ring(forw[..], back[..], s)) && Apart(s, r) && elem !in s ==> Ring(forw[..], back[..], s)
  {
    hide Ring;
    ghost var f: seq<nat>, b: seq<nat> := forw[..], back[..];
    RingBounds(f, b, r, p);
    back[elem] := pred;
    forw[elem] := forw[pred];
    forw[pred] := elem;
    back[forw[elem]] := elem;
    assert forw[..] == f[elem := After(r, p)][r[p] := elem] && back[..] == b[elem := r[p]][After(r, p) := elem];
    RingInsert(f, b, r, p, elem, forw[..], back[..]);
    forall s | old(Ring(forw[..], back[..], s)) && Apart(s, r) && elem !in s
      ensures Ring(forw[..], back[..], s)
    {
      OtherRing(f, b, s, forw[..], back[..], [elem, r[p], After(r, p)]);
    }
  }

  /** binstailfree: an element is put behind the last one, in front of the head. */
  method InsertTail(forw: array<nat>, back: array<nat>, elem: nat, head: nat, ghost r: seq<nat>)
    requires forw != back && r != [] && Ring(forw[..], back[..], r) && r[0] == head && elem < forw.Length && elem !in r
    modifies forw, back
    ensures Ring(forw[..], back[..], r + [elem])
    ensures forall s :: old(Ring(forw[..], back[..], s)) && Apart(s, r) && elem !in s ==> Ring(forw[..], back[..], s)
  {
    hide Ring;
    ghost var f: seq<nat>, b: seq<nat>, p: nat := forw[..], back[..], |r| - 1;
    RingBounds(f, b, r, p);
    forw[back[head]] := elem;
    back[elem] := back[head];
    back[head] := elem;
    forw[elem] := head;
    assert forw[..] == f[elem := After(r, p)][r[p] := elem] && back[..] == b[elem := r[p]][After(r, p) := elem];
    RingInsert(f, b, r, p, elem, forw[..], back[..]);
    assert InsertAfter(r, p, elem) == r + [elem];
    forall s | old(Ring(forw[..], back[..], s)) && Apart(s, r) && elem !in s
      ensures Ring(forw[..], back[..], s)
    {
      OtherRing(f, b, s, forw[..], back[..], [elem, r[p], After(r, p)]);
    }
  }

  /** remque, bremhash and bremfree: the element keeps its links, but is in no ring. */
  method Remque(forw: array<nat>, back: array<nat>, elem: nat, ghost r: seq<nat>, ghost k: nat)
    requires forw != back && Ring(forw[..], back[..], r) && 0 < k < |r| && r[k] == elem
    modifies forw, back
    ensures Ring(forw[..], back[..], r[..k] + r[k + 1..])
    ensures forall s :: old(Ring(forw[..], back[..], s)) && Apart(s, r) ==> Ring(forw[..], back[..], s)
  {
    hide Ring;
    ghost var f: seq<nat>, b: seq<nat> := forw[..], back[..];
    RingBounds(f, b, r, k);
    RingBounds(f, b, r, k - 1);
    var fw, bk := forw[elem], back[elem];
    forw[bk] := fw;
    back[fw] := bk;
    RingRemove(f, b, r, k, forw[..], back[..]);
    forall s | old(Ring(forw[..], back[..], s)) && Apart(s, r)
      ensures Ring(forw[..], back[..], s)
    {
      OtherRing(f, b, s, forw[..], back[..], [r[k - 1], After(r, k)]);
    }
  }

  lemma OtherRing(f: seq<nat>, b: seq<nat>, s: seq<nat>, f': seq<nat>, b': seq<nat>, touched: seq<nat>)
    requires Ring(f, b, s) && |f'| == |f| && |b'| == |b|
    requires forall i :: 0 <= i < |f| && i !in touched ==> f'[i] == f[i] && b'[i] == b[i]
    requires forall x :: x in touched ==> x !in s
    ensures Ring(f', b', s)
  {
    forall x | x in s
      ensures x < |f| && f'[x] == f[x] && b'[x] == b[x]
    {
      var k :| 0 <= k < |s| && s[k] == x;
      assert LinkedAt(f, b, s, k);
    }
    RingFrame(f, b, s, f', b');
  }

  /** bhinit and binit: a head alone. */
  lemma RingAlone(f: seq<nat>, b: seq<nat>, head: nat)
    requires |f| == |b| && head < |f| && f[head] == head && b[head] == head
    ensures Ring(f, b, [head])
  {
    assert LinkedAt(f, b, [head], 0);
  }
}
