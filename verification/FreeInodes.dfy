/** The list of unreferenced in-core inodes (ufs_inode.c): singly linked, with a pointer back to whatever points at
    an inode, and a tail pointer that is left dangling when the list empties. */
module FreeInodes {
  import opened HashChains

  /** The address of a link: of ifreeh, or of the i_freef of an inode. */
  datatype Link = Nowhere | Head | Next(of: nat)

  const NULL := -1

  function Remove(s: seq<nat>, k: nat): (r: seq<nat>)
    requires k < |s|
    ensures |r| == |s| - 1
  {
    s[..k] + s[k + 1..]
  }

  function NextOf(list: seq<nat>, k: nat): int {
    if k + 1 < |list| then list[k + 1] else NULL
  }

  function BackOf(list: seq<nat>, k: nat): Link {
    if 0 < k <= |list| then Next(list[k - 1]) else Head
  }

  /** Entry k of the list has the right links. */
  ghost predicate LinkedAt(f: seq<int>, b: seq<Link>, list: seq<nat>, k: nat) {
    k < |list| && list[k] < |f| && list[k] < |b| && f[list[k]] == NextOf(list, k) && b[list[k]] == BackOf(list, k)
  }

  ghost predicate Linked(f: seq<int>, b: seq<Link>, list: seq<nat>) {
    |f| == |b| && Distinct(list) && forall k :: 0 <= k < |list| ==> LinkedAt(f, b, list, k)
  }

  /** Taking entry k out: the link that pointed at it, and the back link of the one behind it, change. */
  lemma LinkedRemove(f: seq<int>, b: seq<Link>, list: seq<nat>, k: nat, f': seq<int>, b': seq<Link>)
    requires Linked(f, b, list) && k < |list|
    requires |f'| == |f| && |b'| == |b|
    requires forall i :: 0 <= i < |f| && i != list[k] ==>
      f'[i] == if k > 0 && i == list[k - 1] then NextOf(list, k) else f[i]
    requires forall i :: 0 <= i < |b| && i != list[k] ==>
      b'[i] == if k + 1 < |list| && i == list[k + 1] then BackOf(list, k) else b[i]
    ensures Linked(f', b', Remove(list, k))
  {
    var r := Remove(list, k);
    forall j | 0 <= j < |r|
      ensures LinkedAt(f', b', r, j)
    {
      assert LinkedAt(f, b, list, if j < k then j else j + 1);
    }
  }

  lemma LinkedAppend(f: seq<int>, b: seq<Link>, list: seq<nat>, ip: nat, f': seq<int>, b': seq<Link>)
    requires Linked(f, b, list) && ip !in list && ip < |f|
    requires |f'| == |f| && |b'| == |b|
    requires f'[ip] == NULL && b'[ip] == BackOf(list, |list|)
    requires forall i :: 0 <= i < |f| && i != ip ==> f'[i] == if list != [] && i == list[|list| - 1] then ip else f[i]
    requires forall i :: 0 <= i < |b| && i != ip ==> b'[i] == b[i]
    ensures Linked(f', b', list + [ip])
  {
    var r := list + [ip];
    forall j | 0 <= j < |r|
      ensures LinkedAt(f', b', r, j)
    {
      if j < |list| {
        assert LinkedAt(f, b, list, j);
        assert list[j] in list;
      }
    }
  }

  class FreeList {
    const freef: array<int>     // i_freef
    const freeb: array<Link>    // i_freeb
    var ifreeh: int
    var ifreet: Link
    ghost var list: seq<nat>    // the inodes on the list, first to be reused first

    ghost predicate Valid()
      reads this, freef, freeb
    {
      && Linked(freef[..], freeb[..], list)
      && ifreeh == NextOf([0] + list, 0)
      && (list != [] ==> ifreet == BackOf(list, |list|))
    }

    /** ihinit: all inodes are on the list, in order. */
    constructor (ninode: nat)
      requires ninode > 0
      ensures Valid() && fresh(freef) && fresh(freeb) && freef.Length == ninode
      ensures list == seq(ninode, i => i)
    {
      freef := new int[ninode](_ => NULL);
      freeb := new Link[ninode](_ => Head);
      ifreeh := 0;
      ifreet := Next(0);
      list := [0];
      new;
      var ip := 0;
      assert list == seq(1, i => i);
      while ip < ninode - 1
        invariant ip < ninode && list == seq(ip + 1, i => i) && Valid() && ifreet == Next(ip)
        invariant freef.Length == ninode
        invariant forall j :: ip < j < ninode ==> freef[j] == NULL
      {
        hide Linked;
        ghost var f, b := freef[..], freeb[..];
        ip := ip + 1;
        freef[ip - 1] := ip;
        freeb[ip] := ifreet;
        ifreet := Next(ip);
        LinkedAppend(f, b, list, ip, freef[..], freeb[..]);
        list := list + [ip];
      }
    }

    /** *link = ip. */
    method Store(link: Link, ip: int)
      requires link.Head? || (link.Next? && link.of < freef.Length)
      modifies this`ifreeh, freef
      ensures link.Head? ==> ifreeh == ip && freef[..] == old(freef[..])
      ensures link.Next? ==> ifreeh == old(ifreeh) && freef[..] == old(freef[..])[link.of := ip]
    {
      match link
      case Head => ifreeh := ip;
      case Next(i) => freef[i] := ip;
    }

    /** iget of an inode that is not in core: the head of the list is taken. The tail pointer is not looked at, so
        that it dangles when the list becomes empty. */
    method TakeHead() returns (ip: int)
      requires Valid()
      modifies this`ifreeh, this`list, freef, freeb
      ensures Valid()
      ensures old(list) == [] ==> ip == NULL && list == []
      ensures old(list) != [] ==> ip == old(list)[0] && list == old(list)[1..]
    {
      hide Linked;
      ip := ifreeh;
      if ip == NULL {
        return;
      }
      ghost var f, b := freef[..], freeb[..];
      Links(f, b, list, 0);
      var iq := freef[ip];
      if iq != NULL {
        freeb[iq] := Head;
      }
      ifreeh := iq;
      freef[ip] := NULL;
      freeb[ip] := Nowhere;
      LinkedRemove(f, b, list, 0, freef[..], freeb[..]);
      assert Remove(list, 0) == list[1..];
      list := list[1..];
    }

    /** igrab: an inode is taken out of the list, wherever it is. */
    method Grab(ip: nat, ghost k: nat)
      requires Valid() && k < |list| && list[k] == ip
      modifies this`ifreeh, this`ifreet, this`list, freef, freeb
      ensures Valid() && list == Remove(old(list), k)
    {
      hide Linked;
      ghost var f, b := freef[..], freeb[..];
      Links(f, b, list, k);
      var iq, back := freef[ip], freeb[ip];
      if iq != NULL {
        freeb[iq] := back;
      } else {
        ifreet := back;
      }
      Store(back, iq);
      freef[ip] := NULL;
      freeb[ip] := Nowhere;
      LinkedRemove(f, b, list, k, freef[..], freeb[..]);
      list := Remove(list, k);
    }

    /** irele of the last reference: the inode goes to the end of the list. */
    method Append(ip: nat)
      requires Valid() && ip < freef.Length && ip !in list
      modifies this`ifreeh, this`ifreet, this`list, freef, freeb
      ensures Valid() && list == old(list) + [ip]
    {
      hide Linked;
      ghost var f, b := freef[..], freeb[..];
      if list != [] {
        Links(f, b, list, |list| - 1);
      }
      LinkSizes(f, b, list);
      if ifreeh != NULL {
        Store(ifreet, ip);
        freeb[ip] := ifreet;
      } else {
        ifreeh := ip;
        freeb[ip] := Head;
      }
      freef[ip] := NULL;
      ifreet := Next(ip);
      LinkedAppend(f, b, list, ip, freef[..], freeb[..]);
      list := list + [ip];
    }
  }

  lemma LinkSizes(f: seq<int>, b: seq<Link>, list: seq<nat>)
    requires Linked(f, b, list)
    ensures |f| == |b|
  {
  }

  lemma Links(f: seq<int>, b: seq<Link>, list: seq<nat>, k: nat)
    requires Linked(f, b, list) && k < |list|
    ensures |f| == |b| && list[k] < |f| && f[list[k]] == NextOf(list, k) && b[list[k]] == BackOf(list, k)
    ensures k + 1 < |list| ==> list[k + 1] < |f| && list[k + 1] != list[k]
    ensures k > 0 ==> list[k - 1] < |f| && list[k - 1] != list[k]
  {
    assert LinkedAt(f, b, list, k);
    assert k + 1 < |list| ==> LinkedAt(f, b, list, k + 1);
    assert k > 0 ==> LinkedAt(f, b, list, k - 1);
  }
}
