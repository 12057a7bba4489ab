/** libco's intrusive doubly linked lists: every item carries its own links and names the list it is on. */
module IntrusiveList {

  class Link {
    var head: Item?
    var tail: Item?

    constructor ()
      ensures IsList(this, [])
    {
      head, tail := null, null;
    }
  }

  class Item {
    var pPrev: Item?
    var pNext: Item?
    var pLink: Link?
    /** Set before the item goes on the wheel and never changed. */
    const expire: nat
    var bTimeout: bool

    constructor (expire: nat)
      ensures pLink == null && pPrev == null && pNext == null && this.expire == expire && !bTimeout
    {
      pPrev, pNext, pLink := null, null, null;
      this.expire, bTimeout := expire, false;
    }
  }

  predicate Distinct<T(==)>(s: seq<T>) {
    forall i, j :: 0 <= i < j < |s| ==> s[i] != s[j]
  }

  /** Item i of the list s owned by l has the right neighbours and the right owner. */
  ghost predicate Linked(l: Link, s: seq<Item>, i: nat)
    requires i < |s|
    reads s`pLink, s`pPrev, s`pNext
  {
    && s[i].pLink == l
    && s[i].pPrev == (if i == 0 then null else s[i - 1])
    && s[i].pNext == (if i == |s| - 1 then null else s[i + 1])
  }

  /** The list object l holds exactly the items s, in that order. */
  ghost predicate IsList(l: Link, s: seq<Item>)
    reads l, s`pLink, s`pPrev, s`pNext
  {
    && Distinct(s)
    && l.head == (if s == [] then null else s[0])
    && l.tail == (if s == [] then null else s[|s| - 1])
    && forall i :: 0 <= i < |s| ==> Linked(l, s, i)
  }

  /** s without x. */
  function Without<T(==)>(s: seq<T>, x: T): seq<T> {
    if s == [] then []
    else
      var last := s[|s| - 1];
      Without(s[..|s| - 1], x) + (if last == x then [] else [last])
  }

  lemma {:induction false} WithoutAbsent<T>(s: seq<T>, x: T)
    requires x !in s
    ensures Without(s, x) == s
  {
    if s != [] {
      WithoutAbsent(s[..|s| - 1], x);
      assert s[..|s| - 1] + [s[|s| - 1]] == s;
    }
  }

  lemma {:induction false} WithoutAt<T>(s: seq<T>, k: nat)
    requires k < |s| && Distinct(s)
    ensures Without(s, s[k]) == s[..k] + s[k + 1..]
  {
    var s0, last := s[..|s| - 1], s[|s| - 1];
    if k == |s| - 1 {
      WithoutAbsent(s0, last);
      assert s0 + [] == s[..k] + s[k + 1..];
    } else {
      WithoutAt(s0, k);
      assert s0[k + 1..] + [last] == s[k + 1..];
    }
  }

  lemma {:induction false} WithoutIn<T>(s: seq<T>, x: T)
    ensures forall i :: 0 <= i < |Without(s, x)| ==> Without(s, x)[i] in s && Without(s, x)[i] != x
  {
    if s != [] {
      WithoutIn(s[..|s| - 1], x);
    }
  }

  /** Lists with different owners share no item. */
  lemma Apart(l: Link, o: Link, s: seq<Item>, t: seq<Item>)
    requires l != o && IsList(l, s) && IsList(o, t)
    ensures forall i, j :: 0 <= i < |s| && 0 <= j < |t| ==> s[i] != t[j]
  {
    forall i, j | 0 <= i < |s| && 0 <= j < |t| ensures s[i] != t[j] {
      assert Linked(l, s, i) && Linked(o, t, j);
    }
  }

  lemma EmptyList(l: Link)
    requires l.head == null && l.tail == null
    ensures IsList(l, [])
  {
  }

  lemma OnList(l: Link, s: seq<Item>, x: Item)
    requires IsList(l, s) && x in s
    ensures x.pLink == l
  {
    var i :| 0 <= i < |s| && s[i] == x;
    assert Linked(l, s, i);
  }

  /** AddTail: appends an item that is on no list; one that is on a list stays where it is. */
  method AddTail(l: Link, x: Item, ghost s: seq<Item>)
    requires IsList(l, s)
    modifies l, s`pNext, x`pNext, x`pPrev, x`pLink
    ensures old(x.pLink) == null ==> IsList(l, s + [x])
    ensures old(x.pLink) != null ==> unchanged(l) && unchanged(x) && unchanged(s)
  {
    if x.pLink != null {
      return;
    }
    forall i | 0 <= i < |s| ensures s[i] != x {
      assert Linked(l, s, i);
    }
    if l.tail != null {
      l.tail.pNext := x;
      x.pNext := null;
      x.pPrev := l.tail;
      l.tail := x;
    } else {
      l.head, l.tail := x, x;
      x.pNext, x.pPrev := null, null;
    }
    x.pLink := l;
    forall i | 0 <= i < |s| + 1 ensures Linked(l, s + [x], i) {
      assert i < |s| ==> old(Linked(l, s, i));
    }
  }

  /** PopHead: drops the first item, which is then on no list. */
  method PopHead(l: Link, ghost s: seq<Item>)
    requires IsList(l, s)
    modifies l, s`pPrev, s`pNext, s`pLink
    ensures s == [] ==> IsList(l, s)
    ensures s != [] ==> IsList(l, s[1..]) && s[0].pLink == null && s[0].pPrev == null && s[0].pNext == null
  {
    if l.head == null {
      return;
    }
    assert Linked(l, s, 0);
    assert |s| > 1 ==> Linked(l, s, 1);
    var lp := l.head;
    if l.head == l.tail {
      l.head, l.tail := null, null;
    } else {
      l.head := l.head.pNext;
    }
    lp.pPrev, lp.pNext := null, null;
    lp.pLink := null;
    if l.head != null {
      l.head.pPrev := null;
    }
    forall i | 0 <= i < |s| - 1 ensures Linked(l, s[1..], i) {
      assert old(Linked(l, s, i + 1));
    }
  }

  /** RemoveFromLink: takes an item off whatever list it is on; k is where it stands. */
  method RemoveAt(x: Item, ghost s: seq<Item>, ghost k: nat)
    requires x.pLink != null && IsList(x.pLink, s) && k < |s| && s[k] == x
    modifies x.pLink, s`pPrev, s`pNext, x`pLink
    ensures IsList(old(x.pLink), s[..k] + s[k + 1..]) && x.pLink == null && x.pPrev == null && x.pNext == null
  {
    var l := x.pLink;
    assert Linked(l, s, k);
    assert k > 0 ==> Linked(l, s, k - 1);
    assert k + 1 < |s| ==> Linked(l, s, k + 1);
    if x == l.head {
      l.head := x.pNext;
      if l.head != null {
        l.head.pPrev := null;
      }
    } else if x.pPrev != null {
      x.pPrev.pNext := x.pNext;
    }
    if x == l.tail {
      l.tail := x.pPrev;
      if l.tail != null {
        l.tail.pNext := null;
      }
    } else {
      x.pNext.pPrev := x.pPrev;
    }
    x.pPrev, x.pNext := null, null;
    x.pLink := null;
    ghost var t := s[..k] + s[k + 1..];
    forall i | 0 <= i < |t| ensures Linked(l, t, i) {
      assert t[i] == s[if i < k then i else i + 1];
      assert old(Linked(l, s, if i < k then i else i + 1));
    }
  }

  method RemoveFromLink(x: Item, ghost s: seq<Item>)
    requires x.pLink != null ==> IsList(x.pLink, s) && x in s
    modifies if x.pLink == null then {} else {x.pLink}
    modifies s`pPrev, s`pNext, x`pLink
    ensures old(x.pLink) == null ==> unchanged(x) && unchanged(s)
    ensures old(x.pLink) != null ==>
              IsList(old(x.pLink), Without(s, x)) && x.pLink == null && x.pPrev == null && x.pNext == null
  {
    if x.pLink == null {
      return;
    }
    ghost var k :| 0 <= k < |s| && s[k] == x;
    WithoutAt(s, k);
    RemoveAt(x, s, k);
  }

  /** Join: moves every item of o, in order, to the end of l. */
  method Join(l: Link, o: Link, ghost s: seq<Item>, ghost t: seq<Item>)
    requires l != o && IsList(l, s) && IsList(o, t)
    modifies l, o, s`pNext, t`pPrev, t`pLink
    ensures IsList(l, s + t) && IsList(o, [])
  {
    if o.head == null {
      assert s + t == s;
      return;
    }
    Apart(l, o, s, t);
    Relabel(l, o, t);
    var lp := o.head;
    if l.tail != null {
      l.tail.pNext := lp;
      lp.pPrev := l.tail;
      l.tail := o.tail;
    } else {
      l.head := o.head;
      l.tail := o.tail;
    }
    o.head, o.tail := null, null;
    forall i | 0 <= i < |s + t| ensures Linked(l, s + t, i) {
      if i < |s| {
        assert old(Linked(l, s, i));
      } else {
        assert old(Linked(o, t, i - |s|));
      }
    }
  }

  /** Join's loop: every item of o is told its new owner. */
  method Relabel(l: Link, o: Link, ghost t: seq<Item>)
    requires l != o && IsList(o, t)
    modifies t`pLink
    ensures forall i :: 0 <= i < |t| ==> t[i].pLink == l
  {
    var lp := o.head;
    ghost var n := 0;
    while lp != null
      invariant 0 <= n <= |t| && lp == if n == |t| then null else t[n]
      invariant forall i :: 0 <= i < n ==> t[i].pLink == l
      decreases |t| - n
    {
      assert old(Linked(o, t, n));
      lp.pLink := l;
      lp := lp.pNext;
      n := n + 1;
    }
  }
}
