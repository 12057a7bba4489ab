/** Timed entries: selecting by time, and the order in which a timing wheel gives them up. */
module TimedEntries {
  import Seqs

  datatype Entry<T> = Entry(item: T, time: nat)

  /** The entries of one time, in the order they stand. */
  function AtTime<T>(es: seq<Entry<T>>, t: nat): seq<Entry<T>> {
    if es == [] then []
    else
      var last := es[|es| - 1];
      AtTime(es[..|es| - 1], t) + (if last.time == t then [last] else [])
  }

  function Items<T>(es: seq<Entry<T>>): (r: seq<T>)
    ensures |r| == |es| && forall i :: 0 <= i < |es| ==> r[i] == es[i].item
  {
    seq(|es|, i requires 0 <= i < |es| => es[i].item)
  }

  lemma ItemsAppend<T>(es: seq<Entry<T>>, e: Entry<T>)
    ensures Items(es + [e]) == Items(es) + [e.item]
  {
  }

  lemma ItemsConcat<T>(a: seq<Entry<T>>, b: seq<Entry<T>>)
    ensures Items(a + b) == Items(a) + Items(b)
  {
  }

  /** The entries of n successive times, time after time. */
  function InOrder<T>(es: seq<Entry<T>>, from: nat, n: nat): seq<Entry<T>> {
    if n == 0 then [] else InOrder(es, from, n - 1) + AtTime(es, from + n - 1)
  }

  /** The entries later than t, in the order they stand. */
  function Later<T>(es: seq<Entry<T>>, t: int): seq<Entry<T>> {
    if es == [] then []
    else
      var last := es[|es| - 1];
      Later(es[..|es| - 1], t) + (if last.time > t then [last] else [])
  }

  predicate SortedByTime<T>(es: seq<Entry<T>>) {
    forall i, j :: 0 <= i < j < |es| ==> es[i].time <= es[j].time
  }

  lemma AtTimeAppend<T>(es: seq<Entry<T>>, e: Entry<T>, t: nat)
    ensures AtTime(es + [e], t) == AtTime(es, t) + (if e.time == t then [e] else [])
  {
    assert (es + [e])[..|es|] == es;
  }

  lemma {:induction false} AtTimeConcat<T>(a: seq<Entry<T>>, b: seq<Entry<T>>, t: nat)
    ensures AtTime(a + b, t) == AtTime(a, t) + AtTime(b, t)
  {
    if b == [] {
      Seqs.EmptyLeft(a);
      Seqs.EmptyLeft(AtTime(a, t));
    } else {
      var b0, last := b[..|b| - 1], b[|b| - 1];
      assert (a + b)[..|a + b| - 1] == a + b0;
      AtTimeConcat(a, b0, t);
      Seqs.Assoc(AtTime(a, t), AtTime(b0, t), if last.time == t then [last] else []);
    }
  }

  /** Selecting a time twice: all of it for the same time, nothing for another. */
  lemma {:induction false} AtTimeAgain<T>(es: seq<Entry<T>>, t: nat, u: nat)
    ensures AtTime(AtTime(es, t), u) == if t == u then AtTime(es, t) else []
    ensures forall i :: 0 <= i < |AtTime(es, t)| ==> AtTime(es, t)[i].time == t
  {
    if es != [] {
      var es0, last := es[..|es| - 1], es[|es| - 1];
      AtTimeAgain(es0, t, u);
      if last.time == t {
        AtTimeAppend(AtTime(es0, t), last, u);
      }
      Seqs.EmptyLeft(AtTime(es0, t));
      Seqs.EmptyLeft<Entry<T>>([]);
    }
  }

  lemma AtTimeNothing<T>(t: nat)
    ensures AtTime<T>([], t) == []
  {
  }

  lemma {:induction false} AtTimeInOrder<T>(es: seq<Entry<T>>, from: nat, n: nat, t: nat)
    ensures AtTime(InOrder(es, from, n), t) == if from <= t < from + n then AtTime(es, t) else []
  {
    hide AtTime;
    if n == 0 {
      AtTimeNothing<T>(t);
    } else {
      var a, b := InOrder(es, from, n - 1), AtTime(es, from + n - 1);
      AtTimeInOrder(es, from, n - 1, t);
      AtTimeAgain(es, from + n - 1, t);
      AtTimeConcat(a, b, t);
      if t == from + n - 1 {
        Seqs.EmptyLeft(AtTime(b, t));
      } else {
        Seqs.EmptyLeft(AtTime(a, t));
      }
    }
  }

  lemma {:induction false} InOrderSorted<T>(es: seq<Entry<T>>, from: nat, n: nat)
    ensures SortedByTime(InOrder(es, from, n))
  {
    hide AtTime;
    hide SortedByTime;
    if n == 0 {
      SortedNothing<T>();
    } else {
      var a, b := InOrder(es, from, n - 1), AtTime(es, from + n - 1);
      InOrderSorted(es, from, n - 1);
      InOrderTimes(es, from, n - 1);
      AtTimeAgain(es, from + n - 1, 0);
      SortedConcat(a, b, from + n - 1);
    }
  }

  lemma SortedNothing<T>()
    ensures SortedByTime<T>([])
  {
  }

  /**
   InOrder is the stable sort of the entries in its range: it is sorted by time, and the entries of
   each time are exactly those given, in the order given.
   */
  lemma InOrderIsStableSort<T>(es: seq<Entry<T>>, from: nat, n: nat)
    ensures SortedByTime(InOrder(es, from, n))
    ensures forall t: nat :: AtTime(InOrder(es, from, n), t) == if from <= t < from + n then AtTime(es, t) else []
  {
    InOrderSorted(es, from, n);
    forall t: nat ensures AtTime(InOrder(es, from, n), t) == if from <= t < from + n then AtTime(es, t) else [] {
      AtTimeInOrder(es, from, n, t);
    }
  }

  lemma SortedConcat<T>(a: seq<Entry<T>>, b: seq<Entry<T>>, t: nat)
    requires SortedByTime(a) && forall i :: 0 <= i < |a| ==> a[i].time <= t
    requires forall i :: 0 <= i < |b| ==> b[i].time == t
    ensures SortedByTime(a + b)
  {
  }

  lemma {:induction false} InOrderTimes<T>(es: seq<Entry<T>>, from: nat, n: nat)
    ensures forall i :: 0 <= i < |InOrder(es, from, n)| ==> from <= InOrder(es, from, n)[i].time < from + n
  {
    hide AtTime;
    if n > 0 {
      InOrderTimes(es, from, n - 1);
      AtTimeAgain(es, from + n - 1, 0);
    }
  }

  lemma {:induction false} AtTimeLater<T>(es: seq<Entry<T>>, now: int, t: nat)
    ensures AtTime(Later(es, now), t) == if t > now then AtTime(es, t) else []
  {
    if es != [] {
      var es0, last := es[..|es| - 1], es[|es| - 1];
      AtTimeLater(es0, now, t);
      if last.time > now {
        AtTimeAppend(Later(es0, now), last, t);
      }
      Seqs.EmptyLeft(Later(es0, now));
      Seqs.EmptyLeft(AtTime(es0, t));
      Seqs.EmptyLeft<Entry<T>>([]);
    }
  }

  lemma {:induction false} LaterMembers<T>(es: seq<Entry<T>>, now: int)
    ensures forall i :: 0 <= i < |Later(es, now)| ==> Later(es, now)[i].time > now && Later(es, now)[i] in es
  {
    if es != [] {
      LaterMembers(es[..|es| - 1], now);
    }
  }

  lemma {:induction false} InOrderNothing<T>(from: nat, n: nat)
    ensures InOrder<T>([], from, n) == []
  {
    if n > 0 {
      InOrderNothing<T>(from, n - 1);
    }
  }

  lemma {:induction false} AtTimeNone<T>(es: seq<Entry<T>>, t: nat)
    requires forall i :: 0 <= i < |es| ==> es[i].time != t
    ensures AtTime(es, t) == []
  {
    if es != [] {
      AtTimeNone(es[..|es| - 1], t);
    }
  }

  /** es without the entries of item x. */
  function Dropped<T(==)>(es: seq<Entry<T>>, x: T): seq<Entry<T>> {
    if es == [] then []
    else
      var last := es[|es| - 1];
      Dropped(es[..|es| - 1], x) + (if last.item == x then [] else [last])
  }

  lemma {:induction false} DroppedMembers<T>(es: seq<Entry<T>>, x: T)
    ensures forall i :: 0 <= i < |Dropped(es, x)| ==> Dropped(es, x)[i] in es
  {
    if es != [] {
      DroppedMembers(es[..|es| - 1], x);
    }
  }
}
