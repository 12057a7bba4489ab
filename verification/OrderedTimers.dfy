/** A std::set of (time, pointer) pairs: its least element, its iteration order, its expired prefix. */
module OrderedTimers {

  /** A key of TimerList: expiration time in microseconds, and the timer's address. */
  datatype Entry = Entry(when: int, addr: nat)

  predicate Leq(a: Entry, b: Entry) {
    a.when < b.when || (a.when == b.when && a.addr <= b.addr)
  }

  predicate IsLeast(e: Entry, s: set<Entry>) {
    e in s && forall f :: f in s ==> Leq(e, f)
  }

  lemma {:induction false} LeastExists(s: set<Entry>)
    requires s != {}
    ensures exists e :: IsLeast(e, s)
    decreases s
  {
    var x :| x in s;
    if s == {x} {
      assert IsLeast(x, s);
    } else {
      LeastExists(s - {x});
      var y :| IsLeast(y, s - {x});
      var z := if Leq(x, y) then x else y;
      forall f | f in s ensures Leq(z, f) {
        if f != x {
          assert f in s - {x};
        }
      }
      assert IsLeast(z, s);
    }
  }

  /** begin(). */
  function Earliest(s: set<Entry>): (e: Entry)
    requires s != {}
    ensures IsLeast(e, s)
  {
    LeastExists(s);
    var e :| IsLeast(e, s);
    e
  }

  /** Iteration order. */
  function Listed(s: set<Entry>): seq<Entry>
    decreases s
  {
    if s == {} then [] else var e := Earliest(s); [e] + Listed(s - {e})
  }

  predicate Ascending(es: seq<Entry>) {
    forall i, j :: 0 <= i < j < |es| ==> Leq(es[i], es[j]) && es[i] != es[j]
  }

  /** Iteration visits every element once, in order. */
  lemma {:induction false} ListedIsSorted(s: set<Entry>)
    ensures Ascending(Listed(s))
    ensures forall e :: e in Listed(s) <==> e in s
    ensures |Listed(s)| == |s|
    decreases s
  {
    if s != {} {
      var e := Earliest(s);
      ListedIsSorted(s - {e});
    }
  }

  /** What getExpired takes: everything not later than now. */
  function Due(s: set<Entry>, now: int): set<Entry> {
    set e | e in s && e.when <= now
  }

  lemma EarliestInsert(s: set<Entry>, e: Entry)
    ensures Earliest(s + {e}).when == if s == {} || e.when < Earliest(s).when then e.when else Earliest(s).when
  {
    var f := Earliest(s + {e});
    assert e in s + {e};
    if s != {} {
      assert Earliest(s) in s + {e};
    }
  }

  lemma EarliestErase(s: set<Entry>, e: Entry)
    requires s - {e} != {}
    ensures Earliest(s).when <= Earliest(s - {e}).when
  {
    assert Earliest(s - {e}) in s;
  }
}
