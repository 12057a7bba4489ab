/** Whole runs of libco's event loop: nothing is lost, nothing runs twice, no timeout is early or overdue. */
module CoEventLoopRuns {
  import opened IntrusiveList
  import opened TimedEntries
  import opened TimingWheel
  import opened CoEventLoop
  import opened Bytes
  import Seqs

  // ---------- Counting items ----------

  function FiredItems(fs: seq<Firing>): (xs: seq<Item>)
    ensures |xs| == |fs| && forall i :: 0 <= i < |fs| ==> xs[i] == fs[i].item
  {
    seq(|fs|, i requires 0 <= i < |fs| => fs[i].item)
  }

  function ItemsOf(ts: seq<Ticket>): (xs: seq<Item>)
    ensures |xs| == |ts| && forall i :: 0 <= i < |ts| ==> xs[i] == ts[i].item
  {
    seq(|ts|, i requires 0 <= i < |ts| => ts[i].item)
  }

  /** Everything taken in is on the wheel, on the active list or fired, as often as it was taken in. */
  ghost predicate Balanced(admitted: multiset<Item>, es: seq<Entry<Item>>, queue: seq<Item>, fired: seq<Firing>) {
    admitted == Tally(es) + multiset(queue) + FiredTally(fired)
  }

  ghost function Tally<T>(es: seq<Entry<T>>): multiset<T> {
    multiset(Items(es))
  }

  lemma TallyConcat<T>(a: seq<Entry<T>>, b: seq<Entry<T>>)
    ensures Tally(a + b) == Tally(a) + Tally(b)
  {
    ItemsConcat(a, b);
  }

  lemma TallyOne<T>(e: Entry<T>)
    ensures Tally([e]) == multiset{e.item}
  {
    assert Items([e]) == [e.item];
  }

  lemma TallyNone<T>()
    ensures Tally<T>([]) == multiset{}
  {
  }

  lemma Regroup<T>(a: multiset<T>, b: multiset<T>, c: multiset<T>)
    ensures (a + b) + c == a + (b + c) && (a + b) + c == (a + c) + b
  {
  }

  /** One more entry, in or out of the range. */
  lemma {:induction false} InOrderAppend<T>(es: seq<Entry<T>>, e: Entry<T>, from: nat, n: nat)
    ensures Tally(InOrder(es + [e], from, n))
            == Tally(InOrder(es, from, n)) + (if from <= e.time < from + n then multiset{e.item} else multiset{})
    decreases n
  {
    hide Tally;
    hide AtTime;
    if n > 0 {
      var t := from + n - 1;
      var before, here := InOrder(es, from, n - 1), AtTime(es, t);
      InOrderAppend(es, e, from, n - 1);
      AtTimeAppend(es, e, t);
      TallyConcat(InOrder(es + [e], from, n - 1), AtTime(es + [e], t));
      TallyConcat(before, here);
      TallyConcat(here, [e]);
      TallyOne(e);
      Seqs.EmptyLeft(here);
      Regroup(Tally(before), multiset{e.item}, Tally(here));
      Regroup(Tally(before), Tally(here), multiset{e.item});
    }
  }

  /** What is due and what is later make up the wheel. */
  lemma {:induction false} DueAndLater<T>(es: seq<Entry<T>>, from: nat, n: nat, t: nat)
    requires forall i :: 0 <= i < |es| ==> from <= es[i].time && (es[i].time < from + n <==> es[i].time <= t)
    ensures Tally(es) == Tally(InOrder(es, from, n)) + Tally(Later(es, t))
  {
    hide Tally;
    hide InOrder;
    if es == [] {
      InOrderNothing<T>(from, n);
      TallyNone<T>();
    } else {
      var es0, last := es[..|es| - 1], es[|es| - 1];
      assert es == es0 + [last];
      DueAndLater(es0, from, n, t);
      InOrderAppend(es0, last, from, n);
      TallyConcat(es0, [last]);
      TallyConcat(Later(es0, t), [last]);
      TallyOne(last);
      Seqs.EmptyLeft(Later(es0, t));
      Regroup(Tally(InOrder(es0, from, n)), Tally(Later(es0, t)), multiset{last.item});
    }
  }

  /** The items of fired and of requeued tickets. */
  ghost function FiredTally(fs: seq<Firing>): multiset<Item> {
    multiset(FiredItems(fs))
  }

  lemma FiredConcat(a: seq<Firing>, b: seq<Firing>)
    ensures FiredTally(a + b) == FiredTally(a) + FiredTally(b)
  {
    assert FiredItems(a + b) == FiredItems(a) + FiredItems(b);
  }

  lemma FiredOne(f: Firing)
    ensures FiredTally([f]) == multiset{f.item}
  {
    assert FiredItems([f]) == [f.item];
  }

  lemma FiredNone()
    ensures FiredTally([]) == multiset{}
  {
  }

  lemma ItemsOfCons(ts: seq<Ticket>)
    requires ts != []
    ensures multiset(ItemsOf(ts)) == multiset{ts[0].item} + multiset(ItemsOf(ts[1..]))
  {
    assert ItemsOf(ts) == [ts[0].item] + ItemsOf(ts[1..]);
  }

  lemma {:induction false} TicketsSplit(ts: seq<Ticket>, now: nat, edge: int)
    requires edge >= 0
    ensures multiset(ItemsOf(ts)) == FiredTally(Firings(ts, now)) + Tally(Requeued(ts, now, edge))
  {
    hide Tally;
    hide FiredTally;
    if ts == [] {
      TallyNone<Item>();
      FiredNone();
    } else {
      var t, rest := ts[0], ts[1..];
      hide ItemsOf;
      TicketsSplit(rest, now, edge);
      ItemsOfCons(ts);
      var f, r := Firings(rest, now), Requeued(rest, now, edge);
      var g, e := Firing(t.item, t.timedOut, t.expire, now), Entry(t.item, Min(t.expire, edge));
      TallyConcat([e], r);
      TallyOne(e);
      FiredConcat([g], f);
      FiredOne(g);
      Seqs.EmptyLeft(f);
      Seqs.EmptyLeft(r);
      Regroup(multiset{t.item}, FiredTally(f), Tally(r));
    }
  }

  /** A pass keeps the balance. */
  lemma PassBalances(admitted: multiset<Item>, es: seq<Entry<Item>>, queue: seq<Item>, fired: seq<Firing>,
                     due: seq<Item>, ts: seq<Ticket>, from: nat, n: nat, t: nat, edge: int)
    requires Balanced(admitted, es, queue, fired) && edge >= 0
    requires forall i :: 0 <= i < |es| ==> from <= es[i].time && (es[i].time < from + n <==> es[i].time <= t)
    requires due == Items(InOrder(es, from, n)) && ItemsOf(ts) == queue + due
    ensures Balanced(admitted, Later(es, t) + Requeued(ts, t, edge), [], fired + Firings(ts, t))
  {
    hide InOrder;
    hide Later;
    hide Firings;
    hide Requeued;
    hide ItemsOf;
    DueAndLater(es, from, n, t);
    TicketsSplit(ts, t, edge);
    TallyConcat(Later(es, t), Requeued(ts, t, edge));
    FiredConcat(fired, Firings(ts, t));
    assert multiset(queue + due) == multiset(queue) + multiset(due);
    assert multiset(due) == Tally(InOrder(es, from, n));
    Sums(admitted, Tally(InOrder(es, from, n)), Tally(Later(es, t)), multiset(queue), FiredTally(fired),
         FiredTally(Firings(ts, t)), Tally(Requeued(ts, t, edge)));
  }

  lemma Sums<T>(all: multiset<T>, due: multiset<T>, later: multiset<T>, queue: multiset<T>, fired: multiset<T>,
                firing: multiset<T>, back: multiset<T>)
    requires all == (due + later) + queue + fired && queue + due == firing + back
    ensures all == (later + back) + multiset{} + (fired + firing)
  {
    forall x ensures all[x] == ((later + back) + multiset{} + (fired + firing))[x] {
      assert (queue + due)[x] == (firing + back)[x];
    }
  }

  // ---------- An item is on the wheel once ----------

  lemma {:induction false} CountDistinct<T>(s: seq<T>, x: T)
    requires Distinct(s)
    ensures multiset(s)[x] == if x in s then 1 else 0
  {
    if s != [] {
      var s0, last := s[..|s| - 1], s[|s| - 1];
      assert s == s0 + [last];
      CountDistinct(s0, x);
    }
  }

  lemma {:induction false} DroppedCount<T>(es: seq<Entry<T>>, x: T)
    ensures Tally(Dropped(es, x)) == Tally(es)[x := 0]
  {
    hide Tally;
    if es == [] {
      TallyNone<T>();
    } else {
      var es0, last := es[..|es| - 1], es[|es| - 1];
      assert es == es0 + [last];
      DroppedCount(es0, x);
      TallyConcat(es0, [last]);
      TallyConcat(Dropped(es0, x), [last]);
      TallyOne(last);
      Seqs.EmptyLeft(Dropped(es0, x));
    }
  }

  /** How often x is in the first n slots of the ring, if its one place there is slot d. */
  lemma {:induction false} RingCount<T>(size: nat, start: nat, idx: nat, slots: seq<seq<T>>, es: seq<Entry<T>>, x: T, d: nat, n: nat)
    requires RingTimed(size, start, idx, slots, es) && d < size && n <= size
    requires forall e :: 0 <= e < size ==> multiset(slots[SlotAt(size, idx, e)])[x] == if e == d then 1 else 0
    ensures Tally(InOrder(es, start, n))[x] == if d < n then 1 else 0
    decreases n
  {
    if n > 0 {
      RingCount(size, start, idx, slots, es, x, d, n - 1);
      TallyConcat(InOrder(es, start, n - 1), AtTime(es, start + n - 1));
      assert slots[SlotAt(size, idx, n - 1)] == Items(AtTime(es, start + (n - 1)));
    }
  }

  lemma OnWheelOnce(w: Wheel, x: Item, k: nat)
    requires w.Valid() && k < |w.pItems| && x in w.slots[k]
    ensures Tally(w.entries)[x] == 1
  {
    var size := |w.pItems|;
    var d := SlotOnto(size, w.llStartIdx, k);
    forall e | 0 <= e < size
      ensures multiset(w.slots[SlotAt(size, w.llStartIdx, e)])[x] == if e == d then 1 else 0
    {
      OnceInRing(w, x, k, d, e);
    }
    RingCount(size, w.ullStart, w.llStartIdx, w.slots, w.entries, x, d, size);
    AllDue(size, w.ullStart, w.llStartIdx, w.slots, w.entries);
  }

  lemma OnceInRing(w: Wheel, x: Item, k: nat, d: nat, e: nat)
    requires w.Valid() && k < |w.pItems| && x in w.slots[k] && d < |w.pItems| && e < |w.pItems|
    requires SlotAt(|w.pItems|, w.llStartIdx, d) == k
    ensures multiset(w.slots[SlotAt(|w.pItems|, w.llStartIdx, e)])[x] == if e == d then 1 else 0
  {
    hide RingTimed;
    hide SlotAt;
    var j := SlotAt(|w.pItems|, w.llStartIdx, e);
    assert IsList(w.pItems[j], w.slots[j]);
    CountDistinct(w.slots[j], x);
    w.Nowhere(k, x);
    if e != d {
      SlotsDiffer(|w.pItems|, w.llStartIdx, e, d);
    }
  }

  lemma AllDue<T>(size: nat, start: nat, idx: nat, slots: seq<seq<T>>, es: seq<Entry<T>>)
    requires RingTimed(size, start, idx, slots, es)
    ensures Tally(es) == Tally(InOrder(es, start, size))
  {
    DueAndLater(es, start, size, start + size - 1);
    LaterMembers(es, start + size - 1);
  }

  // ---------- Runs ----------

  /** Where an item on the wheel stands. */
  lemma SlotOf(w: Wheel, x: Item) returns (k: nat)
    requires w.Valid() && x in Items(w.entries)
    ensures k < |w.pItems| && x in w.slots[k]
  {
    var i :| 0 <= i < |w.entries| && w.entries[i].item == x;
    var e := w.entries[i];
    var d := e.time - w.ullStart;
    k := SlotAt(|w.pItems|, w.llStartIdx, d);
    AtTimeHas(w.entries, i);
    assert w.slots[SlotAt(|w.pItems|, w.llStartIdx, d)] == Items(AtTime(w.entries, w.ullStart + d));
  }

  lemma {:induction false} AtTimeHas<T>(es: seq<Entry<T>>, i: nat)
    requires i < |es|
    ensures es[i].item in Items(AtTime(es, es[i].time))
  {
    var es0, last := es[..|es| - 1], es[|es| - 1];
    var t := es[i].time;
    ItemsConcat(AtTime(es0, t), if last.time == t then [last] else []);
    if i < |es0| {
      AtTimeHas(es0, i);
    } else {
      assert Items([last]) == [last.item];
    }
  }

  /** The items that take part: each is on no list, on the active list or on the wheel. */
  ghost predicate Universe(l: EventLoop, items: set<Item>)
    reads l, l.wheel, items
  {
    && l.wheel.held <= items
    && (forall i :: 0 <= i < |l.queue| ==> l.queue[i] in items)
    && (forall x :: x in items ==> x.pLink == null || x in l.queue || x in Items(l.wheel.entries))
  }

  ghost predicate InBalance(l: EventLoop)
    reads l, l.wheel
  {
    Balanced(l.admitted, l.wheel.entries, l.queue, l.fired)
  }

  /** A pass as a whole, or taken apart: callbacks register and make ready between the steps. */
  datatype Op =
    | OpRegister(x: Item, clock: nat)
    | OpReady(x: Item)
    | OpPoll(x: Item)
    | OpPass(t: nat)
    | OpExpire(t: nat)
    | OpStep

  predicate Takes(op: Op, items: set<Item>) {
    op.OpRegister? || op.OpReady? || op.OpPoll? ==> op.x in items
  }

  /** Clock readings never go back, and the gap between passes counts right. */
  predicate Timely(ops: seq<Op>, now: nat, start: nat, size: nat)
    requires start <= now
    decreases |ops|
  {
    ops == [] ||
    match ops[0]
    case OpRegister(_, clock) => now <= clock && Timely(ops[1..], now, start, size)
    case OpPass(t) => now <= t && CountsRight(t - start + 1, size) && Timely(ops[1..], t, t, size)
    case OpExpire(t) => now <= t && CountsRight(t - start + 1, size) && Timely(ops[1..], t, t, size)
    case _ => Timely(ops[1..], now, start, size)
  }

  /** Nothing on the wheel is due at t. */
  ghost predicate AllLater(es: seq<Entry<Item>>, t: nat) {
    forall i :: 0 <= i < |es| ==> es[i].item.expire > t
  }

  ghost predicate Ready(l: EventLoop, items: set<Item>)
    reads l, l.wheel, l.active, l.wheel.pItems, items, l.wheel.held, l.queue
  {
    l.Valid() && Universe(l, items) && InBalance(l)
  }

  method RunRegister(l: EventLoop, ghost items: set<Item>, x: Item, clock: nat)
    requires Ready(l, items) && x in items && l.now <= clock
    modifies l`admitted, l.wheel, l.wheel.pItems, items`pNext, items`pPrev, items`pLink
    ensures Ready(l, items) && l.wheel.ullStart == old(l.wheel.ullStart)
  {
    hide Tally;
    hide FiredTally;
    hide Items;
    hide IsList;
    hide RingTimed;
    if x.pLink == null {
      ghost var es := l.wheel.entries;
      var rc := l.Register(x, clock);
      if rc == 0 {
        ghost var e := Entry(x, Min(x.expire, l.wheel.ullStart + |l.wheel.pItems| - 1));
        TallyConcat(es, [e]);
        TallyOne(e);
        ItemsAppend(es, e);
      }
    }
  }

  method RunReady(l: EventLoop, ghost items: set<Item>, x: Item)
    requires Ready(l, items) && x in items
    modifies l`queue, l`admitted, l.active, items`pNext, items`pPrev, items`pLink
    ensures Ready(l, items)
  {
    hide Tally;
    hide FiredTally;
    hide Items;
    hide IsList;
    hide RingTimed;
    l.EventReady(x);
  }

  /** An item of the universe whose link is a list of the wheel is on the wheel. */
  lemma OnWheel(l: EventLoop, items: set<Item>, x: Item)
    requires l.Valid() && Universe(l, items) && x in items && x.pLink in l.wheel.pItems
    ensures x in Items(l.wheel.entries)
  {
    hide RingTimed;
    hide Items;
    QueueLinks(l);
    hide IsList;
    var k :| 0 <= k < |l.wheel.pItems| && l.wheel.pItems[k] == x.pLink;
    assert l.wheel.pItems[k] in l.wheel.ring;
  }

  lemma QueueLinks(l: EventLoop)
    requires IsList(l.active, l.queue)
    ensures forall x :: x in l.queue ==> x.pLink == l.active
  {
    forall x | x in l.queue ensures x.pLink == l.active {
      OnList(l.active, l.queue, x);
    }
  }

  method RunPoll(l: EventLoop, ghost items: set<Item>, x: Item)
    requires Ready(l, items) && x in items
    modifies l`queue, l.active, l.wheel, l.wheel.pItems, items`pNext, items`pPrev, items`pLink
    ensures Ready(l, items) && l.wheel.ullStart == old(l.wheel.ullStart)
  {
    hide Tally;
    hide FiredTally;
    hide Items;
    hide IsList;
    hide RingTimed;
    if x.pLink in l.wheel.pItems {
      ghost var es := l.wheel.entries;
      OnWheel(l, items, x);
      ghost var k := SlotOf(l.wheel, x);
      OnWheelOnce(l.wheel, x, k);
      DroppedCount(es, x);
      DroppedItems(es, x);
      l.EventOnPoll(x, k);
      Moved(Tally(es), x, multiset(old(l.queue)), FiredTally(l.fired));
    }
  }

  lemma Moved<T>(es: multiset<T>, x: T, queue: multiset<T>, fired: multiset<T>)
    requires es[x] == 1
    ensures es + queue + fired == es[x := 0] + (queue + multiset{x}) + fired
  {
  }

  lemma DroppedItems<T>(es: seq<Entry<T>>, x: T)
    ensures forall y :: y in Items(es) && y != x ==> y in Items(Dropped(es, x))
  {
    DroppedCount(es, x);
    forall y | y in Items(es) && y != x ensures y in Items(Dropped(es, x)) {
      assert Tally(es)[y] > 0;
      assert y in Tally(Dropped(es, x));
    }
  }

  /** Where the items of a pass are afterwards. */
  lemma PassPlaces(es: seq<Entry<Item>>, queue: seq<Item>, due: seq<Item>, ts: seq<Ticket>,
                   from: nat, n: nat, t: nat, edge: int, y: Item)
    requires edge >= 0 && (y in queue || y in Items(es))
    requires forall i :: 0 <= i < |es| ==> from <= es[i].time && (es[i].time < from + n <==> es[i].time <= t)
    requires due == Items(InOrder(es, from, n)) && ItemsOf(ts) == queue + due
    ensures y in Items(Later(es, t) + Requeued(ts, t, edge)) || exists i :: 0 <= i < |ts| && ts[i].item == y && !ts[i].Early(t)
  {
    hide InOrder;
    hide Later;
    hide Firings;
    hide Requeued;
    DueAndLater(es, from, n, t);
    ItemsConcat(Later(es, t), Requeued(ts, t, edge));
    EachOnce(ts, t, edge);
    assert y in Items(es) ==> y in Tally(es);
    if y !in Items(Later(es, t)) {
      assert y !in Tally(Later(es, t));
      assert y in ItemsOf(ts);
      var i :| 0 <= i < |ts| && ItemsOf(ts)[i] == y;
      EarlyIsBack(ts, t, edge, i);
    }
  }

  lemma EarlyIsBack(ts: seq<Ticket>, t: nat, edge: int, i: nat)
    requires edge >= 0 && i < |ts|
    ensures ts[i].Early(t) ==> ts[i].item in Items(Requeued(ts, t, edge))
  {
    hide Requeued;
    EachOnce(ts, t, edge);
    assert ts[i] in ts;
    if ts[i].Early(t) {
      var e := Entry(ts[i].item, Min(ts[i].expire, edge));
      var j :| 0 <= j < |Requeued(ts, t, edge)| && Requeued(ts, t, edge)[j] == e;
      assert Items(Requeued(ts, t, edge))[j] == e.item;
    }
  }

  lemma TicketItems(queue: seq<Item>, due: seq<Item>)
    ensures ItemsOf(Tickets(queue) + Raised(due)) == queue + due
  {
    hide Tickets;
    hide Raised;
  }

  lemma InRange(w: Wheel, n: nat, t: nat)
    requires w.Valid() && w.ullStart <= t && n == Min(t - w.ullStart + 1, |w.pItems|)
    ensures forall i :: 0 <= i < |w.entries| ==>
              w.ullStart <= w.entries[i].time && (w.entries[i].time < w.ullStart + n <==> w.entries[i].time <= t)
  {
  }

  method RunPass(l: EventLoop, ghost items: set<Item>, t: nat)
    requires Ready(l, items) && l.now <= t && CountsRight(t - l.wheel.ullStart + 1, |l.wheel.pItems|)
    modifies l, l.active, l.timeout, l.wheel, l.wheel.pItems
    modifies items`pNext, items`pPrev, items`pLink, items`bTimeout
    ensures Ready(l, items) && l.now == t == l.wheel.ullStart && l.queue == [] && AllLater(l.wheel.entries, t)
    ensures l.admitted == old(l.admitted) && old(l.fired) <= l.fired
  {
    hide Tally;
    hide FiredTally;
    hide Items;
    hide InOrder;
    hide Later;
    hide Firings;
    hide Requeued;
    hide Tickets;
    hide Raised;
    hide ItemsOf;
    hide OnTime;
    hide RingTimed;
    hide Released;
    hide Balanced;
    ghost var w, es, queue := l.wheel, l.wheel.entries, l.queue;
    ghost var from, n, edge := w.ullStart, Min(t - w.ullStart + 1, |w.pItems|), t + |w.pItems| - 1;
    ghost var due := Items(InOrder(es, from, n));
    ghost var ts := Tickets(queue) + Raised(due);
    TicketItems(queue, due);
    hide IsList;
    ghost var fired := l.fired;
    InRange(w, n, t);
    PassBalances(l.admitted, es, queue, fired, due, ts, from, n, t, edge);
    Unlinked(l, items);
    l.Pass(t);
    forall y | y in items ensures y.pLink == null || y in Items(l.wheel.entries) {
      PlacesAfter(l, es, queue, due, ts, from, n, t, edge, y);
    }
  }

  /** An item on no list is neither on the wheel nor on the active list. */
  lemma Unlinked(l: EventLoop, items: set<Item>)
    requires l.Valid()
    ensures forall y :: y in items && y.pLink == null ==> y !in l.wheel.held && y !in l.queue
  {
    hide RingTimed;
    QueueLinks(l);
  }

  lemma PlacesAfter(l: EventLoop, es: seq<Entry<Item>>, queue: seq<Item>, due: seq<Item>, ts: seq<Ticket>,
                    from: nat, n: nat, t: nat, edge: int, y: Item)
    requires edge >= 0 && (y in queue || y in Items(es) || y.pLink == null)
    requires forall i :: 0 <= i < |es| ==> from <= es[i].time && (es[i].time < from + n <==> es[i].time <= t)
    requires due == Items(InOrder(es, from, n)) && ItemsOf(ts) == queue + due
    requires Released(ts, |ts|, t) && l.wheel.entries == Later(es, t) + Requeued(ts, t, edge)
    ensures y.pLink == null || y in Items(l.wheel.entries)
  {
    hide Items;
    hide InOrder;
    hide Later;
    hide Requeued;
    hide ItemsOf;
    if y in queue || y in Items(es) {
      PassPlaces(es, queue, due, ts, from, n, t, edge, y);
    }
  }

  /** Expiry moves what is due from the wheel to the active list. */
  lemma ExpiryBalances(admitted: multiset<Item>, es: seq<Entry<Item>>, queue: seq<Item>, fired: seq<Firing>,
                       due: seq<Item>, from: nat, n: nat, t: nat)
    requires Balanced(admitted, es, queue, fired)
    requires forall i :: 0 <= i < |es| ==> from <= es[i].time && (es[i].time < from + n <==> es[i].time <= t)
    requires due == Items(InOrder(es, from, n))
    ensures Balanced(admitted, Later(es, t), queue + due, fired)
    ensures forall y :: y in Items(es) ==> y in due || y in Items(Later(es, t))
  {
    hide InOrder;
    hide Later;
    DueAndLater(es, from, n, t);
    assert multiset(queue + due) == multiset(queue) + multiset(due);
    Carry(Tally(InOrder(es, from, n)), Tally(Later(es, t)), multiset(queue), FiredTally(fired));
    forall y | y in Items(es) ensures y in due || y in Items(Later(es, t)) {
      assert y in Tally(es);
    }
  }

  lemma Carry<T>(due: multiset<T>, later: multiset<T>, queue: multiset<T>, fired: multiset<T>)
    ensures (due + later) + queue + fired == later + (queue + due) + fired
  {
  }

  method RunExpire(l: EventLoop, ghost items: set<Item>, t: nat)
    requires Ready(l, items) && l.now <= t && CountsRight(t - l.wheel.ullStart + 1, |l.wheel.pItems|)
    modifies l, l.active, l.timeout, l.wheel, l.wheel.pItems
    modifies items`pNext, items`pPrev, items`pLink, items`bTimeout
    ensures Ready(l, items) && l.now == t == l.wheel.ullStart && l.fired == old(l.fired)
  {
    hide Tally;
    hide FiredTally;
    hide Items;
    hide InOrder;
    hide Later;
    hide OnTime;
    hide RingTimed;
    hide IsList;
    hide Balanced;
    ghost var w, es, queue := l.wheel, l.wheel.entries, l.queue;
    ghost var from, n := w.ullStart, Min(t - w.ullStart + 1, |w.pItems|);
    ghost var due := Items(InOrder(es, from, n));
    InRange(w, n, t);
    ExpiryBalances(l.admitted, es, queue, l.fired, due, from, n, t);
    Unlinked(l, items);
    l.ExpireTimeouts(t);
  }

  /** What a step does to the balance: the first item is fired or goes back. */
  lemma StepBalances(admitted: multiset<Item>, es: seq<Entry<Item>>, queue: seq<Item>, fired: seq<Firing>,
                     e: Entry<Item>, f: Firing)
    requires Balanced(admitted, es, queue, fired) && queue != [] && e.item == f.item == queue[0]
    ensures Balanced(admitted, es + [e], queue[1..], fired) && Balanced(admitted, es, queue[1..], fired + [f])
  {
    TallyConcat(es, [e]);
    TallyOne(e);
    FiredConcat(fired, [f]);
    FiredOne(f);
    assert queue == [queue[0]] + queue[1..];
    assert multiset(queue) == multiset{queue[0]} + multiset(queue[1..]);
    hide Tally;
    hide FiredTally;
    Swapped(Tally(es), multiset{queue[0]}, multiset(queue[1..]), FiredTally(fired));
  }

  lemma Swapped<T>(es: multiset<T>, x: multiset<T>, rest: multiset<T>, fired: multiset<T>)
    ensures es + (x + rest) + fired == (es + x) + rest + fired == es + rest + (fired + x)
  {
  }

  method RunStep(l: EventLoop, ghost items: set<Item>)
    requires Ready(l, items)
    modifies l`queue, l`fired, l.active, l.wheel, l.wheel.pItems
    modifies items`pNext, items`pPrev, items`pLink, items`bTimeout
    ensures Ready(l, items) && l.now == old(l.now) && l.wheel.ullStart == old(l.wheel.ullStart) && old(l.fired) <= l.fired
  {
    hide Tally;
    hide FiredTally;
    hide Items;
    hide OnTime;
    hide RingTimed;
    hide IsList;
    hide Balanced;
    l.HeadIs();
    if l.active.head != null {
      ghost var es, queue, first := l.wheel.entries, l.queue, l.queue[0];
      ghost var e := Entry(first, Min(first.expire, l.wheel.ullStart + |l.wheel.pItems| - 1));
      ghost var f := Firing(first, first.bTimeout, first.expire, l.now);
      StepBalances(l.admitted, es, queue, l.fired, e, f);
      ItemsAppend(es, e);
      Unlinked(l, items);
      var x, requeued := l.Step();
    }
  }

  /** Any one operation. */
  method RunOp(l: EventLoop, ghost items: set<Item>, op: Op)
    requires Ready(l, items) && Takes(op, items)
    requires op.OpRegister? ==> l.now <= op.clock
    requires op.OpPass? || op.OpExpire? ==> l.now <= op.t && CountsRight(op.t - l.wheel.ullStart + 1, |l.wheel.pItems|)
    modifies l, l.active, l.timeout, l.wheel, l.wheel.pItems
    modifies items`pNext, items`pPrev, items`pLink, items`bTimeout
    ensures Ready(l, items) && old(l.fired) <= l.fired
    ensures if op.OpPass? || op.OpExpire? then l.now == op.t == l.wheel.ullStart
            else l.now == old(l.now) && l.wheel.ullStart == old(l.wheel.ullStart)
    ensures op.OpPass? ==> l.queue == [] && AllLater(l.wheel.entries, op.t)
  {
    hide Ready;
    match op {
      case OpRegister(x, clock) => RunRegister(l, items, x, clock);
      case OpReady(x) => RunReady(l, items, x);
      case OpPoll(x) => RunPoll(l, items, x);
      case OpPass(t) => RunPass(l, items, t);
      case OpExpire(t) => RunExpire(l, items, t);
      case OpStep => RunStep(l, items);
    }
  }

  lemma NotOnWheel(es: seq<Entry<Item>>, t: nat, x: Item)
    requires AllLater(es, t) && x.expire <= t
    ensures Tally(es)[x] == 0
  {
    assert x !in Items(es);
  }

  /** How often an item was taken in, and how often it was fired. */
  ghost predicate FiredAsOften(l: EventLoop, x: Item)
    reads l
  {
    l.admitted[x] == multiset(FiredItems(l.fired))[x]
  }

  lemma PassedMeansFired(l: EventLoop, items: set<Item>, t: nat, x: Item)
    requires Ready(l, items) && l.queue == [] && AllLater(l.wheel.entries, t) && x.expire <= t
    ensures FiredAsOften(l, x)
  {
    NotOnWheel(l.wheel.entries, t, x);
  }

  lemma OverdueMeansFired(l: EventLoop, items: set<Item>, x: Item)
    requires Ready(l, items) && l.queue == [] && x.expire < l.now
    ensures FiredAsOften(l, x)
  {
    NotOnWheel(l.wheel.entries, x.expire, x);
  }

  /**
   Any run of registrations, ready events, polled events, expiries and steps of the inner loop, in any
   order, with a clock that does not go back: no timeout has ever been fired early; everything taken in is
   on the wheel, on the active list or fired, exactly as often as it was taken in; whenever the active list
   is empty every item overdue has been fired exactly as often as it was taken in, and right after
   an undisturbed pass at t so has every item due by t.
   */
  method Run(l: EventLoop, ghost items: set<Item>, ops: seq<Op>)
    requires Ready(l, items) && forall i :: 0 <= i < |ops| ==> Takes(ops[i], items)
    requires l.wheel.ullStart <= l.now && Timely(ops, l.now, l.wheel.ullStart, |l.wheel.pItems|)
    modifies l, l.active, l.timeout, l.wheel, l.wheel.pItems
    modifies items`pNext, items`pPrev, items`pLink, items`bTimeout
    ensures Ready(l, items) && old(l.fired) <= l.fired
    ensures forall i :: 0 <= i < |l.fired| ==> l.fired[i].NotEarly()
    ensures l.queue == [] ==> forall x :: x in items && x.expire < l.now ==> FiredAsOften(l, x)
    ensures ops != [] && ops[|ops| - 1].OpPass? ==> forall x :: x in items && x.expire <= ops[|ops| - 1].t ==> FiredAsOften(l, x)
  {
    hide Ready;
    hide FiredAsOften;
    var i := 0;
    assert ops[0..] == ops;
    while i < |ops|
      invariant 0 <= i <= |ops| && Ready(l, items) && old(l.fired) <= l.fired
      invariant l.wheel.ullStart <= l.now && Timely(ops[i..], l.now, l.wheel.ullStart, |l.wheel.pItems|)
      invariant i > 0 && ops[i - 1].OpPass? ==> l.queue == [] && AllLater(l.wheel.entries, ops[i - 1].t)
    {
      assert ops[i..][0] == ops[i] && ops[i..][1..] == ops[i + 1..];
      RunOp(l, items, ops[i]);
      i := i + 1;
    }
    NoneEarly(l, items);
    if l.queue == [] {
      forall x | x in items && x.expire < l.now ensures FiredAsOften(l, x) {
        OverdueMeansFired(l, items, x);
      }
    }
    if ops != [] && ops[|ops| - 1].OpPass? {
      forall x | x in items && x.expire <= ops[|ops| - 1].t ensures FiredAsOften(l, x) {
        PassedMeansFired(l, items, ops[|ops| - 1].t, x);
      }
    }
  }

  lemma NoneEarly(l: EventLoop, items: set<Item>)
    requires Ready(l, items)
    ensures forall i :: 0 <= i < |l.fired| ==> l.fired[i].NotEarly()
  {
  }
}
