/** The body of libco's co_eventloop: ready events, expired timeouts, and the re-queueing of clamped ones. */
module CoEventLoop {
  import opened IntrusiveList
  import opened TimedEntries
  import opened TimingWheel
  import opened Bytes
  import Seqs

  /** A callback that ran: for which item, as a timeout or not, due when, at what time. */
  datatype Firing = Firing(item: Item, timedOut: bool, expire: nat, at: nat) {
    predicate NotEarly() {
      timedOut ==> expire <= at
    }
  }

  // ---------- A pass as a value ----------

  /** An item on the active list: taken as a timeout or not, and due when. */
  datatype Ticket = Ticket(item: Item, timedOut: bool, expire: nat) {
    /** Taken off the wheel before it is due, because the wheel is too short for it. */
    predicate Early(now: nat) {
      timedOut && now < expire
    }
  }

  ghost function Tickets(s: seq<Item>): (ts: seq<Ticket>)
    reads s`bTimeout
    ensures |ts| == |s| && forall i :: 0 <= i < |s| ==> ts[i] == Ticket(s[i], s[i].bTimeout, s[i].expire)
  {
    if s == [] then [] else var x := s[|s| - 1]; Tickets(s[..|s| - 1]) + [Ticket(x, x.bTimeout, x.expire)]
  }

  /** The same for items about to be taken as timeouts. */
  ghost function Raised(s: seq<Item>): (ts: seq<Ticket>)
    ensures |ts| == |s| && forall i :: 0 <= i < |s| ==> ts[i] == Ticket(s[i], true, s[i].expire)
  {
    if s == [] then [] else var x := s[|s| - 1]; Raised(s[..|s| - 1]) + [Ticket(x, true, x.expire)]
  }

  function Firings(ts: seq<Ticket>, now: nat): seq<Firing> {
    if ts == [] then []
    else (if ts[0].Early(now) then [] else [Firing(ts[0].item, ts[0].timedOut, ts[0].expire, now)]) + Firings(ts[1..], now)
  }

  /** What goes back on a wheel whose last slot is at edge. */
  function Requeued(ts: seq<Ticket>, now: nat, edge: int): seq<Entry<Item>>
    requires edge >= 0
  {
    if ts == [] then []
    else (if ts[0].Early(now) then [Entry(ts[0].item, Min(ts[0].expire, edge))] else []) + Requeued(ts[1..], now, edge)
  }

  /** Nothing is lost and nothing happens twice: each ticket is fired or goes back, and none is fired early. */
  lemma {:induction false} EachOnce(ts: seq<Ticket>, now: nat, edge: int)
    requires edge >= 0
    ensures |Firings(ts, now)| + |Requeued(ts, now, edge)| == |ts|
    ensures forall t :: t in ts ==> if t.Early(now) then Entry(t.item, Min(t.expire, edge)) in Requeued(ts, now, edge)
                                    else Firing(t.item, t.timedOut, t.expire, now) in Firings(ts, now)
    ensures forall f :: f in Firings(ts, now) ==> f.NotEarly() && f.at == now
  {
    if ts != [] {
      EachOnce(ts[1..], now, edge);
    }
  }

  // ---------- On time ----------

  /** Every slot time is at most the item's expiry, and nothing on the wheel was overdue at now. */
  ghost predicate OnTime(es: seq<Entry<Item>>, now: nat) {
    forall i :: 0 <= i < |es| ==> es[i].time <= es[i].item.expire && now <= es[i].item.expire
  }

  lemma OnTimeAppend(es: seq<Entry<Item>>, now: nat, x: Item, t: nat)
    requires OnTime(es, now) && t <= x.expire && now <= x.expire
    ensures OnTime(es + [Entry(x, t)], now)
  {
  }

  lemma OnTimeAppendIf(es: seq<Entry<Item>>, now: nat, x: Item, t: nat)
    requires OnTime(es, now) && t <= x.expire
    ensures now <= x.expire ==> OnTime(es + [Entry(x, t)], now)
  {
  }

  lemma OnTimeLater(es: seq<Entry<Item>>, now: nat, t: nat)
    requires OnTime(es, now)
    ensures OnTime(Later(es, t), t) && forall i :: 0 <= i < |Later(es, t)| ==> Later(es, t)[i].item.expire > t
  {
    LaterMembers(es, t);
  }

  lemma OnTimeDropped(es: seq<Entry<Item>>, now: nat, x: Item)
    requires OnTime(es, now)
    ensures OnTime(Dropped(es, x), now)
  {
    DroppedMembers(es, x);
  }

  /** The tickets are those of their items. */
  ghost predicate Genuine(ts: seq<Ticket>) {
    forall i :: 0 <= i < |ts| ==> ts[i].expire == ts[i].item.expire
  }

  lemma {:induction false} RequeuedLate(ts: seq<Ticket>, now: nat, edge: int)
    requires edge >= 0 && Genuine(ts)
    ensures forall i :: 0 <= i < |Requeued(ts, now, edge)| ==> Requeued(ts, now, edge)[i].item.expire > now
  {
    if ts != [] {
      RequeuedLate(ts[1..], now, edge);
    }
  }

  /** Of the first n tickets those fired are on no list any more. */
  ghost predicate Released(ts: seq<Ticket>, n: nat, now: nat)
    requires n <= |ts|
    reads set i | 0 <= i < |ts| :: ts[i].item
  {
    forall i :: 0 <= i < n && !ts[i].Early(now) ==> ts[i].item.pLink == null
  }

  class EventLoop {
    const wheel: Wheel
    const active: Link
    const timeout: Link
    /** The time read by the current pass. */
    var now: nat
    ghost var queue: seq<Item>
    ghost var fired: seq<Firing>
    /** Everything taken in, each time it was. */
    ghost var admitted: multiset<Item>

    /** The wheel, the active list and the empty timeout list stand apart; no timeout has run early. */
    ghost predicate Valid()
      reads this, wheel, active, wheel.pItems
      reads wheel.held`pLink, wheel.held`pPrev, wheel.held`pNext, queue`pLink, queue`pPrev, queue`pNext
    {
      && wheel.Valid()
      && active != timeout && active !in wheel.ring && timeout !in wheel.ring
      && IsList(active, queue)
      && 0 < wheel.ullStart <= now && OnTime(wheel.entries, now)
      && forall i :: 0 <= i < |fired| ==> fired[i].NotEarly()
    }

    constructor (wheel: Wheel, active: Link, timeout: Link, now: nat)
      requires wheel.Valid() && active != timeout && active !in wheel.ring && timeout !in wheel.ring
      requires IsList(active, []) && 0 < wheel.ullStart <= now && wheel.entries == []
      ensures Valid() && queue == [] && fired == [] && admitted == multiset{} && this.wheel == wheel && this.now == now
      ensures this.active == active && this.timeout == timeout
    {
      this.wheel, this.active, this.timeout, this.now := wheel, active, timeout, now;
      queue, fired, admitted := [], [], multiset{};
    }

    /** Items on the active list are not on the wheel. */
    lemma QueueApart()
      requires wheel.Owned() && active !in wheel.ring && IsList(active, queue)
      ensures forall i :: 0 <= i < |queue| ==> queue[i] !in wheel.held
    {
      forall i | 0 <= i < |queue| ensures queue[i] !in wheel.held {
        OnList(active, queue, queue[i]);
      }
    }

    /** co_poll_inner, from inside a callback: a new timeout at a clock reading no earlier than the pass's. */
    method Register(x: Item, clock: nat) returns (rc: int)
      requires Valid() && now <= clock && x.pLink == null
      modifies this`admitted, wheel, wheel.pItems, wheel.held`pNext, x`pNext, x`pPrev, x`pLink
      ensures Valid() && (rc == 0 <==> clock <= x.expire) && wheel.ullStart == old(wheel.ullStart)
      ensures if rc == 0 then
                && wheel.entries == old(wheel.entries) + [Entry(x, Min(x.expire, wheel.ullStart + |wheel.pItems| - 1))]
                && wheel.held == old(wheel.held) + {x} && admitted == old(admitted) + multiset{x}
              else
                && wheel.entries == old(wheel.entries) && wheel.held == old(wheel.held) && admitted == old(admitted)
                && x.pLink == null
    {
      hide OnTime;
      hide RingTimed;
      QueueApart();
      forall i | 0 <= i < |queue| ensures queue[i] != x {
        OnList(active, queue, queue[i]);
      }
      hide IsList;
      ghost var entries := wheel.entries;
      rc := wheel.AddTimeout(x, clock);
      if rc == 0 {
        OnTimeAppend(entries, now, x, Min(x.expire, wheel.ullStart + |wheel.pItems| - 1));
        admitted := admitted + multiset{x};
      }
    }

    /** An event on an item: onto the active list unless it is on a list already. */
    method EventReady(x: Item)
      requires Valid()
      modifies this`queue, this`admitted, active, queue`pNext, x`pNext, x`pPrev, x`pLink
      ensures Valid()
      ensures if old(x.pLink) == null then queue == old(queue) + [x] && admitted == old(admitted) + multiset{x}
              else queue == old(queue) && admitted == old(admitted) && x.pLink == old(x.pLink)
    {
      hide OnTime;
      hide RingTimed;
      hide IsList;
      QueueApart();
      AddTail(active, x, queue);
      if old(x.pLink) == null {
        queue := queue + [x];
        admitted := admitted + multiset{x};
      }
    }

    /** OnPollPreparePfn: an event on a polled item still on the wheel moves it to the active list. */
    method EventOnPoll(x: Item, ghost k: nat)
      requires Valid() && k < |wheel.pItems| && x in wheel.slots[k]
      modifies this`queue, active, queue`pNext, wheel, wheel.pItems, wheel.held`pNext, wheel.held`pPrev, wheel.held`pLink
      ensures Valid() && queue == old(queue) + [x] && wheel.entries == Dropped(old(wheel.entries), x)
      ensures wheel.held == old(wheel.held) - {x} && wheel.ullStart == old(wheel.ullStart)
    {
      hide IsList;
      hide RingTimed;
      hide OnTime;
      QueueApart();
      OnTimeDropped(wheel.entries, now, x);
      wheel.RemoveTimeout(x, k);
      AddTail(active, x, queue);
      queue := queue + [x];
    }

    /** The loop that marks everything taken off the wheel. */
    method MarkTimeouts(ghost s: seq<Item>)
      requires IsList(timeout, s)
      modifies s`bTimeout
      ensures IsList(timeout, s)
      ensures forall i :: 0 <= i < |s| ==> s[i].bTimeout
    {
      var lp := timeout.head;
      ghost var n := 0;
      while lp != null
        invariant 0 <= n <= |s| && lp == (if n == |s| then null else s[n])
        invariant forall i :: 0 <= i < n ==> s[i].bTimeout
        decreases |s| - n
      {
        assert old(Linked(timeout, s, n));
        lp.bTimeout := true;
        lp := lp.pNext;
        n := n + 1;
      }
    }

    /** Items on the timeout list are not on the wheel. */
    lemma TakenApart(due: seq<Item>)
      requires wheel.Owned() && timeout !in wheel.ring && IsList(timeout, due)
      ensures forall i :: 0 <= i < |due| ==> due[i] !in wheel.held
    {
      forall i | 0 <= i < |due| ensures due[i] !in wheel.held {
        OnList(timeout, due, due[i]);
      }
    }

    /** The first half of expiry: everything due at t goes to the timeout list. */
    method TakeDue(t: nat)
      requires Valid() && now <= t
      requires CountsRight(t - wheel.ullStart + 1, |wheel.pItems|)
      modifies this`now, timeout, wheel, wheel.pItems, wheel.held`pNext, wheel.held`pPrev, wheel.held`pLink
      ensures Valid() && now == t == wheel.ullStart && wheel.held <= old(wheel.held)
      ensures var due := Items(InOrder(old(wheel.entries), old(wheel.ullStart), Min(t - old(wheel.ullStart) + 1, |wheel.pItems|)));
              IsList(timeout, due) && AllIn(due, old(wheel.held))
      ensures wheel.entries == Later(old(wheel.entries), t)
    {
      hide RingTimed;
      hide InOrder;
      hide IsList;
      hide AllIn;
      hide OnTime;
      QueueApart();
      OnTimeLater(wheel.entries, now, t);
      timeout.head, timeout.tail := null, null;
      EmptyList(timeout);
      now := t;
      Seqs.EmptyLeft(Items(InOrder(wheel.entries, wheel.ullStart, Min(t - wheel.ullStart + 1, |wheel.pItems|))));
      wheel.TakeAllTimeout(t, timeout, []);
    }

    /** The second half: mark what was taken and append it to the active list. */
    method AppendDue(ghost due: seq<Item>)
      requires Valid() && IsList(timeout, due)
      modifies this`queue, active, timeout, queue`pNext, due`pPrev, due`pLink, due`bTimeout
      ensures Valid() && queue == old(queue) + due && forall i :: 0 <= i < |due| ==> due[i].bTimeout
    {
      hide IsList;
      hide RingTimed;
      hide OnTime;
      QueueApart();
      TakenApart(due);
      Apart(active, timeout, queue, due);
      MarkTimeouts(due);
      Join(active, timeout, queue, due);
      queue := queue + due;
    }

    /** Take everything due at t off the wheel, mark it and append it to the active list. */
    method ExpireTimeouts(t: nat)
      requires Valid() && now <= t
      requires CountsRight(t - wheel.ullStart + 1, |wheel.pItems|)
      modifies this`now, this`queue, active, timeout, wheel, wheel.pItems, queue`pNext
      modifies wheel.held`pNext, wheel.held`pPrev, wheel.held`pLink, wheel.held`bTimeout
      ensures Valid() && now == t == wheel.ullStart && fired == old(fired) && wheel.held <= old(wheel.held)
      ensures var due := Items(InOrder(old(wheel.entries), old(wheel.ullStart), Min(t - old(wheel.ullStart) + 1, |wheel.pItems|)));
              queue == old(queue) + due && AllIn(due, old(wheel.held)) && forall i :: 0 <= i < |due| ==> due[i].bTimeout
      ensures wheel.entries == Later(old(wheel.entries), t)
    {
      hide RingTimed;
      hide InOrder;
      hide IsList;
      hide OnTime;
      ghost var due := Items(InOrder(wheel.entries, wheel.ullStart, Min(t - wheel.ullStart + 1, |wheel.pItems|)));
      TakeDue(t);
      AppendDue(due);
    }

    /**
     One turn of the inner loop: pop an item; if it was taken as a timeout but is not due yet, put it
     back on the wheel, otherwise run its callback.
     */
    method Step() returns (x: Item, requeued: bool)
      requires Valid() && queue != []
      modifies this`queue, this`fired, active, wheel, wheel.pItems, wheel.held`pNext
      modifies queue`pPrev, queue`pNext, queue`pLink, {queue[0]}`bTimeout
      ensures Valid() && x == old(queue)[0] && queue == old(queue)[1..] && wheel.ullStart == old(wheel.ullStart)
      ensures wheel.held <= old(wheel.held) + {x}
      ensures forall i :: 0 <= i < |queue| ==> queue[i] != x
      ensures requeued <==> old(queue[0].bTimeout) && now < x.expire
      ensures requeued ==>
                && fired == old(fired) && !x.bTimeout
                && wheel.entries == old(wheel.entries) + [Entry(x, Min(x.expire, wheel.ullStart + |wheel.pItems| - 1))]
      ensures !requeued ==>
                && fired == old(fired) + [Firing(x, old(queue[0].bTimeout), x.expire, now)]
                && wheel.entries == old(wheel.entries) && x.pLink == null
    {
      hide RingTimed;
      hide IsList;
      hide OnTime;
      x := TakeFirst();
      requeued := false;
      OnTimeAppendIf(wheel.entries, now, x, Min(x.expire, wheel.ullStart + |wheel.pItems| - 1));
      if x.bTimeout && now < x.expire {
        var rc := wheel.AddTimeout(x, now);
        if rc == 0 {
          x.bTimeout := false;
          requeued := true;
          return;
        }
      }
      fired := fired + [Firing(x, x.bTimeout, x.expire, now)];
    }

    /**
     One whole pass at time t, when no callback adds to the lists: everything that was ready and
     everything the wheel gives up is fired once, in order, except timeouts that are not due yet, which
     go back on the wheel.
     */
    method Pass(t: nat)
      requires Valid() && now <= t
      requires CountsRight(t - wheel.ullStart + 1, |wheel.pItems|)
      modifies this`now, this`queue, this`fired, active, timeout, wheel, wheel.pItems
      modifies wheel.held`pNext, wheel.held`pPrev, wheel.held`pLink, wheel.held`bTimeout
      modifies queue`pNext, queue`pPrev, queue`pLink, queue`bTimeout
      ensures Valid() && now == t == wheel.ullStart && queue == []
      ensures var due := Items(InOrder(old(wheel.entries), old(wheel.ullStart), Min(t - old(wheel.ullStart) + 1, |wheel.pItems|)));
              var ts := old(Tickets(queue)) + Raised(due);
              && fired == old(fired) + Firings(ts, t)
              && wheel.entries == Later(old(wheel.entries), t) + Requeued(ts, t, t + |wheel.pItems| - 1)
              && Released(ts, |ts|, t)
      ensures forall i :: 0 <= i < |wheel.entries| ==> wheel.entries[i].item.expire > t
      ensures forall x :: x in wheel.held ==> x in old(wheel.held) || x in old(queue)
    {
      hide RingTimed;
      hide InOrder;
      hide IsList;
      hide Firings;
      hide Requeued;
      hide Tickets;
      hide Raised;
      hide Later;
      hide Released;
      hide OnTime;
      OnTimeLater(wheel.entries, now, t);
      ExpireTickets(t);
      ghost var ts := Tickets(queue);
      RequeuedLate(ts, t, t + |wheel.pItems| - 1);
      RunActive();
    }

    /** Expiry, as the active list sees it. */
    method ExpireTickets(t: nat)
      requires Valid() && now <= t
      requires CountsRight(t - wheel.ullStart + 1, |wheel.pItems|)
      modifies this`now, this`queue, active, timeout, wheel, wheel.pItems, queue`pNext
      modifies wheel.held`pNext, wheel.held`pPrev, wheel.held`pLink, wheel.held`bTimeout
      ensures Valid() && now == t == wheel.ullStart && fired == old(fired)
      ensures wheel.held <= old(wheel.held) && forall i :: 0 <= i < |queue| ==> queue[i] in old(queue) || queue[i] in old(wheel.held)
      ensures var due := Items(InOrder(old(wheel.entries), old(wheel.ullStart), Min(t - old(wheel.ullStart) + 1, |wheel.pItems|)));
              Tickets(queue) == old(Tickets(queue)) + Raised(due)
      ensures wheel.entries == Later(old(wheel.entries), t)
    {
      hide RingTimed;
      hide InOrder;
      hide IsList;
      hide Later;
      hide Tickets;
      hide Raised;
      hide OnTime;
      QueueApart();
      ghost var due := Items(InOrder(wheel.entries, wheel.ullStart, Min(t - wheel.ullStart + 1, |wheel.pItems|)));
      ghost var q0, a, b := queue, Tickets(queue), Raised(due);
      ExpireTimeouts(t);
      JoinedTickets(q0, due, a, b);
    }

    static lemma JoinedTickets(q: seq<Item>, due: seq<Item>, a: seq<Ticket>, b: seq<Ticket>)
      requires |a| == |q| && forall i :: 0 <= i < |q| ==> a[i] == Ticket(q[i], q[i].bTimeout, q[i].expire)
      requires |b| == |due| && forall i :: 0 <= i < |due| ==> b[i] == Ticket(due[i], due[i].bTimeout, due[i].expire)
      ensures Tickets(q + due) == a + b
    {
      hide Tickets;
    }

    /** The inner loop, to the end of the active list. */
    method RunActive()
      requires Valid()
      modifies this`queue, this`fired, active, wheel, wheel.pItems, wheel.held`pNext
      modifies queue`pNext, queue`pPrev, queue`pLink, queue`bTimeout
      ensures Valid() && queue == [] && wheel.ullStart == old(wheel.ullStart)
      ensures fired == old(fired) + Firings(old(Tickets(queue)), now)
      ensures wheel.entries == old(wheel.entries) + Requeued(old(Tickets(queue)), now, wheel.ullStart + |wheel.pItems| - 1)
      ensures Released(old(Tickets(queue)), |old(queue)|, now)
      ensures forall x :: x in wheel.held ==> x in old(wheel.held) || x in old(queue)
    {
      hide RingTimed;
      hide IsList;
      hide Tickets;
      hide Firings;
      hide Requeued;
      hide Midway;
      hide OnTime;
      ghost var ts, n := Tickets(queue), 0;
      ghost var q0, fired0, entries0 := queue, fired, wheel.entries;
      MidwayStarts();
      QueueDistinct();
      HeadIs();
      while active.head != null
        invariant active.head == null <==> queue == []
        invariant Valid() && wheel.ullStart == old(wheel.ullStart)
        invariant n <= |q0| && queue == q0[n..]
        invariant Midway(ts, n, fired0, entries0)
        invariant Released(ts, n, now)
        invariant forall x :: x in wheel.held ==> x in old(wheel.held) || x in q0
        decreases |queue|
      {
        Seqs.DropDrop(q0, n, 1);
        TurnOn(ts, n, fired0, entries0);
        n := n + 1;
        HeadIs();
      }
      MidwayEnds(ts, n, fired0, entries0);
    }

    lemma QueueDistinct()
      requires IsList(active, queue)
      ensures forall i, j :: 0 <= i < j < |queue| ==> queue[i] != queue[j]
    {
    }

    /** Where the last slot of the wheel is. */
    ghost function Edge(): int
      reads wheel
    {
      wheel.ullStart + |wheel.pItems| - 1
    }

    /** n of the tickets ts have been dealt with since fired0 and entries0. */
    ghost predicate Midway(ts: seq<Ticket>, n: nat, fired0: seq<Firing>, entries0: seq<Entry<Item>>)
      reads this`queue, this`fired, this`now, queue`bTimeout, wheel
    {
      && n <= |ts| && Tickets(queue) == ts[n..] && Edge() >= 0
      && fired + Firings(ts[n..], now) == fired0 + Firings(ts, now)
      && wheel.entries + Requeued(ts[n..], now, Edge()) == entries0 + Requeued(ts, now, Edge())
    }

    lemma MidwayStarts()
      requires |wheel.pItems| > 0
      ensures Midway(Tickets(queue), 0, fired, wheel.entries)
    {
      hide Tickets;
      var ts := Tickets(queue);
      assert ts[0..] == ts;
    }

    lemma MidwayEnds(ts: seq<Ticket>, n: nat, fired0: seq<Firing>, entries0: seq<Entry<Item>>)
      requires Midway(ts, n, fired0, entries0) && queue == []
      ensures fired == fired0 + Firings(ts, now) && wheel.entries == entries0 + Requeued(ts, now, Edge())
    {
      hide Firings;
      hide Requeued;
      NoTickets(now, Edge());
      Seqs.EmptyLeft(fired);
      Seqs.EmptyLeft(wheel.entries);
    }

    /** One turn of the inner loop, as a pass sees it. */
    method TurnOn(ghost ts: seq<Ticket>, ghost n: nat, ghost fired0: seq<Firing>, ghost entries0: seq<Entry<Item>>)
      requires Valid() && queue != [] && Midway(ts, n, fired0, entries0)
      modifies this`queue, this`fired, active, wheel, wheel.pItems, wheel.held`pNext
      modifies queue`pPrev, queue`pNext, queue`pLink, {queue[0]}`bTimeout
      ensures Valid() && queue == old(queue)[1..] && wheel.ullStart == old(wheel.ullStart)
      ensures wheel.held <= old(wheel.held) + {old(queue)[0]} && Midway(ts, n + 1, fired0, entries0)
      ensures ts[n].Early(now) || ts[n].item.pLink == null
    {
      hide OnTime;
      hide RingTimed;
      hide IsList;
      hide Tickets;
      hide Firings;
      hide Requeued;
      Turn(ts, n, fired, wheel.entries, Edge());
      Seqs.DropDrop(ts, n, 1);
      TicketStep();
    }

    static lemma NoTickets(now: nat, edge: int)
      requires edge >= 0
      ensures Firings([], now) == [] && Requeued([], now, edge) == []
    {
    }

    /** Step, as the active list sees it. */
    method TicketStep()
      requires Valid() && queue != []
      modifies this`queue, this`fired, active, wheel, wheel.pItems, wheel.held`pNext
      modifies queue`pPrev, queue`pNext, queue`pLink, {queue[0]}`bTimeout
      ensures Valid() && queue == old(queue)[1..] && wheel.ullStart == old(wheel.ullStart)
      ensures wheel.held <= old(wheel.held) + {old(queue)[0]} && Tickets(queue) == old(Tickets(queue))[1..]
      ensures var t := old(Tickets(queue))[0];
              if t.Early(now) then
                && fired == old(fired)
                && wheel.entries == old(wheel.entries) + [Entry(t.item, Min(t.expire, wheel.ullStart + |wheel.pItems| - 1))]
              else
                && fired == old(fired) + [Firing(t.item, t.timedOut, t.expire, now)]
                && wheel.entries == old(wheel.entries) && t.item.pLink == null
    {
      hide OnTime;
      hide RingTimed;
      hide IsList;
      hide Tickets;
      var x, requeued := Step();
    }

    lemma HeadIs()
      requires IsList(active, queue)
      ensures active.head == null <==> queue == []
    {
    }

    lemma Turn(ts: seq<Ticket>, n: nat, fired: seq<Firing>, entries: seq<Entry<Item>>, edge: int)
      requires n < |ts| && edge >= 0
      ensures var t := ts[n];
              if t.Early(now) then
                && fired + Firings(ts[n..], now) == fired + Firings(ts[n + 1..], now)
                && entries + Requeued(ts[n..], now, edge)
                   == (entries + [Entry(t.item, Min(t.expire, edge))]) + Requeued(ts[n + 1..], now, edge)
              else
                && fired + Firings(ts[n..], now)
                   == (fired + [Firing(t.item, t.timedOut, t.expire, now)]) + Firings(ts[n + 1..], now)
                && entries + Requeued(ts[n..], now, edge) == entries + Requeued(ts[n + 1..], now, edge)
    {
      Seqs.DropDrop(ts, n, 1);
      Seqs.EmptyLeft(Firings(ts[n + 1..], now));
      Seqs.EmptyLeft(Requeued(ts[n + 1..], now, edge));
    }

    method TakeFirst() returns (x: Item)
      requires Valid() && queue != []
      modifies this`queue, active, queue`pPrev, queue`pNext, queue`pLink
      ensures Valid() && x == old(queue)[0] && queue == old(queue)[1..] && x.pLink == null
      ensures x !in queue && forall i :: 0 <= i < |queue| ==> queue[i] !in wheel.held
    {
      hide RingTimed;
      hide OnTime;
      QueueApart();
      x := active.head;
      PopHead(active, queue);
      queue := queue[1..];
    }
  }
}
