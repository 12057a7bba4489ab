/** muduo's TimerQueue: two indexes over the same timers, cancellation during callbacks, one timer descriptor. */
module TimerQueues {
  import opened OrderedTimers
  import opened Bytes

  const MICROS_PER_SECOND := 1_000_000
  const FLOOR := 100

  /** Timer; the interval is what addTime adds, in microseconds. */
  datatype Timer = Timer(expiration: int, repeats: bool, interval: nat, sequence: nat)

  /** TimerId and ActiveTimer: an address is not enough, because freed memory is reused. */
  datatype Id = Id(addr: nat, sequence: nat)

  // ---------- howMuchTimeFromNow ----------

  datatype Timespec = Timespec(sec: int, nsec: int)

  function HowMuchTimeFromNow(when: int, now: int): (ts: Timespec)
    ensures ts.sec * 1_000_000_000 + ts.nsec == 1000 * Max(when - now, FLOOR)
    ensures 0 <= ts.sec && 0 <= ts.nsec < 1_000_000_000
    ensures ts != Timespec(0, 0) // which timerfd_settime would take as "disarm"
  {
    var us := if when - now < FLOOR then FLOOR else when - now;
    Timespec(us / MICROS_PER_SECOND, us % MICROS_PER_SECOND * 1000)
  }

  // ---------- The two indexes ----------

  type Heap = map<nat, Timer>

  function IdOf(heap: Heap, addr: nat): Id
    requires addr in heap
  {
    Id(addr, heap[addr].sequence)
  }

  function EntryOf(heap: Heap, addr: nat): Entry
    requires addr in heap
  {
    Entry(heap[addr].expiration, addr)
  }

  /** The two sets describe the same timers, each keyed by its current expiration. */
  ghost predicate Agree(timers: set<Entry>, active: set<Id>, heap: Heap) {
    && (forall id :: id in active ==> id.addr in heap && IdOf(heap, id.addr) == id && EntryOf(heap, id.addr) in timers)
    && (forall e :: e in timers ==> e.addr in heap && EntryOf(heap, e.addr) == e && IdOf(heap, e.addr) in active)
  }

  /** So they have the same size, as the library keeps asserting. */
  lemma {:induction false} AgreeSizes(timers: set<Entry>, active: set<Id>, heap: Heap)
    requires Agree(timers, active, heap)
    ensures |timers| == |active|
    decreases timers
  {
    if timers == {} {
      assert active == {};
    } else {
      var e :| e in timers;
      var id := IdOf(heap, e.addr);
      AgreeErase(timers, active, heap, e.addr);
      AgreeSizes(timers - {e}, active - {id}, heap);
    }
  }

  lemma AgreeErase(timers: set<Entry>, active: set<Id>, heap: Heap, a: nat)
    requires Agree(timers, active, heap) && a in heap
    ensures Agree(timers - {EntryOf(heap, a)}, active - {IdOf(heap, a)}, heap)
  {
  }

  lemma AgreeInsert(timers: set<Entry>, active: set<Id>, heap: Heap, a: nat)
    requires Agree(timers, active, heap) && a in heap
    ensures Agree(timers + {EntryOf(heap, a)}, active + {IdOf(heap, a)}, heap)
  {
  }

  /** What happens to a timer that is not indexed does not matter. */
  lemma AgreeHeap(timers: set<Entry>, active: set<Id>, heap: Heap, heap': Heap, a: nat)
    requires Agree(timers, active, heap)
    requires a in heap ==> IdOf(heap, a) !in active
    requires forall b :: b != a ==> (b in heap <==> b in heap') && (b in heap ==> heap[b] == heap'[b])
    ensures Agree(timers, active, heap')
  {
  }

  /** The addresses of the active timers. */
  ghost function Addrs(active: set<Id>): set<nat> {
    set id | id in active :: id.addr
  }

  ghost function BatchAddrs(expired: seq<Entry>): set<nat> {
    set e | e in expired :: e.addr
  }

  predicate DistinctAddrs(es: seq<Entry>) {
    forall i, j :: 0 <= i < j < |es| ==> es[i].addr != es[j].addr
  }

  /** Every timer in existence is exactly one of: waiting to be added, active, in the batch being run. */
  ghost predicate Partition(heap: Heap, waiting: set<nat>, active: set<nat>, batch: set<nat>) {
    heap.Keys == waiting + active + batch && waiting !! active && waiting !! batch && active !! batch
  }

  lemma PartitionMoves(heap: Heap, w: set<nat>, act: set<nat>, batch: set<nat>, a: nat)
    requires Partition(heap, w, act, batch)
    ensures a in w ==> a in heap && a !in act && Partition(heap, w - {a}, act + {a}, batch)
    ensures a in act ==> a in heap && Partition(heap - {a}, w, act - {a}, batch)
    ensures a in act ==> Partition(heap, w, act - {a}, batch + {a})
    ensures a in batch ==> a in heap && a !in act && a !in w
    ensures a in batch ==> Partition(heap, w, act + {a}, batch - {a}) && Partition(heap - {a}, w, act, batch - {a})
  {
  }

  lemma PartitionUpdate(heap: Heap, w: set<nat>, act: set<nat>, batch: set<nat>, a: nat, t: Timer)
    requires Partition(heap, w, act, batch)
    ensures Partition(heap[a := t], if a in heap then w else w + {a}, act, batch)
  {
  }

  lemma BatchMoves(es: seq<Entry>, k: nat)
    requires k < |es| && DistinctAddrs(es)
    ensures BatchAddrs(es[..k + 1]) == BatchAddrs(es[..k]) + {es[k].addr}
    ensures BatchAddrs(es[k + 1..]) == BatchAddrs(es[k..]) - {es[k].addr}
    ensures es[k].addr in BatchAddrs(es[k..]) && es[k].addr !in BatchAddrs(es[..k])
  {
    assert es[..k + 1] == es[..k] + [es[k]];
    assert es[k..] == [es[k]] + es[k + 1..];
    forall b | b in BatchAddrs(es[k..]) - {es[k].addr} ensures b in BatchAddrs(es[k + 1..]) {
      var e :| e in es[k..] && e.addr == b;
      assert e in es[k + 1..];
    }
  }

  /** Entries keyed by the heap have distinct addresses. */
  lemma KeyedDistinct(timers: set<Entry>, active: set<Id>, heap: Heap, es: seq<Entry>)
    requires Agree(timers, active, heap) && Ascending(es) && forall e :: e in es ==> e in timers
    ensures DistinctAddrs(es)
  {
    forall i, j | 0 <= i < j < |es| ensures es[i].addr != es[j].addr {
      assert es[i] in timers && es[j] in timers;
    }
  }

  /** The timer of this very id exists. */
  predicate Live(heap: Heap, id: Id) {
    id.addr in heap && IdOf(heap, id.addr) == id
  }

  /** The id was handed out: sequence number n is the n-th one. */
  predicate Issued(issued: seq<Id>, id: Id) {
    1 <= id.sequence <= |issued| && issued[id.sequence - 1] == id
  }

  /** Sequence numbers identify timers for ever: each id handed out is live or freed, never both, and there are no others. */
  ghost predicate Numbered(heap: Heap, issued: seq<Id>, freed: set<Id>) {
    && (forall i :: 0 <= i < |issued| ==> issued[i].sequence == i + 1)
    && (forall i :: 0 <= i < |issued| ==> (Live(heap, issued[i]) <==> issued[i] !in freed))
    && (forall a :: a in heap ==> Issued(issued, IdOf(heap, a)))
    && (forall id :: id in freed ==> Issued(issued, id))
  }

  lemma NumberedNew(heap: Heap, issued: seq<Id>, freed: set<Id>, a: nat, t: Timer)
    requires Numbered(heap, issued, freed) && a !in heap && t.sequence == |issued| + 1
    ensures Numbered(heap[a := t], issued + [Id(a, t.sequence)], freed) && Id(a, t.sequence) !in freed
  {
    var issued', heap' := issued + [Id(a, t.sequence)], heap[a := t];
    forall id | Issued(issued, id) ensures Issued(issued', id) {
    }
    forall b | b in heap' ensures Issued(issued', IdOf(heap', b)) {
      assert b != a ==> Issued(issued, IdOf(heap, b));
    }
    assert forall i :: 0 <= i < |issued| ==> issued'[i] == issued[i] && issued[i].sequence != t.sequence;
  }

  lemma NumberedFree(heap: Heap, issued: seq<Id>, freed: set<Id>, a: nat)
    requires Numbered(heap, issued, freed) && a in heap
    ensures Numbered(heap - {a}, issued, freed + {IdOf(heap, a)}) && IdOf(heap, a) !in freed
  {
    var id := IdOf(heap, a);
    assert Issued(issued, id) && Live(heap, id);
    forall i | 0 <= i < |issued| ensures Live(heap - {a}, issued[i]) <==> issued[i] !in freed + {id} {
    }
    assert forall b :: b in heap - {a} ==> b in heap && IdOf(heap - {a}, b) == IdOf(heap, b);
  }

  lemma NumberedRestart(heap: Heap, issued: seq<Id>, freed: set<Id>, a: nat, t: Timer)
    requires Numbered(heap, issued, freed) && a in heap && t.sequence == heap[a].sequence
    ensures Numbered(heap[a := t], issued, freed)
  {
    forall b | b in heap[a := t] ensures b in heap && IdOf(heap[a := t], b) == IdOf(heap, b) {
    }
    forall i | 0 <= i < |issued| ensures Live(heap[a := t], issued[i]) <==> Live(heap, issued[i]) {
    }
  }

  lemma AddrsInsert(active: set<Id>, id: Id)
    ensures Addrs(active + {id}) == Addrs(active) + {id.addr}
  {
  }

  lemma AddrsErase(timers: set<Entry>, active: set<Id>, heap: Heap, a: nat)
    requires Agree(timers, active, heap) && a in heap
    ensures Addrs(active - {IdOf(heap, a)}) == Addrs(active) - {a}
    ensures a in Addrs(active) <==> IdOf(heap, a) in active
  {
    var rest := active - {IdOf(heap, a)};
    forall b | b in Addrs(active) - {a} ensures b in Addrs(rest) {
      var id :| id in active && id.addr == b;
      assert id in rest;
    }
    forall b | b in Addrs(rest) ensures b in Addrs(active) && b != a {
      var id :| id in rest && id.addr == b;
      assert id in active && IdOf(heap, id.addr) == id;
    }
  }

  /** The ids of the timers at these entries. */
  ghost function Ids(heap: Heap, es: seq<Entry>): set<Id> {
    set e | e in es && e.addr in heap :: IdOf(heap, e.addr)
  }

  /** A timer of the batch goes on if it repeats and was not cancelled since the batch was taken. */
  predicate GoesOn(heap: Heap, e: Entry, canceling: set<Id>) {
    e.addr in heap && heap[e.addr].repeats && IdOf(heap, e.addr) !in canceling
  }

  ghost function Surviving(heap: Heap, es: seq<Entry>, canceling: set<Id>): set<Id> {
    set e | e in es && GoesOn(heap, e, canceling) :: IdOf(heap, e.addr)
  }

  ghost function Ending(heap: Heap, es: seq<Entry>, canceling: set<Id>): set<Id> {
    set e | e in es && e.addr in heap && !GoesOn(heap, e, canceling) :: IdOf(heap, e.addr)
  }

  /** The timer at a runs again, one interval after now. */
  predicate Restarted(heap: Heap, heap': Heap, a: nat, now: int) {
    a in heap && a in heap' && heap'[a] == heap[a].(expiration := now + heap[a].interval)
  }

  /** Timers outside the batch are left alone. */
  ghost predicate OthersKept(heap: Heap, heap': Heap, es: seq<Entry>) {
    forall a :: (forall i :: 0 <= i < |es| ==> es[i].addr != a) ==>
                  (a in heap <==> a in heap') && (a in heap ==> heap[a] == heap'[a])
  }

  lemma AllKept(heap: Heap, es: seq<Entry>)
    ensures OthersKept(heap, heap, es)
  {
  }

  lemma OthersKeptStep(heap: Heap, heap': Heap, heap'': Heap, es: seq<Entry>, k: nat)
    requires k < |es| && OthersKept(heap, heap', es)
    requires forall a :: a != es[k].addr ==> (a in heap' <==> a in heap'') && (a in heap' ==> heap'[a] == heap''[a])
    ensures OthersKept(heap, heap'', es)
  {
  }

  lemma BatchStep(heap: Heap, es: seq<Entry>, canceling: set<Id>, k: nat)
    requires k < |es| && es[k].addr in heap
    ensures var id := IdOf(heap, es[k].addr);
            if GoesOn(heap, es[k], canceling) then
              && Surviving(heap, es[..k + 1], canceling) == Surviving(heap, es[..k], canceling) + {id}
              && Ending(heap, es[..k + 1], canceling) == Ending(heap, es[..k], canceling)
            else
              && Surviving(heap, es[..k + 1], canceling) == Surviving(heap, es[..k], canceling)
              && Ending(heap, es[..k + 1], canceling) == Ending(heap, es[..k], canceling) + {id}
  {
    assert es[..k + 1] == es[..k] + [es[k]];
  }

  lemma BatchNone(heap: Heap, canceling: set<Id>)
    ensures Surviving(heap, [], canceling) == {} && Ending(heap, [], canceling) == {}
  {
  }

  // ---------- The queue ----------

  class TimerQueue {
    /** The timers in existence, by address. */
    var heap: Heap
    var created: nat
    var timers: set<Entry>
    var active: set<Id>
    var calling: bool
    var canceling: set<Id>
    /** The expired timers whose callbacks are being run. */
    var expired: seq<Entry>
    /** When the timer descriptor becomes readable, if it is armed. */
    var deadline: Option<int>
    ghost var armedAt: int
    /** Created and not yet added, by address: their functors are queued. */
    var waiting: set<nat>
    ghost var freed: set<Id>
    /** All ids ever handed out, in order. */
    ghost var issued: seq<Id>

    /** The descriptor wakes the loop no later than the earliest timer needs, up to the floor. */
    ghost predicate Armed()
      reads this`timers, this`deadline, this`armedAt
    {
      timers != {} ==> deadline.Some? && deadline.value <= Max(Earliest(timers).when, armedAt + FLOOR)
    }

    ghost predicate Indexed()
      reads this`heap, this`issued, this`timers, this`active, this`expired, this`waiting, this`freed
    {
      && Agree(timers, active, heap)
      && Partition(heap, waiting, Addrs(active), BatchAddrs(expired)) && DistinctAddrs(expired)
      && Numbered(heap, issued, freed)
    }

    ghost predicate Valid()
      reads this
    {
      && Indexed() && |issued| == created
      && (!calling ==> expired == [] && Armed())
      && (calling && timers != {} && Earliest(timers).when <= 0 ==> Armed())
    }

    constructor ()
      ensures Valid() && heap == map[] && issued == [] && !calling
    {
      heap, created, timers, active, calling, canceling, expired := map[], 0, {}, {}, false, {}, [];
      deadline, armedAt, waiting, freed, issued := None, 0, {}, {}, [];
    }

    /** new Timer, in any thread: memory may be reused, the sequence number never. */
    method NewTimer(when: int, repeats: bool, interval: nat) returns (id: Id)
      requires Valid()
      modifies this`heap, this`created, this`waiting, this`issued
      ensures Valid() && id.addr !in old(heap) && id !in freed && issued == old(issued) + [id]
      ensures heap == old(heap)[id.addr := Timer(when, repeats, interval, id.sequence)] && waiting == old(waiting) + {id.addr}
    {
      hide Numbered;
      hide Agree;
      hide Armed;
      var a := FreshAddress();
      var t := Timer(when, repeats, interval, created + 1);
      NumberedNew(heap, issued, freed, a, t);
      AgreeHeap(timers, active, heap, heap[a := t], a);
      created := created + 1;
      heap := heap[a := t];
      waiting := waiting + {a};
      id := Id(a, created);
      issued := issued + [id];
    }

    /** resetTimerfd at a clock reading. */
    method ResetTimerfd(expiration: int, clock: int)
      modifies this`deadline, this`armedAt
      ensures deadline == Some(Max(expiration, clock + FLOOR)) && armedAt == clock
    {
      var ts := HowMuchTimeFromNow(expiration, clock);
      deadline := Some(clock + (ts.sec * 1_000_000_000 + ts.nsec) / 1000);
      armedAt := clock;
    }

    /** insert: both sets gain the timer; says whether the earliest expiration has changed. */
    method Insert(a: nat) returns (earliestChanged: bool)
      requires Agree(timers, active, heap) && a in heap && IdOf(heap, a) !in active
      modifies this`timers, this`active
      ensures EntryOf(heap, a) !in old(timers)
      ensures timers == old(timers) + {EntryOf(heap, a)} && active == old(active) + {IdOf(heap, a)}
      ensures Agree(timers, active, heap)
      ensures earliestChanged <==> old(timers) == {} || EntryOf(heap, a).when < Earliest(old(timers)).when
    {
      AgreeInsert(timers, active, heap, a);
      var when := heap[a].expiration;
      earliestChanged := timers == {} || when < Earliest(timers).when;
      timers := timers + {Entry(when, a)};
      active := active + {Id(a, heap[a].sequence)};
    }

    /** addTimerInLoop, as far as the indexes go. */
    method AddIndexed(a: nat) returns (earliestChanged: bool)
      requires Indexed() && a in waiting
      modifies this`timers, this`active, this`waiting
      ensures Indexed() && a in heap && waiting == old(waiting) - {a}
      ensures timers == old(timers) + {EntryOf(heap, a)} && active == old(active) + {IdOf(heap, a)}
      ensures earliestChanged <==> old(timers) == {} || EntryOf(heap, a).when < Earliest(old(timers)).when
    {
      hide Numbered;
      hide Agree;
      hide Partition;
      hide Addrs;
      PartitionMoves(heap, waiting, Addrs(active), BatchAddrs(expired), a);
      NotActive(a);
      AddrsInsert(active, IdOf(heap, a));
      earliestChanged := Insert(a);
      waiting := waiting - {a};
    }

    /** addTimerInLoop. */
    method AddTimerInLoop(a: nat, clock: int)
      requires Valid() && a in waiting
      modifies this`timers, this`active, this`waiting, this`deadline, this`armedAt
      ensures Valid() && a in heap && waiting == old(waiting) - {a}
      ensures timers == old(timers) + {EntryOf(heap, a)} && active == old(active) + {IdOf(heap, a)}
      ensures deadline == if old(timers) == {} || EntryOf(heap, a).when < Earliest(old(timers)).when
                          then Some(Max(EntryOf(heap, a).when, clock + FLOOR)) else old(deadline)
    {
      hide Indexed;
      ghost var timers0 := timers;
      var earliestChanged := AddIndexed(a);
      EarliestInsert(timers0, EntryOf(heap, a));
      if earliestChanged {
        ResetTimerfd(heap[a].expiration, clock);
      }
    }

    lemma NotActive(a: nat)
      requires a in heap && a !in Addrs(active)
      ensures IdOf(heap, a) !in active
    {
    }

    /** delete of a timer that is active. */
    method EraseActive(id: Id)
      requires Indexed() && id in active
      modifies this`timers, this`active, this`heap, this`freed
      ensures Indexed() && id !in old(freed) && id.addr in old(heap)
      ensures freed == old(freed) + {id} && active == old(active) - {id} && heap == old(heap) - {id.addr}
      ensures timers == old(timers) - {EntryOf(old(heap), id.addr)}
    {
      hide Numbered;
      hide Partition;
      hide Addrs;
      assert id.addr in heap && IdOf(heap, id.addr) == id;
      AddrsErase(timers, active, heap, id.addr);
      hide Agree;
      PartitionMoves(heap, waiting, Addrs(active), BatchAddrs(expired), id.addr);
      var e := Entry(heap[id.addr].expiration, id.addr);
      AgreeErase(timers, active, heap, id.addr);
      AgreeHeap(timers - {e}, active - {id}, heap, heap - {id.addr}, id.addr);
      NumberedFree(heap, issued, freed, id.addr);
      timers := timers - {e};
      heap := heap - {id.addr};
      freed := freed + {id};
      active := active - {id};
    }

    /** cancelInLoop: only the timer of that very id goes; a stale id is at most noted. */
    method CancelInLoop(id: Id)
      requires Valid()
      modifies this`timers, this`active, this`heap, this`freed, this`canceling
      ensures Valid()
      ensures id in old(active) ==>
                && id !in old(freed) && freed == old(freed) + {id} && active == old(active) - {id}
                && heap == old(heap) - {id.addr} && canceling == old(canceling)
      ensures id !in old(active) ==>
                && heap == old(heap) && timers == old(timers) && active == old(active) && freed == old(freed)
                && canceling == if calling then old(canceling) + {id} else old(canceling)
    {
      hide Indexed;
      ghost var timers0 := timers;
      if id in active {
        EraseActive(id);
        if timers != {} {
          EarliestErase(timers0, EntryOf(old(heap), id.addr));
        }
      } else if calling {
        canceling := canceling + {id};
      }
    }

    /** getExpired, for one expired timer: out of the active set, into the batch. */
    method ExpireOne(k: nat)
      requires k < |expired| && DistinctAddrs(expired) && Numbered(heap, issued, freed)
      requires expired[k] in timers && Agree(timers, active, heap)
      requires Partition(heap, waiting, Addrs(active), BatchAddrs(expired[..k]))
      modifies this`timers, this`active
      ensures timers == old(timers) - {expired[k]} && expired[k].addr in heap && active == old(active) - {IdOf(heap, expired[k].addr)}
      ensures IdOf(heap, expired[k].addr) in old(active)
      ensures Agree(timers, active, heap)
      ensures Partition(heap, waiting, Addrs(active), BatchAddrs(expired[..k + 1]))
    {
      hide Partition;
      hide Addrs;
      hide BatchAddrs;
      var e := expired[k];
      assert e.addr in heap && EntryOf(heap, e.addr) == e && IdOf(heap, e.addr) in active;
      AddrsErase(timers, active, heap, e.addr);
      AgreeErase(timers, active, heap, e.addr);
      hide Agree;
      PartitionMoves(heap, waiting, Addrs(active), BatchAddrs(expired[..k]), e.addr);
      BatchMoves(expired, k);
      timers := timers - {e};
      active := active - {Id(e.addr, heap[e.addr].sequence)};
    }

    /** getExpired: all timers not later than now, in order, leave both sets. */
    method GetExpired(now: int)
      requires Indexed() && expired == []
      modifies this`timers, this`active, this`expired
      ensures Indexed() && expired == Listed(Due(old(timers), now)) && timers == old(timers) - Due(old(timers), now)
      ensures active == old(active) - Ids(heap, expired)
    {
      hide Partition;
      hide Agree;
      hide Numbered;
      hide Addrs;
      ListedIsSorted(Due(timers, now));
      KeyedDistinct(timers, active, heap, Listed(Due(timers, now)));
      expired := Listed(Due(timers, now));
      var k := 0;
      assert expired[..0] == [];
      while k < |expired|
        invariant 0 <= k <= |expired| && expired == Listed(Due(old(timers), now)) && DistinctAddrs(expired)
        invariant Agree(timers, active, heap) && Numbered(heap, issued, freed)
        invariant Partition(heap, waiting, Addrs(active), BatchAddrs(expired[..k]))
        invariant timers == old(timers) - set e | e in expired[..k]
        invariant active == old(active) - Ids(heap, expired[..k])
      {
        assert expired[k] !in expired[..k];
        assert expired[k] in Listed(Due(old(timers), now));
        ExpireOne(k);
        assert expired[..k + 1] == expired[..k] + [expired[k]];
        k := k + 1;
      }
      assert expired[..k] == expired;
    }

    /** handleRead up to the callbacks: the descriptor is read, the batch is taken. */
    method BeginHandleRead(now: int)
      requires Valid() && !calling && now > 0
      modifies this`timers, this`active, this`expired, this`calling, this`canceling, this`deadline
      ensures Valid() && calling && canceling == {}
      ensures expired == Listed(Due(old(timers), now)) && timers == old(timers) - Due(old(timers), now)
      ensures active == old(active) - Ids(heap, expired)
    {
      hide Indexed;
      deadline := None;
      GetExpired(now);
      calling := true;
      canceling := {};
    }

    /** The batch from k on is still to be dealt with. */
    ghost predicate Resetting(k: nat)
      reads this`heap, this`issued, this`timers, this`active, this`expired, this`waiting, this`freed
    {
      && k <= |expired| && DistinctAddrs(expired)
      && Agree(timers, active, heap)
      && Partition(heap, waiting, Addrs(active), BatchAddrs(expired[k..]))
      && Numbered(heap, issued, freed)
    }

    /** reset, for a timer that repeats and was not cancelled: restart and insert. */
    method Restart(k: nat, now: int)
      requires Resetting(k) && k < |expired| && expired[k].addr in heap
      modifies this`heap, this`timers, this`active
      ensures var a := expired[k].addr;
              && Resetting(k + 1)
              && heap == old(heap)[a := old(heap)[a].(expiration := now + old(heap)[a].interval)]
              && timers == old(timers) + {EntryOf(heap, a)} && active == old(active) + {IdOf(heap, a)}
    {
      hide Agree;
      hide Partition;
      hide Numbered;
      hide Addrs;
      hide BatchAddrs;
      var a := expired[k].addr;
      var t := heap[a].(expiration := now + heap[a].interval);
      BatchMoves(expired, k);
      PartitionMoves(heap, waiting, Addrs(active), BatchAddrs(expired[k..]), a);
      PartitionUpdate(heap, waiting, Addrs(active) + {a}, BatchAddrs(expired[k + 1..]), a, t);
      NotActive(a);
      AgreeHeap(timers, active, heap, heap[a := t], a);
      NumberedRestart(heap, issued, freed, a, t);
      heap := heap[a := t];
      AddrsInsert(active, IdOf(heap, a));
      var changed := Insert(a);
    }

    /** reset, for any other timer of the batch: delete. */
    method Discard(k: nat)
      requires Resetting(k) && k < |expired| && expired[k].addr in heap
      modifies this`heap, this`freed
      ensures var a := expired[k].addr;
              && Resetting(k + 1) && heap == old(heap) - {a}
              && IdOf(old(heap), a) !in old(freed) && freed == old(freed) + {IdOf(old(heap), a)}
    {
      hide Agree;
      hide Partition;
      hide Numbered;
      hide Addrs;
      hide BatchAddrs;
      var a := expired[k].addr;
      BatchMoves(expired, k);
      PartitionMoves(heap, waiting, Addrs(active), BatchAddrs(expired[k..]), a);
      NotActive(a);
      AgreeHeap(timers, active, heap, heap - {a}, a);
      NumberedFree(heap, issued, freed, a);
      ghost var id := IdOf(heap, a);
      heap := heap - {a};
      freed := freed + {id};
    }

    /** reset, one timer of the batch. */
    method ResetOne(k: nat, now: int)
      requires Resetting(k) && k < |expired| && expired[k].addr in heap && now > 0
      requires timers != {} && Earliest(timers).when <= 0 ==> Armed()
      modifies this`heap, this`timers, this`active, this`freed
      ensures Resetting(k + 1) && (timers != {} && Earliest(timers).when <= 0 ==> Armed())
      ensures var a := expired[k].addr;
              var id := IdOf(old(heap), a);
              if GoesOn(old(heap), expired[k], canceling) then
                && heap == old(heap)[a := old(heap)[a].(expiration := now + old(heap)[a].interval)]
                && active == old(active) + {id} && freed == old(freed)
              else
                && heap == old(heap) - {a} && active == old(active) && freed == old(freed) + {id} && id !in old(freed)
    {
      hide Resetting;
      var a := expired[k].addr;
      ghost var timers0 := timers;
      if heap[a].repeats && Id(a, heap[a].sequence) !in canceling {
        Restart(k, now);
        EarliestInsert(timers0, EntryOf(heap, a));
      } else {
        Discard(k);
      }
    }

    /** reset's loop over the batch. */
    method ResetAll(now: int)
      requires Resetting(0) && now > 0 && (timers != {} && Earliest(timers).when <= 0 ==> Armed())
      modifies this`heap, this`timers, this`active, this`freed
      ensures Resetting(|expired|) && (timers != {} && Earliest(timers).when <= 0 ==> Armed())
      ensures active == old(active) + Surviving(old(heap), expired, canceling)
      ensures freed == old(freed) + Ending(old(heap), expired, canceling)
      ensures forall i :: 0 <= i < |expired| && GoesOn(old(heap), expired[i], canceling) ==>
                Restarted(old(heap), heap, expired[i].addr, now)
      ensures OthersKept(old(heap), heap, expired)
    {
      hide OthersKept;
      hide Resetting;
      hide Armed;
      hide Surviving;
      hide Ending;
      ghost var heap0 := heap;
      InBatch();
      BatchNone(heap, canceling);
      var k := 0;
      assert expired[..0] == [];
      AllKept(heap, expired);
      while k < |expired|
        invariant 0 <= k <= |expired| && Resetting(k) && (timers != {} && Earliest(timers).when <= 0 ==> Armed())
        invariant active == old(active) + Surviving(heap0, expired[..k], canceling)
        invariant freed == old(freed) + Ending(heap0, expired[..k], canceling)
        invariant forall i :: k <= i < |expired| ==> expired[i].addr in heap && expired[i].addr in heap0 && heap[expired[i].addr] == heap0[expired[i].addr]
        invariant forall i :: 0 <= i < k && GoesOn(heap0, expired[i], canceling) ==> Restarted(heap0, heap, expired[i].addr, now)
        invariant OthersKept(heap0, heap, expired)
      {
        ghost var heap1 := heap;
        BatchStep(heap0, expired, canceling, k);
        DistinctBatch(k);
        ResetOne(k, now);
        OthersKeptStep(heap0, heap1, heap, expired, k);
        k := k + 1;
      }
      assert expired[..k] == expired;
    }

    lemma InBatch()
      requires Resetting(0)
      ensures forall i :: 0 <= i < |expired| ==> expired[i].addr in heap
    {
      forall i | 0 <= i < |expired| ensures expired[i].addr in heap {
        assert expired[0..][i] == expired[i];
        assert expired[i].addr in BatchAddrs(expired[0..]);
      }
    }

    lemma DistinctBatch(k: nat)
      requires Resetting(k)
      ensures forall i, j :: 0 <= i < j < |expired| ==> expired[i].addr != expired[j].addr
    {
    }

    /** handleRead after the callbacks: every timer of the batch starts again or is freed, and the descriptor is set. */
    method EndHandleRead(now: int, clock: int)
      requires Valid() && calling && now > 0
      modifies this
      ensures Valid() && !calling && waiting == old(waiting) && issued == old(issued)
      ensures active == old(active) + Surviving(old(heap), old(expired), old(canceling))
      ensures freed == old(freed) + Ending(old(heap), old(expired), old(canceling))
      ensures forall i :: 0 <= i < |old(expired)| && GoesOn(old(heap), old(expired)[i], old(canceling)) ==>
                Restarted(old(heap), heap, old(expired)[i].addr, now)
      ensures OthersKept(old(heap), heap, old(expired))
    {
      hide OthersKept;
      hide Numbered;
      hide Partition;
      hide Earliest;
      calling := false;
      assert expired[0..] == expired;
      ResetAll(now);
      assert expired[|expired|..] == [];
      expired := [];
      if timers != {} {
        var nextExpire := heap[Earliest(timers).addr].expiration;
        if nextExpire > 0 {
          ResetTimerfd(nextExpire, clock);
        }
      }
    }

    method FreshAddress() returns (a: nat)
      ensures a !in heap
    {
      ghost var n := Bound(heap.Keys);
      a :| a !in heap;
    }

    // ---------- A whole handleRead ----------

    /** Ids handed out stay so, and freed ones stay freed. */
    twostate predicate Onward()
      reads this`issued, this`freed
    {
      old(issued) <= issued && old(freed) <= freed
    }

    /** The timers of the batch are where they were. */
    twostate predicate BatchKept()
      reads this`heap, this`expired
    {
      && expired == old(expired)
      && forall i :: 0 <= i < |expired| ==>
           && expired[i].addr in old(heap) && expired[i].addr in heap
           && heap[expired[i].addr] == old(heap)[expired[i].addr]
    }

    /** A timer of the batch is neither active nor waiting. */
    lemma BatchApart(i: nat)
      requires Indexed() && i < |expired|
      ensures expired[i].addr in heap && IdOf(heap, expired[i].addr) !in active && expired[i].addr !in waiting
      ensures expired[i].addr !in Addrs(active)
    {
      hide Numbered;
      hide Agree;
      assert expired[i].addr in BatchAddrs(expired);
      assert expired[i].addr in heap.Keys;
      NotActive(expired[i].addr);
    }

    lemma ActiveLive()
      requires Indexed()
      ensures forall id :: id in active ==> id.addr in heap && IdOf(heap, id.addr) == id
    {
      hide Numbered;
      hide Partition;
    }

    /** One thing a callback, or another thread, may do while the batch runs; an address that is not waiting is nothing to add. */
    method RunAction(act: Action)
      requires Valid() && calling
      modifies this`heap, this`created, this`waiting, this`issued
      modifies this`timers, this`active, this`freed, this`canceling, this`deadline, this`armedAt
      ensures Valid() && Onward() && BatchKept()
      ensures forall i :: 0 <= i < |expired| ==>
                var id := IdOf(heap, expired[i].addr);
                id in canceling <==> id in old(canceling) || act == Cancel(id)
      ensures forall id :: id in old(active) ==> FateOfActive(old(heap), id, act == Cancel(id), heap, active, freed)
    {
      hide Indexed;
      ActiveLive();
      forall i | 0 <= i < |expired|
        ensures expired[i].addr in heap && IdOf(heap, expired[i].addr) !in active && expired[i].addr !in Addrs(active)
      {
        BatchApart(i);
      }
      match act {
        case Create(when, repeats, interval) =>
          var id := NewTimer(when, repeats, interval);
        case Add(addr, clock) =>
          if addr in waiting {
            AddTimerInLoop(addr, clock);
          }
        case Cancel(id) =>
          CancelInLoop(id);
      }
    }

    method RunActions(acts: seq<Action>)
      requires Valid() && calling
      modifies this`heap, this`created, this`waiting, this`issued
      modifies this`timers, this`active, this`freed, this`canceling, this`deadline, this`armedAt
      ensures Valid() && Onward() && BatchKept()
      ensures forall i :: 0 <= i < |expired| ==>
                var id := IdOf(heap, expired[i].addr);
                id in canceling <==> id in old(canceling) || Cancel(id) in acts
      ensures forall id :: id in old(active) ==> FateOfActive(old(heap), id, Cancel(id) in acts, heap, active, freed)
    {
      hide Indexed;
      ActiveLive();
      forall i | 0 <= i < |expired| ensures expired[i].addr in heap {
        BatchApart(i);
      }
      var k := 0;
      while k < |acts|
        invariant 0 <= k <= |acts| && Valid() && Onward() && BatchKept()
        invariant forall i :: 0 <= i < |expired| ==>
                    var id := IdOf(heap, expired[i].addr);
                    id in canceling <==> id in old(canceling) || Cancel(id) in acts[..k]
        invariant forall id :: id in old(active) ==> FateOfActive(old(heap), id, Cancel(id) in acts[..k], heap, active, freed)
      {
        assert acts[..k + 1] == acts[..k] + [acts[k]];
        RunAction(acts[k]);
        k := k + 1;
      }
      assert acts[..k] == acts;
    }

    /**
     handleRead, whatever its callbacks and other threads do meanwhile: of the timers that were due, exactly
     those that repeat and were not cancelled are active again, one interval on; all others are freed.
     */
    method HandleRead(now: int, acts: seq<Action>, clock: int)
      requires Valid() && !calling && now > 0
      modifies this
      ensures Valid() && !calling && Onward()
      ensures forall a :: a in old(heap) && EntryOf(old(heap), a) in Due(old(timers), now) ==>
                FateOf(old(heap), a, acts, now, heap, active, freed)
      ensures forall id :: id in old(active) && EntryOf(old(heap), id.addr) !in Due(old(timers), now) ==>
                FateOfActive(old(heap), id, Cancel(id) in acts, heap, active, freed)
    {
      hide Indexed;
      hide Listed;
      hide Surviving;
      hide Ending;
      hide GoesOn;
      hide FateOf;
      hide FateOfActive;
      hide OthersKept;
      hide Ids;
      ActiveLive();
      ListedIsSorted(Due(timers, now));
      forall id | id in active && EntryOf(heap, id.addr) !in Due(timers, now)
        ensures Outside(heap, Listed(Due(timers, now)), id)
      {
        NotDue(id, now);
      }
      BeginHandleRead(now);
      RunActions(acts);
      forall i | 0 <= i < |expired| ensures expired[i].addr in heap && IdOf(heap, expired[i].addr) !in active {
        BatchApart(i);
      }
      ghost var heap1, es, active1, canceling1, freed1 := heap, expired, active, canceling, freed;
      EndHandleRead(now, clock);
      forall a | a in old(heap) && EntryOf(old(heap), a) in Due(old(timers), now)
        ensures FateOf(old(heap), a, acts, now, heap, active, freed)
      {
        var i :| 0 <= i < |es| && es[i] == EntryOf(old(heap), a);
        EndingFreed(IdOf(heap1, a));
        BatchFate(old(heap), heap1, heap, es, canceling1, i, acts, now, active, freed);
      }
      forall id | id in old(active) && EntryOf(old(heap), id.addr) !in Due(old(timers), now)
        ensures FateOfActive(old(heap), id, Cancel(id) in acts, heap, active, freed)
      {
        OtherFate(old(heap), heap1, heap, es, id, Cancel(id) in acts, active1, active, freed1, freed);
      }
    }

    lemma NotDue(id: Id, now: int)
      requires Indexed() && id in active && id.addr in heap && EntryOf(heap, id.addr) !in Due(timers, now)
      ensures Outside(heap, Listed(Due(timers, now)), id)
    {
      hide Numbered;
      hide Partition;
      hide Listed;
      ListedIsSorted(Due(timers, now));
      var es := Listed(Due(timers, now));
      forall i | 0 <= i < |es| ensures es[i].addr != id.addr {
        assert es[i] in es;
        assert es[i] in timers;
      }
    }

    /** An id freed is neither live nor active. */
    lemma EndingFreed(id: Id)
      requires Valid()
      ensures id in freed ==> !Live(heap, id) && id !in active
    {
      if id in freed {
        assert Issued(issued, id);
      }
    }
  }

  /** What callbacks and other threads do to the queue. */
  datatype Action =
    | Create(when: int, repeats: bool, interval: nat)
    | Add(addr: nat, clock: int)
    | Cancel(id: Id)

  /** What has become of an active timer of heap0 that was not due. */
  ghost predicate FateOfActive(heap0: Heap, id: Id, cancelled: bool, heap: Heap, active: set<Id>, freed: set<Id>) {
    if cancelled then id in freed
    else id in active && id.addr in heap0 && id.addr in heap && heap[id.addr] == heap0[id.addr]
  }

  /** What has become of a due timer of heap0 when its batch is over. */
  ghost predicate FateOf(heap0: Heap, a: nat, acts: seq<Action>, now: int, heap: Heap, active: set<Id>, freed: set<Id>)
    requires a in heap0
  {
    var id := IdOf(heap0, a);
    if heap0[a].repeats && Cancel(id) !in acts
    then id in active && id !in freed && a in heap && heap[a] == heap0[a].(expiration := now + heap0[a].interval)
    else id in freed && id !in active
  }

  /** The timer of this id is not among these entries. */
  ghost predicate Outside(heap: Heap, es: seq<Entry>, id: Id) {
    (forall i :: 0 <= i < |es| ==> es[i].addr != id.addr) && id !in Ids(heap, es)
  }

  lemma OtherFate(heap0: Heap, heap1: Heap, heap: Heap, es: seq<Entry>, id: Id, cancelled: bool,
                  active1: set<Id>, active: set<Id>, freed1: set<Id>, freed: set<Id>)
    requires FateOfActive(heap0, id, cancelled, heap1, active1, freed1) && active1 <= active && freed1 <= freed
    requires OthersKept(heap1, heap, es) && forall i :: 0 <= i < |es| ==> es[i].addr != id.addr
    ensures FateOfActive(heap0, id, cancelled, heap, active, freed)
  {
  }

  lemma BatchFate(heap0: Heap, heap1: Heap, heap: Heap, es: seq<Entry>, canceling: set<Id>, i: nat, acts: seq<Action>, now: int,
                  active: set<Id>, freed: set<Id>)
    requires i < |es| && es[i].addr in heap0 && es[i].addr in heap1 && heap1[es[i].addr] == heap0[es[i].addr]
    requires Surviving(heap1, es, canceling) <= active && Ending(heap1, es, canceling) <= freed
    requires var id := IdOf(heap1, es[i].addr);
             (id in canceling <==> Cancel(id) in acts) && (id in freed ==> id !in active)
    requires GoesOn(heap1, es[i], canceling) ==> Restarted(heap1, heap, es[i].addr, now)
    ensures FateOf(heap0, es[i].addr, acts, now, heap, active, freed)
  {
    assert es[i] in es;
  }

  /** Of an id that was handed out exactly one holds: its timer waits, is active, is in the batch, or is freed. Of others none. */
  lemma OneFate(q: TimerQueue, id: Id)
    requires q.Valid()
    ensures var live := Live(q.heap, id);
            (if live && id.addr in q.waiting then 1 else 0) + (if id in q.active then 1 else 0)
            + (if live && id.addr in BatchAddrs(q.expired) then 1 else 0) + (if id in q.freed then 1 else 0)
            == if Issued(q.issued, id) then 1 else 0
    ensures |q.timers| == |q.active|
  {
    AgreeSizes(q.timers, q.active, q.heap);
    if id.addr in q.heap {
      AddrsErase(q.timers, q.active, q.heap, id.addr);
    }
    LiveOrFreed(q.heap, q.issued, q.freed, id);
    assert id in q.active ==> Live(q.heap, id);
  }

  lemma LiveOrFreed(heap: Heap, issued: seq<Id>, freed: set<Id>, id: Id)
    requires Numbered(heap, issued, freed)
    ensures (Live(heap, id) || id in freed) <==> Issued(issued, id)
    ensures !(Live(heap, id) && id in freed)
  {
    if Issued(issued, id) {
      assert issued[id.sequence - 1] == id;
    }
  }

  /** Finitely many addresses are in use. */
  ghost function Bound(s: set<nat>): (n: nat)
    ensures forall a :: a in s ==> a < n
    ensures n !in s
    decreases s
  {
    if s == {} then 0
    else
      var a :| a in s;
      var m := Bound(s - {a});
      assert forall b :: b in s ==> b == a || b in s - {a};
      Max(m, a + 1)
  }
}
