/** libco's timing wheel: a ring of lists indexed by millisecond, with far timeouts clamped to its edge. */
module TimingWheel {
  import opened IntrusiveList
  import opened TimedEntries
  import opened Bytes
  import Seqs

  // ---------- Index arithmetic ----------

  lemma Multiple(k: int, n: int)
    requires n > 0
    ensures k >= 1 ==> k * n >= n
    ensures k <= -1 ==> k * n <= -n
  {
  }

  lemma ModUnique(x: int, n: int, q: int, r: int)
    requires n > 0 && 0 <= r < n && x == q * n + r
    ensures x % n == r
  {
    var k := x / n - q;
    assert k * n == r - x % n;
    Multiple(k, n);
  }

  lemma ModPlus(x: int, n: int)
    requires n > 0
    ensures (x + n) % n == x % n
  {
    ModUnique(x + n, n, x / n + 1, x % n);
  }

  /** Within one turn of the ring different offsets are different slots. */
  lemma ModInjective(x: int, n: int, d: int, e: int)
    requires n > 0 && 0 <= d < n && 0 <= e < n && (x + d) % n == (x + e) % n
    ensures d == e
  {
    var k := (x + d) / n - (x + e) / n;
    assert k * n == d - e;
    Multiple(k, n);
  }

  /** A 64-bit difference assigned to an int. */
  function ToInt32(x: nat): int {
    var r := x % 0x1_0000_0000;
    if r < 0x8000_0000 then r else r - 0x1_0000_0000
  }

  /** The number of slots TakeAllTimeout visits for a gap of g milliseconds, this one included. */
  function SlotCount(g: nat, size: nat): int {
    var cnt := ToInt32(g);
    if cnt > size then size else cnt
  }

  predicate CountsRight(g: nat, size: nat) {
    g < 0x8000_0000 || ToInt32(g) >= size
  }

  /** The truncation to int is harmless exactly when the gap fits or what is left of it covers the wheel. */
  lemma SlotCountExact(g: nat, size: nat)
    requires 1 <= size < 0x8000_0000
    ensures SlotCount(g, size) == Min(g, size) <==> CountsRight(g, size)
  {
  }

  /** Taking the slots counted takes all that is due, whatever is on the wheel, exactly when the gap counts right. */
  lemma TakesDueExact<T(!new)>(g: nat, size: nat, start: nat, x: T)
    requires g >= 1 && 1 <= size < 0x8000_0000
    ensures CountsRight(g, size) <==>
              forall entries: seq<Entry<T>> ::
                InOrder(entries, start, Max(SlotCount(g, size), 0)) == InOrder(entries, start, Min(g, size))
  {
    SlotCountExact(g, size);
    var cnt := Max(SlotCount(g, size), 0);
    if !CountsRight(g, size) {
      var late := [Entry(x, start + cnt)];
      OnlyEntry(x, start, cnt, cnt);
      OnlyEntry(x, start, cnt, Min(g, size));
      assert InOrder(late, start, cnt) != InOrder(late, start, Min(g, size));
    }
  }

  lemma OnlyEntry<T>(x: T, start: nat, d: nat, n: nat)
    ensures (InOrder([Entry(x, start + d)], start, n) == []) <==> n <= d
  {
    var es := [Entry(x, start + d)];
    AtTimeInOrder(es, start, n, start + d);
    assert es[..0] == [];
    assert AtTime(es, start + d) == es;
    if n <= d {
      NoneEarlier(es, start, n, start + d);
    } else {
      AtTimeNothing<T>(start + d);
    }
  }

  lemma {:induction false} NoneEarlier<T>(es: seq<Entry<T>>, start: nat, n: nat, t: nat)
    requires start + n <= t && forall i :: 0 <= i < |es| ==> es[i].time == t
    ensures InOrder(es, start, n) == []
    decreases n
  {
    if n > 0 {
      NoneEarlier(es, start, n - 1, t);
      AtTimeNone(es, start + n - 1);
    }
  }

  /** A gap of exactly 2^32 milliseconds visits no slot at all. */
  lemma SlotCountWraps()
    ensures !CountsRight(0x1_0000_0000, 60000) && SlotCount(0x1_0000_0000, 60000) == 0
  {
  }

  // ---------- The ring as a value ----------

  function SlotAt(size: nat, idx: nat, d: nat): (k: nat)
    requires size > 0
    ensures k < size
  {
    (idx + d) % size
  }

  /** Slot d of the ring holds the entries whose slot time is d after the start; no entry lies outside the ring. */
  ghost predicate RingTimed<T>(size: nat, start: nat, idx: nat, slots: seq<seq<T>>, entries: seq<Entry<T>>) {
    && 0 < size < 0x8000_0000 && |slots| == size
    && (forall d :: 0 <= d < size ==> slots[SlotAt(size, idx, d)] == Items(AtTime(entries, start + d)))
    && (forall i :: 0 <= i < |entries| ==> start <= entries[i].time < start + size)
    && (start == 0 ==> entries == [])
  }

  /** Every place of the ring is some slot. */
  lemma SlotOnto(size: nat, idx: nat, k: nat) returns (d: nat)
    requires k < size
    ensures d < size && SlotAt(size, idx, d) == k
  {
    var r, q := idx % size, idx / size;
    if k >= r {
      d := k - r;
      ModUnique(idx + d, size, q, k);
    } else {
      d := k + size - r;
      ModUnique(idx + d, size, q + 1, k);
    }
  }

  lemma SlotsDiffer(size: nat, idx: nat, d: nat, e: nat)
    requires d < size && e < size && d != e
    ensures SlotAt(size, idx, d) != SlotAt(size, idx, e)
  {
    if SlotAt(size, idx, d) == SlotAt(size, idx, e) {
      ModInjective(idx, size, d, e);
    }
  }

  /** An empty ring may start anywhere. */
  lemma RingRestart<T>(size: nat, start: nat, idx: nat, slots: seq<seq<T>>, start': nat)
    requires RingTimed(size, start, idx, slots, [])
    ensures RingTimed(size, start', 0, slots, [])
  {
    forall d | 0 <= d < size ensures slots[SlotAt(size, 0, d)] == Items(AtTime<T>([], start' + d)) {
      var e := SlotOnto(size, idx, SlotAt(size, 0, d));
      assert slots[SlotAt(size, idx, e)] == [];
    }
  }

  lemma RingInsert<T>(size: nat, start: nat, idx: nat, slots: seq<seq<T>>, entries: seq<Entry<T>>, x: T, diff: nat)
    requires RingTimed(size, start, idx, slots, entries) && diff < size && start > 0
    ensures var k := SlotAt(size, idx, diff);
            RingTimed(size, start, idx, slots[k := slots[k] + [x]], entries + [Entry(x, start + diff)])
  {
    hide AtTime;
    hide SlotAt;
    hide Items;
    var k := SlotAt(size, idx, diff);
    var slots', entries' := slots[k := slots[k] + [x]], entries + [Entry(x, start + diff)];
    forall d | 0 <= d < size ensures slots'[SlotAt(size, idx, d)] == Items(AtTime(entries', start + d)) {
      AtTimeAppend(entries, Entry(x, start + diff), start + d);
      if d != diff {
        SlotsDiffer(size, idx, d, diff);
        Seqs.EmptyLeft(AtTime(entries, start + d));
      } else {
        ItemsAppend(AtTime(entries, start + d), Entry(x, start + diff));
      }
    }
  }

  /** The ring slots with its first n slots emptied. */
  ghost predicate Emptied<T>(size: nat, idx: nat, slots: seq<seq<T>>, slots': seq<seq<T>>, n: nat)
    requires size > 0
  {
    && |slots| == size && |slots'| == size
    && forall e :: 0 <= e < size ==> slots'[SlotAt(size, idx, e)] == if e < n then [] else slots[SlotAt(size, idx, e)]
  }

  lemma EmptiedNext<T>(size: nat, start: nat, idx: nat, slots: seq<seq<T>>, entries: seq<Entry<T>>, slots': seq<seq<T>>, n: nat)
    requires n < size && RingTimed(size, start, idx, slots, entries) && Emptied(size, idx, slots, slots', n)
    ensures Emptied(size, idx, slots, slots'[SlotAt(size, idx, n) := []], n + 1)
    ensures slots'[SlotAt(size, idx, n)] == Items(AtTime(entries, start + n))
    ensures Items(InOrder(entries, start, n + 1)) == Items(InOrder(entries, start, n)) + slots'[SlotAt(size, idx, n)]
  {
    hide SlotAt;
    hide AtTime;
    var slots'' := slots'[SlotAt(size, idx, n) := []];
    forall e | 0 <= e < size
      ensures slots''[SlotAt(size, idx, e)] == if e < n + 1 then [] else slots[SlotAt(size, idx, e)]
    {
      if e != n {
        SlotsDiffer(size, idx, e, n);
      }
    }
    ItemsConcat(InOrder(entries, start, n), AtTime(entries, start + n));
  }

  /** Turning the ring cnt - 1 places once its first cnt slots have been emptied. */
  lemma RingAdvance<T>(size: nat, start: nat, idx: nat, slots: seq<seq<T>>, entries: seq<Entry<T>>,
                       now: nat, cnt: nat, slots': seq<seq<T>>)
    requires RingTimed(size, start, idx, slots, entries) && start <= now && cnt == Min(now - start + 1, size)
    requires Emptied(size, idx, slots, slots', cnt)
    ensures RingTimed(size, now, idx + cnt - 1, slots', Later(entries, now))
  {
    hide AtTime;
    hide Later;
    LaterMembers(entries, now);
    var idx' := idx + cnt - 1;
    forall d | 0 <= d < size ensures slots'[SlotAt(size, idx', d)] == Items(AtTime(Later(entries, now), now + d)) {
      AtTimeLater(entries, now, now + d);
      var e := cnt - 1 + d;
      if e < size {
        assert SlotAt(size, idx', d) == SlotAt(size, idx, e);
      } else {
        ModPlus(idx + e - size, size);
        assert SlotAt(size, idx', d) == SlotAt(size, idx, e - size);
        AtTimeNone(entries, now + d);
      }
    }
    LaterOfNothing(entries, now);
  }

  lemma LaterOfNothing<T>(entries: seq<Entry<T>>, now: int)
    ensures entries == [] ==> Later(entries, now) == []
  {
  }

  /** Taking an item off the ring takes its entry out of the timing view. */
  lemma {:induction false} ItemsDropped<T>(es: seq<Entry<T>>, x: T, t: nat)
    ensures Items(AtTime(Dropped(es, x), t)) == Without(Items(AtTime(es, t)), x)
  {
    if es != [] {
      var es0, last := es[..|es| - 1], es[|es| - 1];
      ItemsDropped(es0, x, t);
      DroppedLast(es, x, t);
      WithoutLast(AtTime(es0, t), last, x);
      Seqs.EmptyLeft(AtTime(es0, t));
    }
  }

  lemma DroppedLast<T>(es: seq<Entry<T>>, x: T, t: nat)
    requires es != []
    ensures var es0, last := es[..|es| - 1], es[|es| - 1];
            Items(AtTime(Dropped(es, x), t))
            == Items(AtTime(Dropped(es0, x), t)) + (if last.time == t && last.item != x then [last.item] else [])
  {
    var es0, last := es[..|es| - 1], es[|es| - 1];
    var d := Dropped(es0, x);
    Seqs.EmptyLeft(d);
    Seqs.EmptyLeft(AtTime(d, t));
    Seqs.EmptyLeft(Items(AtTime(d, t)));
    if last.item != x {
      AtTimeAppend(d, last, t);
      if last.time == t {
        ItemsAppend(AtTime(d, t), last);
      }
    }
  }

  lemma WithoutLast<T>(es: seq<Entry<T>>, e: Entry<T>, x: T)
    ensures Without(Items(es + [e]), x) == Without(Items(es), x) + (if e.item == x then [] else [e.item])
  {
    ItemsAppend(es, e);
    assert (Items(es) + [e.item])[..|es|] == Items(es);
  }

  lemma RingDrop<T>(size: nat, start: nat, idx: nat, slots: seq<seq<T>>, entries: seq<Entry<T>>, x: T, k: nat)
    requires RingTimed(size, start, idx, slots, entries) && k < size
    requires forall j :: 0 <= j < size && j != k ==> x !in slots[j]
    ensures RingTimed(size, start, idx, slots[k := Without(slots[k], x)], Dropped(entries, x))
  {
    hide AtTime;
    hide SlotAt;
    hide Dropped;
    hide Items;
    DroppedMembers(entries, x);
    forall d | 0 <= d < size
      ensures slots[k := Without(slots[k], x)][SlotAt(size, idx, d)] == Items(AtTime(Dropped(entries, x), start + d))
    {
      ItemsDropped(entries, x, start + d);
      var j := SlotAt(size, idx, d);
      if j != k {
        WithoutAbsent(slots[j], x);
      }
    }
    DroppedNothing(entries, x);
  }

  lemma DroppedNothing<T>(entries: seq<Entry<T>>, x: T)
    ensures entries == [] ==> Dropped(entries, x) == []
  {
  }

  predicate AllIn(s: seq<Item>, items: set<Item>) {
    forall i :: 0 <= i < |s| ==> s[i] in items
  }

  // ---------- The wheel ----------

  class Wheel {
    const pItems: seq<Link>
    ghost const ring: set<Link?>
    var ullStart: nat
    var llStartIdx: int
    /** What is on each list. */
    ghost var slots: seq<seq<Item>>
    /** The items on the wheel. */
    ghost var held: set<Item>
    /** Everything on the wheel with its slot time, in insertion order. */
    ghost var entries: seq<Entry<Item>>

    ghost predicate Lists()
      reads this`slots, this`held, pItems, held`pLink, held`pPrev, held`pNext
    {
      && |slots| == |pItems|
      && (forall k :: 0 <= k < |pItems| ==> forall i :: 0 <= i < |slots[k]| ==> slots[k][i] in held)
      && (forall k :: 0 <= k < |pItems| ==> IsList(pItems[k], slots[k]))
    }

    /** An item is held exactly while a list of the ring owns it. */
    ghost predicate Owned()
      reads this`held, held`pLink
    {
      && null !in ring
      && (forall k :: 0 <= k < |pItems| ==> pItems[k] in ring)
      && (forall x :: x in held ==> x.pLink in ring)
    }

    ghost predicate Valid()
      reads this, pItems, held`pLink, held`pPrev, held`pNext
    {
      && 0 < |pItems| < 0x8000_0000 && Distinct(pItems) && |slots| == |pItems|
      && llStartIdx >= 0 && RingTimed(|pItems|, ullStart, llStartIdx, slots, entries) && Lists() && Owned()
    }

    /** AllocTimeout. */
    constructor (links: seq<Link>, now: nat)
      requires 0 < |links| < 0x8000_0000 && Distinct(links) && forall k :: 0 <= k < |links| ==> IsList(links[k], [])
      ensures Valid() && pItems == links && ullStart == now && entries == [] && held == {} && ring == set l | l in links
    {
      pItems, ullStart, llStartIdx := links, now, 0;
      ring := set l | l in links;
      slots := seq(|links|, _ => []);
      entries, held := [], {};
    }

    /** The first lines of AddTimeout and TakeAllTimeout. */
    method StartIfUnset(now: nat)
      requires Valid()
      modifies this`ullStart, this`llStartIdx
      ensures Valid()
      ensures if old(ullStart) == 0 then ullStart == now && llStartIdx == 0 && entries == []
              else ullStart == old(ullStart) && llStartIdx == old(llStartIdx)
    {
      if ullStart == 0 {
        RingRestart(|pItems|, ullStart, llStartIdx, slots, now);
        ullStart, llStartIdx := now, 0;
      }
    }

    /** Items of other lists are neither on list k nor unlinked. */
    lemma Elsewhere(k: nat, j: nat, x: Item)
      requires Lists() && Distinct(pItems) && k < |pItems| && j < |pItems| && j != k && x.pLink == null
      ensures forall i :: 0 <= i < |slots[j]| ==> slots[j][i] != x && slots[j][i] !in slots[k]
    {
      Apart(pItems[j], pItems[k], slots[j], slots[k]);
      forall i | 0 <= i < |slots[j]| ensures slots[j][i] != x {
        assert Linked(pItems[j], slots[j], i);
      }
    }

    /** AddTail on list k of the ring. */
    method AddTo(k: nat, x: Item)
      requires Lists() && Owned() && Distinct(pItems) && k < |pItems| && x.pLink == null
      modifies this`slots, this`held, pItems, held`pNext, x`pNext, x`pPrev, x`pLink
      ensures Lists() && Owned() && slots == old(slots)[k := old(slots)[k] + [x]] && held == old(held) + {x} && x.pLink in ring
    {
      forall j | 0 <= j < |pItems| && j != k
        ensures forall i :: 0 <= i < |slots[j]| ==> slots[j][i] != x && slots[j][i] !in slots[k]
      {
        Elsewhere(k, j, x);
      }
      AddTail(pItems[k], x, slots[k]);
      assert Linked(pItems[k], slots[k] + [x], |slots[k]|);
      slots, held := slots[k := slots[k] + [x]], held + {x};
    }

    method Insert(x: Item, diff: nat)
      requires Valid() && diff < |pItems| && ullStart > 0 && x.pLink == null
      modifies this`slots, this`entries, this`held, pItems, held`pNext, x`pNext, x`pPrev, x`pLink
      ensures Valid() && entries == old(entries) + [Entry(x, ullStart + diff)] && held == old(held) + {x}
      ensures x.pLink in ring
    {
      hide Lists;
      hide RingTimed;
      RingInsert(|pItems|, ullStart, llStartIdx, slots, entries, x, diff);
      AddTo(SlotAt(|pItems|, llStartIdx, diff), x);
      entries := entries + [Entry(x, ullStart + diff)];
    }

    /** AddTimeout: the slot time is the expiry, clamped to the far edge of the wheel. */
    method AddTimeout(x: Item, now: nat) returns (rc: int)
      requires Valid() && now > 0
      modifies this, pItems, held`pNext, x`pNext, x`pPrev, x`pLink
      ensures Valid() && ullStart == (if old(ullStart) == 0 then now else old(ullStart))
      ensures rc == 0 <==> ullStart <= now <= x.expire
      ensures if rc == 0 && old(x.pLink) == null
              then entries == old(entries) + [Entry(x, Min(x.expire, ullStart + |pItems| - 1))] && held == old(held) + {x} && x.pLink in ring
              else entries == old(entries) && held == old(held) && x.pLink == old(x.pLink)
    {
      hide Lists;
      hide RingTimed;
      StartIfUnset(now);
      if now < ullStart {
        return 384;
      }
      if x.expire < now {
        return 391;
      }
      var diff := x.expire - ullStart;
      if diff >= |pItems| {
        diff := |pItems| - 1;
      }
      if x.pLink == null {
        Insert(x, diff);
      }
      return 0;
    }

    /** Join list k of the ring to the result. */
    method JoinSlot(k: nat, result: Link, ghost res: seq<Item>)
      requires Lists() && Owned() && Distinct(pItems) && k < |pItems| && result !in ring && IsList(result, res)
      modifies this`slots, this`held, pItems, result, held`pPrev, held`pLink, res`pNext
      ensures Lists() && Owned() && slots == old(slots)[k := []] && IsList(result, res + old(slots)[k]) && held <= old(held)
    {
      hide IsList;
      ghost var t := slots[k];
      forall j | 0 <= j < |pItems| && j != k
        ensures forall i :: 0 <= i < |slots[j]| ==> slots[j][i] !in t && slots[j][i] !in res
      {
        Apart(pItems[j], pItems[k], slots[j], t);
        Apart(pItems[j], result, slots[j], res);
      }
      Join(result, pItems[k], res, t);
      slots, held := slots[k := []], held - set x | x in t;
    }

    /** TakeAllTimeout's loop: the first cnt slots, in order, go to the result. */
    method TakeSlots(cnt: nat, result: Link, ghost res: seq<Item>)
      requires Valid() && cnt <= |pItems| && result !in ring && IsList(result, res)
      modifies this`slots, this`held, pItems, result, held`pNext, held`pPrev, held`pLink, res`pNext
      ensures Lists() && Owned() && held <= old(held) && IsList(result, res + Items(InOrder(entries, ullStart, cnt)))
      ensures Emptied(|pItems|, llStartIdx, old(slots), slots, cnt)
      ensures AllIn(Items(InOrder(entries, ullStart, cnt)), old(held))
    {
      hide RingTimed;
      hide Lists;
      hide IsList;
      hide Emptied;
      hide InOrder;
      ghost var all, slots0 := res, slots;
      TakeStarts(res);
      var i := 0;
      while i < cnt
        invariant 0 <= i <= cnt && Lists() && Owned() && IsList(result, all)
        invariant all == res + Items(InOrder(entries, ullStart, i))
        invariant held <= old(held) && AllIn(Items(InOrder(entries, ullStart, i)), old(held))
        invariant |slots| == |pItems| && Emptied(|pItems|, llStartIdx, slots0, slots, i)
      {
        ghost var k := SlotAt(|pItems|, llStartIdx, i);
        EmptiedNext(|pItems|, ullStart, llStartIdx, slots0, entries, slots, i);
        Seqs.Assoc(res, Items(InOrder(entries, ullStart, i)), slots[k]);
        InHeld(k);
        ghost var all' := all + slots[k];
        JoinSlot(SlotAt(|pItems|, llStartIdx, i), result, all);
        all := all';
        i := i + 1;
      }
    }

    lemma InHeld(k: nat)
      requires Lists() && k < |pItems| && |slots| == |pItems|
      ensures forall i :: 0 <= i < |slots[k]| ==> slots[k][i] in held
    {
    }

    lemma TakeStarts(res: seq<Item>)
      requires |slots| == |pItems| > 0 && llStartIdx >= 0
      ensures res == res + Items(InOrder(entries, ullStart, 0)) && Emptied(|pItems|, llStartIdx, slots, slots, 0)
    {
    }

    /** TakeAllTimeout once the number of slots is known: the timing survives if the number is right. */
    method Advance(now: nat, cnt: nat, result: Link, ghost res: seq<Item>)
      requires Valid() && ullStart <= now && cnt <= |pItems|
      requires result !in ring && IsList(result, res)
      modifies this, pItems, result, held`pNext, held`pPrev, held`pLink, res`pNext
      ensures Lists() && Owned() && held <= old(held) && ullStart == now && entries == Later(old(entries), now)
      ensures cnt == Min(now - old(ullStart) + 1, |pItems|) ==> Valid()
      ensures IsList(result, res + Items(InOrder(old(entries), old(ullStart), cnt)))
      ensures AllIn(Items(InOrder(old(entries), old(ullStart), cnt)), old(held))
    {
      hide RingTimed;
      hide Lists;
      ghost var slots0 := slots;
      TakeSlots(cnt, result, res);
      if cnt == Min(now - ullStart + 1, |pItems|) {
        RingAdvance(|pItems|, ullStart, llStartIdx, slots0, entries, now, cnt, slots);
      }
      ullStart := now;
      llStartIdx := llStartIdx + cnt - 1;
      entries := Later(entries, now);
    }

    /** The gap TakeAllTimeout sees at a time not before the start. */
    function Gap(now: nat): nat
      requires ullStart <= now
      reads this`ullStart
    {
      if ullStart == 0 then 1 else now - ullStart + 1
    }

    /**
     TakeAllTimeout: the slots counted go to the result, in order. If the gap counts right these are
     exactly the entries whose slot time has come, by slot time and then by insertion, and the rest stay.
     */
    method TakeAllTimeout(now: nat, result: Link, ghost res: seq<Item>)
      requires Valid() && result !in ring && IsList(result, res)
      modifies this, pItems, result, held`pNext, held`pPrev, held`pLink, res`pNext
      ensures Lists() && Owned() && held <= old(held)
      ensures old(ullStart) > now ==> Valid() && IsList(result, res) && entries == old(entries) && ullStart == old(ullStart)
      ensures old(ullStart) <= now ==>
                var taken := Items(InOrder(old(entries), old(ullStart), Max(SlotCount(old(Gap(now)), |pItems|), 0)));
                IsList(result, res + taken) && AllIn(taken, old(held))
      ensures old(ullStart) <= now && CountsRight(old(Gap(now)), |pItems|) ==>
                && Valid() && ullStart == now && entries == Later(old(entries), now)
                && var due := Items(InOrder(old(entries), old(ullStart), Min(now - old(ullStart) + 1, |pItems|)));
                   IsList(result, res + due) && AllIn(due, old(held))
    {
      hide Lists;
      hide InOrder;
      hide IsList;
      hide RingTimed;
      hide AllIn;
      NothingTaken(res);
      ghost var start0 := ullStart;
      StartIfUnset(now);
      if now < ullStart {
        return;
      }
      var cnt := ToInt32(now - ullStart + 1);
      if cnt > |pItems| {
        cnt := |pItems|;
      }
      SlotCountExact(now - ullStart + 1, |pItems|);
      if cnt < 0 {
        return;
      }
      if start0 == 0 {
        InOrderNothing<Item>(0, Min(now + 1, |pItems|));
        InOrderNothing<Item>(0, cnt);
        InOrderNothing<Item>(now, cnt);
      }
      Advance(now, cnt, result, res);
    }

    lemma NothingTaken(res: seq<Item>)
      ensures res == res + Items(InOrder(entries, ullStart, 0)) && AllIn(Items(InOrder(entries, ullStart, 0)), held)
    {
    }

    /** RemoveFromLink on list k of the ring. */
    method RemoveFrom(ghost k: nat, x: Item)
      requires Lists() && Owned() && Distinct(pItems) && k < |pItems| && x in slots[k]
      modifies this`slots, this`held, pItems, held`pPrev, held`pNext, held`pLink
      ensures Lists() && Owned() && slots == old(slots)[k := Without(old(slots)[k], x)] && x.pLink == null && held == old(held) - {x}
    {
      hide IsList;
      ghost var t := slots[k];
      OnList(pItems[k], t, x);
      forall j | 0 <= j < |pItems| && j != k ensures forall i :: 0 <= i < |slots[j]| ==> slots[j][i] !in t {
        Apart(pItems[j], pItems[k], slots[j], t);
      }
      RemoveFromLink(x, t);
      WithoutIn(t, x);
      slots, held := slots[k := Without(t, x)], held - {x};
    }

    /** RemoveFromLink on an item of the wheel: a cancelled timeout will not be taken. */
    method RemoveTimeout(x: Item, ghost k: nat)
      requires Valid() && k < |pItems| && x in slots[k]
      modifies this`slots, this`entries, this`held, pItems, held`pPrev, held`pNext, held`pLink
      ensures Valid() && entries == Dropped(old(entries), x) && x.pLink == null && held == old(held) - {x}
    {
      hide RingTimed;
      Nowhere(k, x);
      RingDrop(|pItems|, ullStart, llStartIdx, slots, entries, x, k);
      hide Lists;
      RemoveFrom(k, x);
      entries := Dropped(entries, x);
    }

    lemma Nowhere(k: nat, x: Item)
      requires Lists() && Distinct(pItems) && |slots| == |pItems| && k < |pItems| && x in slots[k]
      ensures forall j :: 0 <= j < |pItems| && j != k ==> x !in slots[j]
    {
      forall j | 0 <= j < |pItems| && j != k ensures x !in slots[j] {
        Apart(pItems[j], pItems[k], slots[j], slots[k]);
      }
    }
  }
}
