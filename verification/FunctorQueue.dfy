/**
 muduo's EventLoop as a concurrent protocol: any thread may queue functors, in two separate steps
 (push under the mutex, then write the wakeup descriptor), while the loop thread polls, handles
 events and runs what is pending.
 */
module FunctorQueue {
  import Bytes
  import Seqs

  type Thread = nat
  type Functor = nat

  /** The thread that owns the loop. */
  const LOOP: Thread := 0

  /** An eventfd counter saturates here; a further write fails and leaves it alone. */
  const MAX_COUNTER: nat := 0xffff_ffff_ffff_fffe

  /** Where the loop thread is. */
  datatype Place =
    | Idle                   // loop() has not begun, or has returned
    | AtPoll                 // about to poll
    | Handling(wake: bool)   // running event handlers; wake: the wakeup channel is still to be handled
    | Swapping               // doPendingFunctors has set its flag
    | Running                // running the functors it took

  datatype State = State(
    place: Place,
    pending: seq<Functor>,   // pendingFunctors_
    calling: bool,           // callingPendingFunctors_
    batch: seq<Functor>,     // the functors taken by doPendingFunctors
    next: nat,               // how many of them have run
    counter: nat,            // the wakeup descriptor
    waking: set<Thread>,     // threads between their push and their wakeup
    early: nat,              // pending functors the loop thread queued while not looping
    pushed: seq<Functor>,    // all functors ever pushed, in order
    ran: seq<Functor>)       // all functors ever run, in order

  const INIT := State(Idle, [], false, [], 0, 0, {}, 0, [], [])

  datatype Label =
    | Push(t: Thread, f: Functor)
    | Wake(t: Thread)
    | Begin
    | Poll
    | HandleRead
    | BeginPending
    | Swap
    | RunOne
    | EndPending(quit: bool)

  /** The loop thread does one thing at a time: while it owes a wakeup it does nothing else. */
  predicate LoopFree(s: State) {
    LOOP !in s.waking
  }

  predicate Enabled(s: State, l: Label) {
    match l
    case Push(t, _) =>
      t !in s.waking && (t == LOOP ==> s.place.Idle? || s.place.Handling? || (s.place.Running? && s.next > 0))
    case Wake(t) => t in s.waking
    case Begin => s.place.Idle? && LoopFree(s)
    case Poll => s.place.AtPoll? && LoopFree(s)
    case HandleRead => s.place == Handling(true) && LoopFree(s)
    case BeginPending => s.place == Handling(false) && LoopFree(s)
    case Swap => s.place.Swapping? && LoopFree(s)
    case RunOne => s.place.Running? && s.next < |s.batch| && LoopFree(s)
    case EndPending(_) => s.place.Running? && s.next == |s.batch| && LoopFree(s)
  }

  function Apply(s: State, l: Label): State
    requires Enabled(s, l)
  {
    match l
    case Push(t, f) =>
      // queueInLoop: push, and go on to wakeup() unless this is the loop thread outside doPendingFunctors
      s.(pending := s.pending + [f], pushed := s.pushed + [f],
         waking := if t != LOOP || s.calling then s.waking + {t} else s.waking,
         early := if t == LOOP && s.place.Idle? then s.early + 1 else s.early)
    case Wake(t) => s.(counter := if s.counter < MAX_COUNTER then s.counter + 1 else s.counter, waking := s.waking - {t})
    case Begin => s.(place := AtPoll)
    case Poll => s.(place := Handling(s.counter > 0))
    case HandleRead => s.(counter := 0, place := Handling(false))
    case BeginPending => s.(calling := true, place := Swapping)
    case Swap => s.(batch := s.pending, pending := [], next := 0, early := 0, place := Running)
    case RunOne => s.(ran := s.ran + [s.batch[s.next]], next := s.next + 1)
    case EndPending(quit) => s.(calling := false, place := if quit then Idle else AtPoll)
  }

  /** A run is a sequence of labels, each enabled where it happens. */
  predicate Legal(s: State, run: seq<Label>)
    decreases |run|
  {
    run == [] || (Enabled(s, run[0]) && Legal(Apply(s, run[0]), run[1..]))
  }

  function Exec(s: State, run: seq<Label>): State
    requires Legal(s, run)
    decreases |run|
  {
    if run == [] then s else Exec(Apply(s, run[0]), run[1..])
  }

  /** A poll will return at once, or some thread is on its way to make it return. */
  predicate Signalled(s: State) {
    s.counter > 0 || s.waking != {}
  }

  predicate Inv(s: State) {
    && (s.calling <==> s.place.Swapping? || s.place.Running?)
    && (LOOP in s.waking ==> s.place.Running?)
    && s.next <= |s.batch| && (!s.place.Running? ==> s.next == |s.batch|)
    && s.early <= |s.pending|
    && (s.place.Running? ==> s.early == 0)
    && ((s.place.Idle? || s.place.AtPoll? || s.place.Running?) && |s.pending| > s.early ==> Signalled(s))
    && s.ran + s.batch[s.next..] + s.pending == s.pushed
  }

  lemma RunningOrder(ran: seq<Functor>, batch: seq<Functor>, pending: seq<Functor>, next: nat)
    requires next < |batch|
    ensures (ran + [batch[next]]) + batch[next + 1..] + pending == ran + batch[next..] + pending
  {
    assert batch[next..] == [batch[next]] + batch[next + 1..];
    Seqs.Assoc(ran, [batch[next]], batch[next + 1..]);
  }

  lemma InvStep(s: State, l: Label)
    requires Inv(s) && Enabled(s, l)
    ensures Inv(Apply(s, l))
  {
    match l
    case Push(t, f) =>
      Seqs.Assoc(s.ran + s.batch[s.next..], s.pending, [f]);
    case Wake(t) =>
    case Begin =>
    case Poll =>
    case HandleRead =>
    case BeginPending =>
    case Swap =>
      assert s.batch[s.next..] == [];
      assert s.pending[0..] == s.pending;
      Seqs.EmptyLeft(s.ran);
      Seqs.EmptyLeft(s.ran + s.pending);
    case RunOne =>
      RunningOrder(s.ran, s.batch, s.pending, s.next);
    case EndPending(quit) =>
  }

  /** Every state of every run satisfies the invariant. */
  lemma {:induction false} InvAlways(s: State, run: seq<Label>)
    requires Inv(s) && Legal(s, run)
    ensures Inv(Exec(s, run))
    decreases |run|
  {
    if run != [] {
      InvStep(s, run[0]);
      InvAlways(Apply(s, run[0]), run[1..]);
    }
  }

  /**
   No lost wakeup: whenever the loop is about to poll and something is pending, apart from what the
   loop thread queued before loop() began, the poll returns at once or a thread is about to make it.
   */
  lemma NoLostWakeup(run: seq<Label>)
    requires Legal(INIT, run)
    ensures var s := Exec(INIT, run);
            s.place.AtPoll? && |s.pending| > s.early ==> s.counter > 0 || s.waking != {}
  {
    InvAlways(INIT, run);
  }

  /** Functors run in the order they were pushed and each push runs at most once. */
  lemma RunInPushOrder(run: seq<Label>)
    requires Legal(INIT, run)
    ensures var s := Exec(INIT, run); s.ran <= s.pushed
  {
    InvAlways(INIT, run);
  }

  /** The exception is real: a functor the loop thread queues before loop() waits for the first poll to time out. */
  lemma EarlyFunctorsWait()
    ensures var run := [Push(LOOP, 7), Begin];
            && Legal(INIT, run)
            && var s := Exec(INIT, run); s.place.AtPoll? && s.pending == [7] && !Signalled(s)
  {
    var s1 := Apply(INIT, Push(LOOP, 7));
    ExecCons(s1, Begin, []);
    ExecCons(INIT, Push(LOOP, 7), [Begin]);
    assert [Push(LOOP, 7)] + ([Begin] + []) == [Push(LOOP, 7), Begin];
  }

  // ---------- Every turn runs what was there ----------

  /** On the way from polling to the end of doPendingFunctors: what was pushed before is still to run, taken, or run. */
  predicate OnTheWay(before: seq<Functor>, s: State) {
    match s.place
    case Idle => false
    case Running => before <= s.ran + s.batch[Bytes.Min(s.next, |s.batch|)..]
    case _ => before <= s.pushed
  }

  lemma PrefixAppend<T>(a: seq<T>, b: seq<T>, c: seq<T>)
    requires a <= b
    ensures a <= b + c
  {
  }

  lemma OnTheWayStep(before: seq<Functor>, s: State, l: Label)
    requires Inv(s) && Enabled(s, l) && OnTheWay(before, s)
    ensures if l.EndPending? then before <= Apply(s, l).ran else OnTheWay(before, Apply(s, l))
  {
    match l
    case Push(_, f) => PrefixAppend(before, s.pushed, [f]);
    case Swap =>
      Seqs.EmptyLeft(s.ran);
      Seqs.EmptyLeft(s.ran + s.pending);
      assert s.batch[s.next..] == [];
    case RunOne =>
      assert s.batch[s.next..] == [s.batch[s.next]] + s.batch[s.next + 1..];
      Seqs.Assoc(s.ran, [s.batch[s.next]], s.batch[s.next + 1..]);
    case EndPending(_) =>
      assert s.batch[s.next..] == [];
      Seqs.EmptyLeft(s.ran);
    case _ =>
  }

  lemma {:induction false} RanGrows(s: State, run: seq<Label>)
    requires Legal(s, run)
    ensures s.ran <= Exec(s, run).ran
    decreases |run|
  {
    if run != [] {
      RanGrows(Apply(s, run[0]), run[1..]);
    }
  }

  lemma {:induction false} WayEnds(before: seq<Functor>, s: State, run: seq<Label>, k: nat)
    requires Inv(s) && Legal(s, run) && OnTheWay(before, s) && k < |run| && run[k].EndPending?
    ensures before <= Exec(s, run).ran
    decreases |run|
  {
    OnTheWayStep(before, s, run[0]);
    InvStep(s, run[0]);
    if run[0].EndPending? {
      RanGrows(Apply(s, run[0]), run[1..]);
    } else {
      assert run[1..][k - 1] == run[k];
      WayEnds(before, Apply(s, run[0]), run[1..], k - 1);
    }
  }

  /**
   Whatever other threads do meanwhile: in every run from a poll to the end of doPendingFunctors, all that
   was pushed before the poll has run, in order, ahead of anything else.
   */
  lemma EveryTurnRunsAll(s: State, run: seq<Label>)
    requires Inv(s) && s.place.AtPoll? && Legal(s, run) && exists k :: 0 <= k < |run| && run[k].EndPending?
    ensures s.pushed <= Exec(s, run).ran
  {
    var k :| 0 <= k < |run| && run[k].EndPending?;
    WayEnds(s.pushed, s, run, k);
  }

  /** The labels of one undisturbed turn of the loop on a state about to poll. */
  function Turn(s: State): seq<Label> {
    [Poll] + (if s.counter > 0 then [HandleRead] else []) + [BeginPending, Swap] + seq(|s.pending|, _ => RunOne)
  }

  /** Once polling returns, one turn of the loop runs everything that was pending, in order. */
  lemma TurnRunsAll(s: State)
    requires Inv(s) && s.place.AtPoll?
    ensures Legal(s, Turn(s)) && Exec(s, Turn(s)).ran == s.pushed && Exec(s, Turn(s)).pending == []
  {
    var s1 := Apply(s, Poll);
    var s2 := if s.counter > 0 then Apply(s1, HandleRead) else s1;
    var s3 := Apply(s2, BeginPending);
    var s4 := Apply(s3, Swap);
    var runs := seq(|s.pending|, _ => RunOne);
    RunBatch(s4, runs);
    assert s4.ran + s4.batch[0..] == s.pushed by {
      InvStep(s, Poll);
      if s.counter > 0 {
        InvStep(s1, HandleRead);
      }
      InvStep(s2, BeginPending);
      InvStep(s3, Swap);
      Seqs.EmptyLeft(s4.ran + s4.batch[0..]);
    }
    ExecCons(s3, Swap, runs);
    ExecCons(s2, BeginPending, [Swap] + runs);
    var tail := [BeginPending] + ([Swap] + runs);
    if s.counter > 0 {
      ExecCons(s1, HandleRead, tail);
      ExecCons(s, Poll, [HandleRead] + tail);
      assert Turn(s) == [Poll] + ([HandleRead] + tail);
    } else {
      ExecCons(s, Poll, tail);
      assert Turn(s) == [Poll] + tail;
    }
  }

  lemma ExecCons(s: State, l: Label, run: seq<Label>)
    requires Enabled(s, l) && Legal(Apply(s, l), run)
    ensures Legal(s, [l] + run) && Exec(s, [l] + run) == Exec(Apply(s, l), run)
  {
    assert ([l] + run)[1..] == run;
  }

  lemma {:induction false} RunBatch(s: State, runs: seq<Label>)
    requires s.place.Running? && LoopFree(s) && s.next + |runs| == |s.batch|
    requires forall i :: 0 <= i < |runs| ==> runs[i] == RunOne
    ensures Legal(s, runs)
    ensures Exec(s, runs).ran == s.ran + s.batch[s.next..] && Exec(s, runs).pending == s.pending
    decreases |runs|
  {
    if runs != [] {
      RunBatch(Apply(s, RunOne), runs[1..]);
      assert s.batch[s.next..] == [s.batch[s.next]] + s.batch[s.next + 1..];
      Seqs.Assoc(s.ran, [s.batch[s.next]], s.batch[s.next + 1..]);
    } else {
      assert s.batch[s.next..] == [];
    }
  }
}
