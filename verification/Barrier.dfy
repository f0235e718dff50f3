/** One stop-the-world round of runtime/rt/barrier.cpp as the interleaved steps of its threads. */
module BarrierRound {
  import opened Common
  import opened Handles
  import opened SizedPages
  import LocalityPages

  /** Where a thread is. Pinning and Unpinning hold the handles its loop has still to visit; a
      waiting thread remembers the generation of the barrier it waits for. */
  datatype Phase =
    | Running
    | Pinning(todo: set<nat>)
    | Waiting1(gen: nat)
    | Parked
    | Waiting2(gen: nat)
    | Unpinning(todo: set<nat>)
    | Done

  /** Thread 0 leads the round. pins[t] is the pin set thread t finds on its stack; gen and count
      are the pthread barrier's generation and the arrivals in it. */
  datatype State = State(threads: seq<Phase>, pins: seq<set<nat>>, gen: nat, count: nat, table: seq<Mapping>)

  ghost predicate Init(s: State) {
    && |s.threads| == |s.pins| > 0
    && s.gen == 0 && s.count == 0
    && (forall t :: 0 <= t < |s.threads| ==> s.threads[t] == Running)
    && (forall h :: 0 <= h < |s.table| ==> !s.table[h].pinned)
  }

  /** record_handle: only a live handle of the table is marked. */
  function Record(table: seq<Mapping>, h: nat, marked: bool): seq<Mapping> {
    if h < |table| && !table[h].free then table[h := table[h].(pinned := marked)] else table
  }

  function SetPhase(s: State, t: nat, p: Phase): State
    requires t < |s.threads|
  {
    s.(threads := s.threads[t := p])
  }

  /** Arriving at the barrier: the last arrival opens it for the next generation. */
  function Arrive(s: State, t: nat, p: Phase): State
    requires t < |s.threads|
  {
    if s.count + 1 == |s.threads| then SetPhase(s, t, p).(gen := s.gen + 1, count := 0)
    else SetPhase(s, t, p).(count := s.count + 1)
  }

  datatype Step =
    | Enter | Pin(h: nat) | Arrive1 | Leave1
    | Move(table: seq<Mapping>)
    | Arrive2 | Leave2 | Unpin(h: nat) | Finish
    | Store(h: nat, p: Address) | Free(h: nat)

  /** What compaction may do to the table: unpinned entries may point elsewhere. */
  ghost predicate MovesOnlyUnpinned(table: seq<Mapping>, table': seq<Mapping>) {
    |table'| == |table| &&
    forall h :: 0 <= h < |table| ==>
      table'[h].pinned == table[h].pinned && table'[h].free == table[h].free
        && (table[h].pinned ==> table'[h] == table[h])
  }

  /** Thread t takes a step. With one thread there is no waiting. Only the leader works on the heap
      while the world is stopped. A running thread may store a new pointer in a handle, as halloc
      and hrealloc do, or free it. */
  ghost predicate Next(s: State, s': State, t: nat, step: Step)
    requires |s.threads| == |s.pins|
  {
    t < |s.threads| &&
    var phase := s.threads[t];
    var alone := |s.threads| == 1;
    match step
    case Enter => phase.Running? && s' == SetPhase(s, t, Pinning(s.pins[t]))
    case Pin(h) =>
      && phase.Pinning? && h in phase.todo
      && s' == SetPhase(s, t, Pinning(phase.todo - {h})).(table := Record(s.table, h, true))
    case Arrive1 =>
      phase == Pinning({}) && s' == if alone then SetPhase(s, t, Parked) else Arrive(s, t, Waiting1(s.gen))
    case Leave1 => phase.Waiting1? && phase.gen < s.gen && s' == SetPhase(s, t, Parked)
    case Move(table) => t == 0 && phase.Parked? && MovesOnlyUnpinned(s.table, table) && s' == s.(table := table)
    case Arrive2 =>
      phase.Parked? && s' == if alone then SetPhase(s, t, Unpinning(s.pins[t])) else Arrive(s, t, Waiting2(s.gen))
    case Leave2 => phase.Waiting2? && phase.gen < s.gen && s' == SetPhase(s, t, Unpinning(s.pins[t]))
    case Unpin(h) =>
      && phase.Unpinning? && h in phase.todo
      && s' == SetPhase(s, t, Unpinning(phase.todo - {h})).(table := Record(s.table, h, false))
    case Finish => phase == Unpinning({}) && s' == SetPhase(s, t, Done)
    case Store(h, p) =>
      && (phase.Running? || phase.Done?) && h < |s.table|
      && s' == s.(table := s.table[h := s.table[h].SetPointer(p)])
    case Free(h) =>
      && (phase.Running? || phase.Done?) && h < |s.table|
      && s' == s.(table := s.table[h := Mapping(s.table[h].ptr, false, true)])
  }

  // ------------------------------------------------------------------ the barrier

  /** The threads counted as arrived. */
  ghost function Waiters(s: State): set<nat> {
    set t: nat | t < |s.threads| && (s.threads[t] == Waiting1(s.gen) || s.threads[t] == Waiting2(s.gen))
  }

  /** Where a thread can be in each generation. */
  predicate PhaseFits(gen: nat, p: Phase) {
    match gen
    case 0 => p.Running? || p.Pinning? || p == Waiting1(0)
    case 1 => p == Waiting1(0) || p.Parked? || p == Waiting2(1)
    case _ => gen == 2 && (p == Waiting2(1) || p.Unpinning? || p.Done?)
  }

  ghost predicate BarrierInv(s: State) {
    && |s.threads| == |s.pins| > 0
    && (forall t :: 0 <= t < |s.threads| ==> s.threads[t].Pinning? ==> s.threads[t].todo <= s.pins[t])
    && (|s.threads| > 1 ==> s.count == |Waiters(s)| < |s.threads|)
    && (|s.threads| > 1 ==> forall t :: 0 <= t < |s.threads| ==> PhaseFits(s.gen, s.threads[t]))
    && (|s.threads| == 1 ==> s.gen == 0 && !s.threads[0].Waiting1? && !s.threads[0].Waiting2?)
  }

  lemma WaitersBound(s: State)
    ensures |Waiters(s)| <= |s.threads|
    ensures |Waiters(s)| == |s.threads| <==> forall t: nat :: t < |s.threads| ==> t in Waiters(s)
  {
    var w, all := Waiters(s), Below(|s.threads|);
    SubsetSize(w, all);
    if forall t: nat :: t < |s.threads| ==> t in w {
      assert w == all;
    }
  }

  lemma ArriveInv(s: State, t: nat, p: Phase)
    requires BarrierInv(s) && t < |s.threads| && |s.threads| > 1
    requires (s.threads[t].Pinning? && p == Waiting1(s.gen)) || (s.threads[t].Parked? && p == Waiting2(s.gen))
    ensures BarrierInv(Arrive(s, t, p))
  {
    hide PhaseFits;
    var s', mid := Arrive(s, t, p), SetPhase(s, t, p);
    OneMoreWaits(s, t, p);
    WaitersBound(mid);
    if s.count + 1 == |s.threads| {
      BarrierOpens(mid, s');
    } else {
      assert Waiters(s') == Waiters(mid);
    }
  }

  lemma OneMoreWaits(s: State, t: nat, p: Phase)
    requires BarrierInv(s) && t < |s.threads| && |s.threads| > 1
    requires (s.threads[t].Pinning? && p == Waiting1(s.gen)) || (s.threads[t].Parked? && p == Waiting2(s.gen))
    ensures |Waiters(SetPhase(s, t, p))| == s.count + 1
    ensures s.gen <= 1 && forall u: nat :: u < |s.threads| ==> PhaseFits(s.gen, SetPhase(s, t, p).threads[u])
  {
    assert PhaseFits(s.gen, s.threads[t]);
    assert Waiters(SetPhase(s, t, p)) == Waiters(s) + {t};
  }

  /** When everybody has arrived, the next generation finds everybody where it expects them. */
  lemma BarrierOpens(mid: State, s': State)
    requires s' == mid.(gen := mid.gen + 1, count := 0) && mid.gen <= 1
    requires forall t: nat :: t < |mid.threads| ==> t in Waiters(mid) && PhaseFits(mid.gen, mid.threads[t])
    ensures Waiters(s') == {}
    ensures forall t: nat :: t < |s'.threads| ==> PhaseFits(s'.gen, s'.threads[t]) && !s'.threads[t].Pinning?
  {
    forall t: nat | t < |s'.threads|
      ensures PhaseFits(s'.gen, s'.threads[t]) && t !in Waiters(s') && !s'.threads[t].Pinning?
    {
      assert t in Waiters(mid) && PhaseFits(mid.gen, mid.threads[t]);
    }
  }

  lemma BarrierStep(s: State, s': State, t: nat, step: Step)
    requires BarrierInv(s) && Next(s, s', t, step)
    ensures BarrierInv(s')
  {
    hide Record, MovesOnlyUnpinned;
    var arrives := |s.threads| > 1 && (step.Arrive1? || step.Arrive2?);
    if arrives {
      ArriveInv(s, t, if step.Arrive1? then Waiting1(s.gen) else Waiting2(s.gen));
    } else {
      SameWaiters(s, s', t, step);
      hide Waiters;
    }
  }

  lemma SameWaiters(s: State, s': State, t: nat, step: Step)
    requires BarrierInv(s) && Next(s, s', t, step) && (|s.threads| > 1 ==> !step.Arrive1? && !step.Arrive2?)
    ensures Waiters(s') == Waiters(s)
  {
    hide Record, MovesOnlyUnpinned;
  }

  lemma BarrierInit(s: State)
    requires Init(s)
    ensures BarrierInv(s)
  {
    assert Waiters(s) == {};
  }

  // ------------------------------------------------------------------ the pin bits

  /** The handles thread t has pinned and not yet unpinned. */
  function Held(s: State, t: nat): set<nat>
    requires t < |s.threads| == |s.pins|
  {
    match s.threads[t]
    case Running => {}
    case Pinning(todo) => s.pins[t] - todo
    case Waiting1(_) => s.pins[t]
    case Parked => s.pins[t]
    case Waiting2(_) => s.pins[t]
    case Unpinning(todo) => todo
    case Done => {}
  }

  /** Until the second wait opens, every live handle a thread holds carries the pin bit. */
  ghost predicate HeldArePinned(s: State)
    requires |s.threads| == |s.pins|
  {
    forall t: nat, h: nat :: t < |s.threads| && h in Held(s, t) && s.gen <= 1 && h < |s.table| && !s.table[h].free ==>
      s.table[h].pinned
  }

  /** A pin bit is set only on a live handle that some thread has still to unpin. */
  ghost predicate PinnedAreHeld(s: State)
    requires |s.threads| == |s.pins|
  {
    forall h: nat :: h < |s.table| && s.table[h].pinned ==>
      !s.table[h].free && exists t: nat :: t < |s.threads| && h in Held(s, t)
  }

  ghost predicate Unheld(s: State, h: nat)
    requires |s.threads| == |s.pins|
  {
    forall t: nat :: t < |s.threads| ==> h !in Held(s, t)
  }

  /** The program's part of the bargain: no pointer is stored in a handle that a thread already
      stopping holds pinned. */
  ghost predicate Disciplined(s: State, step: Step)
    requires |s.threads| == |s.pins|
  {
    step.Store? && s.gen <= 1 ==> Unheld(s, step.h)
  }

  lemma HeldStep(s: State, s': State, t: nat, step: Step)
    requires BarrierInv(s) && Next(s, s', t, step)
    requires HeldArePinned(s) && !step.Store?
    ensures BarrierInv(s') && HeldArePinned(s')
  {
    BarrierStep(s, s', t, step);
    forall u: nat, h: nat | u < |s'.threads| && h in Held(s', u) && s'.gen <= 1 && h < |s'.table| && !s'.table[h].free
      ensures s'.table[h].pinned
    {
      if step == Pin(h) && u == t {
      } else {
        assert h in Held(s, u);
      }
    }
  }

  /** A store keeps the pins exactly when nobody holds the handle: it overwrites the pin bit. */
  lemma StoreKeepsPinsIff(s: State, s': State, t: nat, step: Step)
    requires BarrierInv(s) && Next(s, s', t, step)
    requires HeldArePinned(s) && step.Store?
    ensures HeldArePinned(s') <==> (s.gen <= 1 ==> Unheld(s, step.h))
  {
    assert forall u: nat :: u < |s.threads| ==> Held(s', u) == Held(s, u);
    if s.gen <= 1 && !Unheld(s, step.h) {
      var u: nat :| u < |s.threads| && step.h in Held(s, u);
      assert step.h in Held(s', u) && !s'.table[step.h].pinned;
    }
  }

  /** Only unpinning a handle lets go of it. */
  lemma HeldStaysHeld(s: State, s': State, t: nat, step: Step, u: nat, h: nat)
    requires BarrierInv(s) && Next(s, s', t, step)
    requires u < |s.threads| && h in Held(s, u) && step != Unpin(h)
    ensures h in Held(s', u)
  {
    hide Waiters, PhaseFits, Record, MovesOnlyUnpinned;
  }

  lemma PinnedIsHeld(s: State, s': State, t: nat, h: nat)
    requires BarrierInv(s) && Next(s, s', t, Pin(h))
    ensures h in Held(s', t)
  {
  }

  lemma PinnedStep(s: State, s': State, t: nat, step: Step)
    requires BarrierInv(s) && Next(s, s', t, step)
    requires PinnedAreHeld(s)
    ensures PinnedAreHeld(s')
  {
    hide Waiters, PhaseFits, Held;
    forall h: nat | h < |s'.table| && s'.table[h].pinned
      ensures !s'.table[h].free && exists u: nat :: u < |s'.threads| && h in Held(s', u)
    {
      if step == Pin(h) {
        PinnedIsHeld(s, s', t, h);
      } else {
        assert s.table[h].pinned && step != Unpin(h);
        var u: nat :| u < |s.threads| && h in Held(s, u);
        HeldStaysHeld(s, s', t, step, u, h);
      }
    }
  }

  // ------------------------------------------------------------------ whole rounds

  datatype Event = Event(thread: nat, step: Step)

  ghost predicate Follows(s: State, s': State, e: Event) {
    |s.threads| == |s.pins| && Next(s, s', e.thread, e.step)
  }

  /** A run: the states passed through, and the step that leads from each to the next. */
  ghost predicate Run(states: seq<State>, events: seq<Event>) {
    && |states| == |events| + 1 && Init(states[0])
    && (forall i :: 0 <= i < |events| ==> Follows(states[i], states[i + 1], events[i]))
  }

  ghost predicate DisciplinedRun(states: seq<State>, events: seq<Event>) {
    Run(states, events) &&
    forall i :: 0 <= i < |events| ==>
      Follows(states[i], states[i + 1], events[i]) && Disciplined(states[i], events[i].step)
  }

  lemma {:induction false} RunKeepsInv(states: seq<State>, events: seq<Event>, n: nat)
    requires Run(states, events) && n < |states|
    ensures BarrierInv(states[n]) && PinnedAreHeld(states[n])
  {
    if n == 0 {
      BarrierInit(states[0]);
    } else {
      RunKeepsInv(states, events, n - 1);
      assert Follows(states[n - 1], states[n], events[n - 1]);
      BarrierStep(states[n - 1], states[n], events[n - 1].thread, events[n - 1].step);
      PinnedStep(states[n - 1], states[n], events[n - 1].thread, events[n - 1].step);
    }
  }

  lemma {:induction false} RunKeepsPins(states: seq<State>, events: seq<Event>, n: nat)
    requires DisciplinedRun(states, events) && n < |states|
    ensures |states[n].threads| == |states[n].pins| && HeldArePinned(states[n])
  {
    RunKeepsInv(states, events, n);
    if n > 0 {
      RunKeepsInv(states, events, n - 1);
      RunKeepsPins(states, events, n - 1);
      var s, s', e := states[n - 1], states[n], events[n - 1];
      assert Follows(s, s', e) && Disciplined(s, e.step);
      if e.step.Store? {
        StoreKeepsPinsIff(s, s', e.thread, e.step);
      } else {
        HeldStep(s, s', e.thread, e.step);
      }
    }
  }

  /** Between its two waits a thread is parked; a thread still to wake from the first wait, or
      already in the second, does not run either. */
  predicate BetweenTheWaits(p: Phase) {
    p == Waiting1(0) || p.Parked? || p == Waiting2(1)
  }

  /** While the leader is between join and leave, in any interleaving of any number of threads, no other
      thread runs. */
  lemma NobodyElseRuns(states: seq<State>, events: seq<Event>, n: nat)
    requires Run(states, events) && n < |states|
    requires |states[n].threads| > 0 && states[n].threads[0].Parked?
    ensures forall t :: 0 < t < |states[n].threads| ==> BetweenTheWaits(states[n].threads[t])
  {
    RunKeepsInv(states, events, n);
    assert |states[n].threads| > 1 ==> PhaseFits(states[n].gen, states[n].threads[0]);
  }

  /** And if no pointer is stored in a handle that is held pinned, every live handle in any thread's pin set
      has its pin bit. */
  lemma StoppedWorld(states: seq<State>, events: seq<Event>, n: nat)
    requires DisciplinedRun(states, events) && n < |states|
    requires var s := states[n]; |s.threads| > 0 && s.threads[0].Parked?
    ensures var s := states[n];
      && |s.threads| == |s.pins|
      && (forall t :: 0 < t < |s.threads| ==> BetweenTheWaits(s.threads[t]))
      && (forall t: nat, h: nat :: t < |s.threads| && h in s.pins[t] && h < |s.table| && !s.table[h].free ==>
           s.table[h].pinned)
  {
    var s := states[n];
    NobodyElseRuns(states, events, n);
    RunKeepsInv(states, events, n);
    RunKeepsPins(states, events, n);
    assert |s.threads| > 1 ==> PhaseFits(s.gen, s.threads[0]);
    forall t: nat, h: nat | t < |s.threads| && h in s.pins[t] && h < |s.table| && !s.table[h].free
      ensures s.table[h].pinned
    {
      assert |s.threads| > 1 ==> PhaseFits(s.gen, s.threads[t]);
      assert h in Held(s, t);
    }
  }

  lemma StoppedStep(s: State, s': State, e: Event, h: nat)
    requires Follows(s, s', e) && |s.threads| > 0 && s.threads[0].Parked? && s'.threads != [] && s'.threads[0].Parked?
    requires forall t :: 0 < t < |s.threads| ==> BetweenTheWaits(s.threads[t])
    requires h < |s.table| && s.table[h].pinned
    ensures s'.pins == s.pins && |s'.threads| == |s.threads|
    ensures h < |s'.table| && s'.table[h] == s.table[h]
  {
    assert e.thread > 0 ==> BetweenTheWaits(s.threads[e.thread]);
  }

  /** So whatever the leader moves, the entry of a live handle in some pin set is the same at any two
      moments of the stop, whichever threads step in between. */
  lemma {:induction false} PinnedStayPut(states: seq<State>, events: seq<Event>, m: nat, n: nat, t: nat, h: nat)
    requires DisciplinedRun(states, events) && m <= n < |states|
    requires forall i :: m <= i <= n ==> |states[i].threads| > 0 && states[i].threads[0].Parked?
    requires |states[m].threads| == |states[m].pins| && t < |states[m].threads| && h in states[m].pins[t]
    requires h < |states[m].table| && !states[m].table[h].free
    ensures h < |states[n].table| && states[n].table[h] == states[m].table[h]
    ensures |states[n].pins| == |states[n].threads| == |states[m].threads| && states[n].pins == states[m].pins
    decreases n
  {
    hide BarrierInv, Next, HeldArePinned, PinnedAreHeld, Disciplined;
    RunKeepsInv(states, events, n);
    if m < n {
      PinnedStayPut(states, events, m, n - 1, t, h);
      StoppedWorld(states, events, n - 1);
      assert Follows(states[n - 1], states[n], events[n - 1]);
      StoppedStep(states[n - 1], states[n], events[n - 1], h);
    }
  }

  /** Once every thread is through, no pin bit is left: the next round starts clean. */
  lemma RoundLeavesNoPins(states: seq<State>, events: seq<Event>, n: nat)
    requires Run(states, events) && n < |states|
    requires forall t :: 0 <= t < |states[n].threads| ==> states[n].threads[t].Done?
    ensures forall h :: 0 <= h < |states[n].table| ==> !states[n].table[h].pinned
  {
    RunKeepsInv(states, events, n);
  }

  // ------------------------------------------------------------------ progress and compaction

  /** What thread t's code does next, when that is not blocked in a wait. */
  ghost function NextStep(s: State, t: nat): Option<Step>
    requires t < |s.threads|
  {
    match s.threads[t]
    case Running => Some(Enter)
    case Pinning(todo) => if todo == {} then Some(Arrive1) else var h :| h in todo; Some(Pin(h))
    case Waiting1(gen) => if gen < s.gen then Some(Leave1) else None
    case Parked => Some(Arrive2)
    case Waiting2(gen) => if gen < s.gen then Some(Leave2) else None
    case Unpinning(todo) => if todo == {} then Some(Finish) else var h :| h in todo; Some(Unpin(h))
    case Done => None
  }

  /** No deadlock: until all threads are through, some thread's next step can be taken. */
  lemma SomeThreadCanStep(s: State)
    requires BarrierInv(s)
    requires exists t :: 0 <= t < |s.threads| && !s.threads[t].Done?
    ensures exists t: nat, s' :: t < |s.threads| && NextStep(s, t).Some? && Next(s, s', t, NextStep(s, t).value)
  {
    var t: nat :| t < |s.threads| && !s.threads[t].Done?;
    if NextStep(s, t).None? {
      var u := NotWaiting(s, t);
      Enabled(s, u);
    } else {
      Enabled(s, t);
    }
  }

  lemma Enabled(s: State, t: nat)
    requires BarrierInv(s) && t < |s.threads| && NextStep(s, t).Some?
    ensures exists s' :: Next(s, s', t, NextStep(s, t).value)
  {
    var phase, alone := s.threads[t], |s.threads| == 1;
    var s' := match NextStep(s, t).value
      case Enter => SetPhase(s, t, Pinning(s.pins[t]))
      case Pin(h) => SetPhase(s, t, Pinning(phase.todo - {h})).(table := Record(s.table, h, true))
      case Arrive1 => if alone then SetPhase(s, t, Parked) else Arrive(s, t, Waiting1(s.gen))
      case Leave1 => SetPhase(s, t, Parked)
      case Arrive2 => if alone then SetPhase(s, t, Unpinning(s.pins[t])) else Arrive(s, t, Waiting2(s.gen))
      case Leave2 => SetPhase(s, t, Unpinning(s.pins[t]))
      case Unpin(h) => SetPhase(s, t, Unpinning(phase.todo - {h})).(table := Record(s.table, h, false))
      case Finish => SetPhase(s, t, Done)
      case _ => s;
    assert Next(s, s', t, NextStep(s, t).value);
  }

  /** If a thread is blocked, another has yet to arrive. */
  lemma NotWaiting(s: State, t: nat) returns (u: nat)
    requires BarrierInv(s) && t < |s.threads| && !s.threads[t].Done? && NextStep(s, t).None?
    ensures u < |s.threads| && NextStep(s, u).Some?
  {
    u := NotArrived(s);
    assert PhaseFits(s.gen, s.threads[t]) && PhaseFits(s.gen, s.threads[u]);
  }

  lemma NotArrived(s: State) returns (u: nat)
    requires BarrierInv(s) && |s.threads| > 1
    ensures u < |s.threads| && s.threads[u] != Waiting1(s.gen) && s.threads[u] != Waiting2(s.gen)
  {
    WaitersBound(s);
    u :| u < |s.threads| && u !in Waiters(s);
  }

  /** The protocol steps still to be taken from phase p with the given pin set. */
  function StepsFrom(pins: set<nat>, p: Phase): nat {
    match p
    case Running => 2 * |pins| + 7
    case Pinning(todo) => |pins| + |todo| + 6
    case Waiting1(_) => |pins| + 5
    case Parked => |pins| + 4
    case Waiting2(_) => |pins| + 3
    case Unpinning(todo) => |todo| + 2
    case Done => 0
  }

  function Left(s: State, t: nat): nat
    requires t < |s.threads| == |s.pins|
  {
    StepsFrom(s.pins[t], s.threads[t])
  }

  /** The same for the first n threads together. */
  function AllLeft(s: State, n: nat): nat
    requires n <= |s.threads| == |s.pins|
  {
    if n == 0 then 0 else AllLeft(s, n - 1) + Left(s, n - 1)
  }

  predicate IsProtocol(step: Step) {
    !step.Move? && !step.Store? && !step.Free?
  }

  /** A protocol step takes its own thread on and leaves the others where they are; other steps move none. */
  lemma StepsTake(s: State, s': State, t: nat, step: Step)
    requires BarrierInv(s) && Next(s, s', t, step)
    ensures t < |s'.threads| == |s'.pins| == |s.threads|
    ensures if IsProtocol(step) then Left(s', t) < Left(s, t) else Left(s', t) == Left(s, t)
    ensures forall u: nat :: u < |s.threads| && u != t ==> Left(s', u) == Left(s, u)
  {
    OnlyItself(s, s', t, step);
    ItselfOn(s, s', t, step);
    hide BarrierInv, Next;
  }

  lemma OnlyItself(s: State, s': State, t: nat, step: Step)
    requires |s.threads| == |s.pins| && Next(s, s', t, step)
    ensures t < |s.threads| == |s'.threads| == |s'.pins| && s'.pins == s.pins
    ensures forall u: nat :: u < |s.threads| && u != t ==> s'.threads[u] == s.threads[u]
  {
    hide Waiters, PhaseFits, Record, MovesOnlyUnpinned;
  }

  /** What a step does to the phase of its thread. */
  ghost predicate PhaseStep(pins: set<nat>, p: Phase, p': Phase, step: Step) {
    match step
    case Enter => p.Running? && p' == Pinning(pins)
    case Pin(h) => p.Pinning? && h in p.todo && p' == Pinning(p.todo - {h})
    case Arrive1 => p.Pinning? && (p'.Waiting1? || p'.Parked?)
    case Leave1 => p.Waiting1? && p'.Parked?
    case Arrive2 => p.Parked? && (p'.Waiting2? || p' == Unpinning(pins))
    case Leave2 => p.Waiting2? && p' == Unpinning(pins)
    case Unpin(h) => p.Unpinning? && h in p.todo && p' == Unpinning(p.todo - {h})
    case Finish => p.Unpinning? && p'.Done?
    case _ => p' == p
  }

  lemma PhaseStepped(s: State, s': State, t: nat, step: Step)
    requires |s.threads| == |s.pins| && Next(s, s', t, step) && t < |s'.threads|
    ensures PhaseStep(s.pins[t], s.threads[t], s'.threads[t], step)
  {
    hide Record, MovesOnlyUnpinned;
  }

  lemma PhaseOn(pins: set<nat>, p: Phase, p': Phase, step: Step)
    requires PhaseStep(pins, p, p', step)
    ensures if IsProtocol(step) then StepsFrom(pins, p') < StepsFrom(pins, p) else p' == p
  {}

  lemma ItselfOn(s: State, s': State, t: nat, step: Step)
    requires |s.threads| == |s.pins| && Next(s, s', t, step) && t < |s'.threads| == |s'.pins| && s'.pins == s.pins
    ensures if IsProtocol(step) then Left(s', t) < Left(s, t) else Left(s', t) == Left(s, t)
  {
    PhaseStepped(s, s', t, step);
    PhaseOn(s.pins[t], s.threads[t], s'.threads[t], step);
    hide Next, PhaseStep, StepsFrom;
  }

  lemma {:induction false} StepsTakeAll(s: State, s': State, t: nat, n: nat)
    requires n <= |s.threads| == |s.pins| == |s'.threads| == |s'.pins| && t < |s.threads|
    requires forall u: nat :: u < |s.threads| && u != t ==> Left(s', u) == Left(s, u)
    ensures AllLeft(s', n) - AllLeft(s, n) == if t < n then Left(s', t) - Left(s, t) else 0
  {
    hide Left;
    if n > 0 { StepsTakeAll(s, s', t, n - 1); }
  }

  /** How many of the events are protocol steps. */
  function Taken(events: seq<Event>): nat {
    if events == [] then 0
    else Taken(events[..|events| - 1]) + if IsProtocol(events[|events| - 1].step) then 1 else 0
  }

  /** Every round ends: however the threads interleave, the protocol steps taken and those left never exceed
      what was left at the start; and nothing is left exactly when every thread is through. */
  lemma {:induction false} RoundEnds(states: seq<State>, events: seq<Event>)
    requires Run(states, events)
    ensures var s, n := states[|events|], |states[0].threads|;
            |s.threads| == |s.pins| == n == |states[0].pins|
            && Taken(events) + AllLeft(s, n) <= AllLeft(states[0], n)
            && (AllLeft(s, n) == 0 <==> forall t :: 0 <= t < n ==> s.threads[t].Done?)
    decreases |events|
  {
    hide BarrierInv, Next, AllLeft, Init;
    RunKeepsInv(states, events, |events|);
    ShapeOf(states[|events|]);
    NoneLeft(states[|events|], |states[|events|].threads|);
    if events != [] {
      var n := |events| - 1;
      RunKeepsInv(states, events, n);
      ShapeOf(states[n]);
      assert Follows(states[n], states[n + 1], events[n]);
      RoundEnds(states[..n + 1], events[..n]);
      StepsTake(states[n], states[n + 1], events[n].thread, events[n].step);
      StepsTakeAll(states[n], states[n + 1], events[n].thread, |states[n].threads|);
    }
  }

  lemma ShapeOf(s: State)
    requires BarrierInv(s)
    ensures |s.threads| == |s.pins| > 0
  {}

  lemma {:induction false} NoneLeft(s: State, n: nat)
    requires n <= |s.threads| == |s.pins|
    ensures AllLeft(s, n) == 0 <==> forall t :: 0 <= t < n ==> s.threads[t].Done?
  {
    if n > 0 { NoneLeft(s, n - 1); }
  }

  /** Compacting or jumbling a page is a legal move for the leader: by SizedPage.Compact and
      SizedPage.Jumble the new page holds the same objects. */
  lemma CompactionIsAMove(s: State, p: Page, q: Page)
    requires BarrierInv(s) && s.threads[0].Parked?
    requires p.Valid() && q.Valid() && p.table == s.table && SameObjects(p, q)
    ensures Next(s, s.(table := q.table), 0, Move(q.table))
  {
    forall h | 0 <= h < |s.table|
      ensures q.table[h].pinned == p.table[h].pinned && q.table[h].free == p.table[h].free
      ensures p.table[h].pinned ==> q.table[h] == p.table[h]
    {
      if h in p.Live() {
        assert SameMapping(p, q, h);
        p.LiveSlot(h);
        assert p.Bound(p.table[h].ptr.slot);
      }
    }
  }

  lemma LocalityCompactionIsAMove(s: State, p: LocalityPages.Page, q: LocalityPages.Page)
    requires BarrierInv(s) && s.threads[0].Parked?
    requires p.Valid() && q.Valid() && p.table == s.table && LocalityPages.SameObjects(p, q)
    ensures Next(s, s.(table := q.table), 0, Move(q.table))
  {
    forall h | 0 <= h < |s.table|
      ensures q.table[h].pinned == p.table[h].pinned && q.table[h].free == p.table[h].free
      ensures p.table[h].pinned ==> q.table[h] == p.table[h]
    {
      assert q.table[h] == p.table[h] || q.table[h] == p.table[h].SetPointer(q.table[h].ptr);
    }
  }

  /** Three threads, of which thread 1 has handle 0 in its pin set. */
  function Three(a: Phase, b: Phase, c: Phase, gen: nat, count: nat, entry: Mapping): State {
    State([a, b, c], [{}, {0}, {}], gen, count, [entry])
  }

  /** Handle h is live and in the pin set that thread t holds, and its entry is not pinned. */
  ghost predicate PinLost(s: State, t: nat, h: nat) {
    && t < |s.threads| == |s.pins| && h in s.pins[t] && h in Held(s, t)
    && h < |s.table| && !s.table[h].free && !s.table[h].pinned
  }

  ghost predicate RunTo(states: seq<State>, events: seq<Event>, s: State) {
    Run(states, events) && states[|events|] == s
  }

  /** One more step. */
  lemma Then(states: seq<State>, events: seq<Event>, s': State, t: nat, step: Step)
      returns (states': seq<State>, events': seq<Event>)
    requires states != [] && RunTo(states, events, states[|states| - 1])
    requires Follows(states[|states| - 1], s', Event(t, step))
    ensures states' != [] && states'[|states'| - 1] == s' && RunTo(states', events', s')
  {
    states', events' := states + [s'], events + [Event(t, step)];
    hide Follows;
    forall i | 0 <= i < |events'| ensures Follows(states'[i], states'[i + 1], events'[i]) {
      if i < |events| { assert Follows(states[i], states[i + 1], events[i]); }
    }
  }

  lemma EndsBadly(states: seq<State>, events: seq<Event>, e: Mapping)
    requires RunTo(states, events, Three(Parked, Waiting1(0), Waiting1(0), 1, 0, e)) && !e.free && !e.pinned
    ensures Run(states, events) && |states[|events|].threads| == 3
    ensures states[|events|].threads[0].Parked? && PinLost(states[|events|], 1, 0)
  {}

  lemma Pinned(e: Mapping)
    requires !e.free
    ensures Follows(Three(Running, Running, Running, 0, 0, e), Three(Running, Pinning({0}), Running, 0, 0, e),
                    Event(1, Enter))
    ensures Follows(Three(Running, Pinning({0}), Running, 0, 0, e),
                    Three(Running, Pinning({}), Running, 0, 0, e.(pinned := true)), Event(1, Pin(0)))
  {
    var zero: set<nat> := {0};
    assert zero - {0} == {};
  }

  lemma Overwritten(w: Phase, e: Mapping)
    requires w == Waiting1(0) && e == Mapping(e.ptr, false, false)
    ensures Follows(Three(Running, Pinning({}), Running, 0, 0, e.(pinned := true)),
                    Three(Running, Pinning({}), Running, 0, 0, e), Event(2, Store(0, e.ptr)))
    ensures Follows(Three(Running, Pinning({}), Running, 0, 0, e), Three(Running, w, Running, 0, 1, e),
                    Event(1, Arrive1))
    ensures Follows(Three(Running, w, Running, 0, 1, e), Three(Running, w, Pinning({}), 0, 1, e), Event(2, Enter))
    ensures Follows(Three(Running, w, Pinning({}), 0, 1, e), Three(Running, w, w, 0, 2, e), Event(2, Arrive1))
  {}

  lemma Joined(w: Phase, e: Mapping)
    requires w == Waiting1(0)
    ensures Follows(Three(Running, w, w, 0, 2, e), Three(Pinning({}), w, w, 0, 2, e), Event(0, Enter))
    ensures Follows(Three(Pinning({}), w, w, 0, 2, e), Three(w, w, w, 1, 0, e), Event(0, Arrive1))
    ensures Follows(Three(w, w, w, 1, 0, e), Three(Parked, w, w, 1, 0, e), Event(0, Leave1))
  {}

  /** The discipline is needed. In this run thread 1 enters and pins its handle, thread 2, still running,
      stores a pointer in it, and then all threads join: the leader is about to work on the heap while a
      live handle of a pin set is unpinned. */
  lemma UndisciplinedStoreLosesPin()
    ensures exists states: seq<State>, events ::
              && Run(states, events) && |states[|events|].threads| == 3
              && states[|events|].threads[0].Parked? && PinLost(states[|events|], 1, 0)
  {
    var e := Mapping(Address(0, 0), false, false);
    var w := Waiting1(0);
    var states, events := [Three(Running, Running, Running, 0, 0, e)], [];
    assert RunTo(states, events, Three(Running, Running, Running, 0, 0, e));
    Pinned(e);
    Overwritten(w, e);
    Joined(w, e);
    hide Follows, RunTo, Run;
    states, events := Then(states, events, Three(Running, Pinning({0}), Running, 0, 0, e), 1, Enter);
    states, events := Then(states, events, Three(Running, Pinning({}), Running, 0, 0, e.(pinned := true)), 1, Pin(0));
    states, events := Then(states, events, Three(Running, Pinning({}), Running, 0, 0, e), 2, Store(0, e.ptr));
    states, events := Then(states, events, Three(Running, w, Running, 0, 1, e), 1, Arrive1);
    states, events := Then(states, events, Three(Running, w, Pinning({}), 0, 1, e), 2, Enter);
    states, events := Then(states, events, Three(Running, w, w, 0, 2, e), 2, Arrive1);
    states, events := Then(states, events, Three(Pinning({}), w, w, 0, 2, e), 0, Enter);
    states, events := Then(states, events, Three(w, w, w, 1, 0, e), 0, Arrive1);
    states, events := Then(states, events, Three(Parked, w, w, 1, 0, e), 0, Leave1);
    EndsBadly(states, events, e);
  }
}
