/** Client calls in worker threads, made under one lock by callers that may be cancelled. */
module OperationLock {

  type Task = nat

  datatype Operation = CONSUME | CLOSE

  /** Where a caller is: waiting for the lock, holding it between calls, awaiting a call in a
      thread, or, once cancelled, waiting for that call to finish before giving up the lock. */
  datatype Phase = NEW | QUEUED | HOLDING | AWAITING | DRAINING | DONE

  datatype Caller = Caller(operation: Operation, phase: Phase, cancelled: bool)

  /** `running` holds the callers whose call is in progress in a thread. */
  datatype State = State(callers: map<Task, Caller>, owner: set<Task>, running: set<Task>)

  datatype Event =
    | Arrive(task: Task)
    | Acquire(task: Task)
    | StartCall(task: Task)
    | ThreadReturns(task: Task)
    | Resume(task: Task)
    | Leave(task: Task)
    | Cancel(task: Task)
    | Drained(task: Task)

  ghost predicate Initial(s: State) {
    && s.owner == {} && s.running == {}
    && forall t :: t in s.callers ==> s.callers[t].phase == NEW && !s.callers[t].cancelled
  }

  predicate Is(s: State, t: Task, phase: Phase) {
    t in s.callers && s.callers[t].phase == phase
  }

  predicate Enabled(s: State, e: Event) {
    match e
    case Arrive(t) => Is(s, t, NEW)
    case Acquire(t) => Is(s, t, QUEUED) && s.owner == {}
    case StartCall(t) => Is(s, t, HOLDING)
    case ThreadReturns(t) => t in s.running
    case Resume(t) => Is(s, t, AWAITING) && t !in s.running
    case Leave(t) => Is(s, t, HOLDING)
    case Cancel(t) => Is(s, t, QUEUED) || Is(s, t, AWAITING) || Is(s, t, DRAINING)
    case Drained(t) => Is(s, t, DRAINING) && t !in s.running
  }

  function Move(s: State, t: Task, phase: Phase): State
    requires t in s.callers
  {
    s.(callers := s.callers[t := s.callers[t].(phase := phase)])
  }

  /** The caller leaves the `async with` block, which releases the lock. */
  function Release(s: State, t: Task): State
    requires t in s.callers
  {
    Move(s, t, DONE).(owner := s.owner - {t})
  }

  function Next(s: State, e: Event): State
    requires Enabled(s, e)
  {
    match e
    case Arrive(t) => Move(s, t, QUEUED)
    case Acquire(t) => Move(s, t, HOLDING).(owner := {t})
    case StartCall(t) => Move(s, t, AWAITING).(running := s.running + {t})
    case ThreadReturns(t) => s.(running := s.running - {t})
    case Resume(t) => Move(s, t, HOLDING)
    case Leave(t) => Release(s, t)
    case Cancel(t) =>
      var c := s.(callers := s.callers[t := s.callers[t].(cancelled := true)]);
      // cancelled in the queue, it never gets the lock; cancelled again while draining, it
      // stops waiting although its call still runs
      if s.callers[t].phase == AWAITING then Move(c, t, DRAINING) else Release(c, t)
    case Drained(t) => Release(s, t)
  }

  /** A cancel that reaches a caller which is already waiting out an earlier one. */
  predicate SecondCancel(s: State, e: Event) {
    e.Cancel? && Is(s, e.task, DRAINING)
  }

  ghost predicate Run(s: State, events: seq<Event>)
    decreases |events|
  {
    events == [] || (Enabled(s, events[0]) && Run(Next(s, events[0]), events[1..]))
  }

  function After(s: State, events: seq<Event>): State
    requires Run(s, events)
    decreases |events|
  {
    if events == [] then s else After(Next(s, events[0]), events[1..])
  }

  /** A second cancel while the call still runs: the caller leaves its call behind. */
  predicate Abandons(s: State, e: Event) {
    SecondCancel(s, e) && e.task in s.running
  }

  /** No caller leaves its call behind along the run. */
  ghost predicate NeverAbandons(s: State, events: seq<Event>)
    requires Run(s, events)
    decreases |events|
  {
    events == [] || (!Abandons(s, events[0]) && NeverAbandons(Next(s, events[0]), events[1..]))
  }

  ghost predicate Safe(s: State) {
    && (forall t, u :: t in s.owner && u in s.owner ==> t == u)
    && (forall t :: t in s.owner <==> Is(s, t, HOLDING) || Is(s, t, AWAITING) || Is(s, t, DRAINING))
    && (forall t :: t in s.running ==> Is(s, t, AWAITING) || Is(s, t, DRAINING))
    && (forall t :: t in s.callers && s.callers[t].phase !in {DRAINING, DONE} ==> !s.callers[t].cancelled)
    && (forall t :: Is(s, t, DRAINING) ==> s.callers[t].cancelled)
  }

  /** A call in a thread belongs to the caller that holds the lock, so no two calls overlap;
      in particular the client is not closed during another call. */
  ghost predicate Exclusive(s: State) {
    && (forall t :: t in s.running ==> t in s.owner)
    && (forall t, u :: t in s.running && u in s.running ==> t == u)
  }

  /** Calls are exclusive in every state of the run. */
  ghost predicate AlwaysExclusive(s: State, events: seq<Event>)
    requires Run(s, events)
    decreases |events|
  {
    Exclusive(s) && (events == [] || AlwaysExclusive(Next(s, events[0]), events[1..]))
  }

  lemma SafeStep(s: State, e: Event)
    requires Safe(s) && Enabled(s, e)
    ensures if Abandons(s, e) then !Exclusive(Next(s, e)) else Safe(Next(s, e))
  {
    if Abandons(s, e) {
      assert e.task in Next(s, e).running && e.task !in Next(s, e).owner;
    }
  }

  /** Calls stay exclusive along a run exactly when no second cancel reaches a caller whose call
      still runs; a second cancel after the call has returned does no harm. */
  lemma {:induction false} ExclusiveExact(s: State, events: seq<Event>)
    requires Safe(s) && Run(s, events)
    ensures AlwaysExclusive(s, events) <==> NeverAbandons(s, events)
    ensures NeverAbandons(s, events) ==> Safe(After(s, events))
    decreases |events|
  {
    if events != [] {
      SafeStep(s, events[0]);
      if !Abandons(s, events[0]) {
        ExclusiveExact(Next(s, events[0]), events[1..]);
      }
    }
  }

  /** While `aclose` runs the close call, nobody else has a call running or holds the lock. */
  lemma CloseRunsAlone(s: State, events: seq<Event>, closer: Task, other: Task)
    requires Initial(s) && Run(s, events) && NeverAbandons(s, events)
    requires closer in After(s, events).running && closer in s.callers && s.callers[closer].operation == CLOSE
    requires other != closer
    ensures other !in After(s, events).running && other !in After(s, events).owner
  {
    ExclusiveExact(s, events);
  }

  /** A cancelled caller that is still in the queue leaves without the lock, one that awaits a call
      keeps the lock and the call, and one that waits a cancel out gives up the lock but not the call. */
  lemma CancelExact(s: State, t: Task)
    requires Safe(s) && t in s.callers
    ensures Enabled(s, Cancel(t)) <==> s.callers[t].phase in {QUEUED, AWAITING, DRAINING}
    ensures Enabled(s, Cancel(t)) ==>
              var phase, after := s.callers[t].phase, Next(s, Cancel(t));
              && after.running == s.running
              && after.owner == (if phase == DRAINING then {} else s.owner)
              && after.callers == s.callers[t := Caller(s.callers[t].operation,
                                                        if phase == AWAITING then DRAINING else DONE, true)]
  {
    if s.callers[t].phase == QUEUED {
      assert !Is(s, t, HOLDING) && !Is(s, t, AWAITING) && !Is(s, t, DRAINING);
    } else if s.callers[t].phase == DRAINING {
      assert Is(s, t, DRAINING);
    }
  }

  /** A call that returns leaves its caller where it was, holding the lock and free to call again. */
  lemma CallReturns(s: State, t: Task)
    requires Safe(s) && Is(s, t, HOLDING)
    ensures Enabled(s, StartCall(t))
    ensures var calling := Next(s, StartCall(t));
            && Enabled(calling, ThreadReturns(t)) && !Enabled(calling, Resume(t))
            && var returned := Next(calling, ThreadReturns(t));
               Enabled(returned, Resume(t)) && Next(returned, Resume(t)) == s
  {
    assert t !in s.running;
    var c := s.callers[t];
    assert s.callers[t := c.(phase := AWAITING)][t := c] == s.callers;
    assert s.running + {t} - {t} == s.running;
  }

  /** A caller that arrives gets the lock once it is free, and leaves it free. */
  lemma LockComesFree(s: State, t: Task)
    requires Safe(s) && Is(s, t, NEW) && s.owner == {}
    ensures var queued := Next(s, Arrive(t));
            && queued.owner == {} && Enabled(queued, Acquire(t))
            && var holding := Next(queued, Acquire(t));
               && holding.owner == {t} && Enabled(holding, Leave(t))
               && Next(holding, Leave(t)).owner == {} && Is(Next(holding, Leave(t)), t, DONE)
  {
  }

  /** A cancelled call keeps the lock until it returns; then the caller is done and the lock free. */
  lemma CancelledCallDrains(s: State, t: Task)
    requires Safe(s) && Is(s, t, AWAITING) && t in s.running
    ensures var draining := Next(s, Cancel(t));
            && draining.owner == {t} && !Enabled(draining, Drained(t)) && Enabled(draining, ThreadReturns(t))
            && var returned := Next(draining, ThreadReturns(t));
               && returned.owner == {t} && Enabled(returned, Drained(t))
               && Next(returned, Drained(t)).owner == {} && Is(Next(returned, Drained(t)), t, DONE)
  {
    assert t in s.owner;
  }

  /** A consumer, task 0, and a closer, task 1. */
  function Pair(consumer: Phase, cancelled: bool, closer: Phase, owner: set<Task>, running: set<Task>): State {
    State(map[0 := Caller(CONSUME, consumer, cancelled), 1 := Caller(CLOSE, closer, false)], owner, running)
  }

  ghost predicate Step(s: State, e: Event, t: State) {
    Enabled(s, e) && Next(s, e) == t
  }

  lemma OverlapSetUp()
    ensures Step(Pair(NEW, false, NEW, {}, {}), Arrive(0), Pair(QUEUED, false, NEW, {}, {}))
    ensures Step(Pair(QUEUED, false, NEW, {}, {}), Arrive(1), Pair(QUEUED, false, QUEUED, {}, {}))
    ensures Step(Pair(QUEUED, false, QUEUED, {}, {}), Acquire(0), Pair(HOLDING, false, QUEUED, {0}, {}))
    ensures Step(Pair(HOLDING, false, QUEUED, {0}, {}), StartCall(0), Pair(AWAITING, false, QUEUED, {0}, {0}))
    ensures Step(Pair(AWAITING, false, QUEUED, {0}, {0}), Cancel(0), Pair(DRAINING, true, QUEUED, {0}, {0}))
  {
  }

  lemma OverlapHappens()
    ensures Step(Pair(DRAINING, true, QUEUED, {0}, {0}), Cancel(0), Pair(DONE, true, QUEUED, {}, {0}))
    ensures Abandons(Pair(DRAINING, true, QUEUED, {0}, {0}), Cancel(0))
    ensures Step(Pair(DONE, true, QUEUED, {}, {0}), Acquire(1), Pair(DONE, true, HOLDING, {1}, {0}))
    ensures Step(Pair(DONE, true, HOLDING, {1}, {0}), StartCall(1), Pair(DONE, true, AWAITING, {1}, {0, 1}))
  {
  }

  /** The run leads from `s` to `t`, and a caller leaves its call behind on the way. */
  ghost predicate LeadsOverCancels(s: State, events: seq<Event>, t: State) {
    Run(s, events) && After(s, events) == t && !NeverAbandons(s, events)
  }

  lemma StepBefore(s: State, e: Event, t: State, events: seq<Event>, u: State)
    requires Step(s, e, t)
    requires LeadsOverCancels(t, events, u) || (Abandons(s, e) && Run(t, events) && After(t, events) == u)
    ensures LeadsOverCancels(s, [e] + events, u)
  {
    assert ([e] + events)[1..] == events;
  }

  lemma OverlapTail() returns (events: seq<Event>)
    ensures LeadsOverCancels(Pair(DRAINING, true, QUEUED, {0}, {0}), events, Pair(DONE, true, AWAITING, {1}, {0, 1}))
  {
    OverlapHappens();
    hide Next, Enabled;
    events := [Acquire(1), StartCall(1)];
    assert events[1..] == [StartCall(1)] && events[1..][1..] == [];
    StepBefore(Pair(DRAINING, true, QUEUED, {0}, {0}), Cancel(0), Pair(DONE, true, QUEUED, {}, {0}), events,
               Pair(DONE, true, AWAITING, {1}, {0, 1}));
    events := [Cancel(0)] + events;
  }

  /** A second cancel is what it takes: it lets a close run during a consume call. */
  lemma SecondCancelOverlaps() returns (events: seq<Event>)
    ensures Initial(Pair(NEW, false, NEW, {}, {}))
    ensures LeadsOverCancels(Pair(NEW, false, NEW, {}, {}), events, Pair(DONE, true, AWAITING, {1}, {0, 1}))
  {
    assert Initial(Pair(NEW, false, NEW, {}, {}));
    hide Initial, Step, Pair, LeadsOverCancels;
    var last := Pair(DONE, true, AWAITING, {1}, {0, 1});
    events := OverlapTail();
    OverlapSetUp();
    StepBefore(Pair(AWAITING, false, QUEUED, {0}, {0}), Cancel(0),
               Pair(DRAINING, true, QUEUED, {0}, {0}), events, last);
    events := [Cancel(0)] + events;
    StepBefore(Pair(HOLDING, false, QUEUED, {0}, {}), StartCall(0),
               Pair(AWAITING, false, QUEUED, {0}, {0}), events, last);
    events := [StartCall(0)] + events;
    StepBefore(Pair(QUEUED, false, QUEUED, {}, {}), Acquire(0),
               Pair(HOLDING, false, QUEUED, {0}, {}), events, last);
    events := [Acquire(0)] + events;
    StepBefore(Pair(QUEUED, false, NEW, {}, {}), Arrive(1), Pair(QUEUED, false, QUEUED, {}, {}), events, last);
    events := [Arrive(1)] + events;
    StepBefore(Pair(NEW, false, NEW, {}, {}), Arrive(0), Pair(QUEUED, false, NEW, {}, {}), events, last);
    events := [Arrive(0)] + events;
  }

  // ---- progress

  /** What happens without a new call being started or a caller being cancelled. */
  predicate Finishing(e: Event) {
    !e.StartCall? && !e.Cancel?
  }

  /** The callers in one of the given phases. */
  function InPhase(s: State, phases: set<Phase>): set<Task> {
    set t | t in s.callers && s.callers[t].phase in phases
  }

  /** Finishing events left at most: a step to each later phase, and a return for each call. */
  function Work(s: State): nat {
    |InPhase(s, {NEW})| + |InPhase(s, {NEW, QUEUED, AWAITING})|
    + |InPhase(s, {NEW, QUEUED, HOLDING, AWAITING, DRAINING})| + |s.running|
  }

  lemma Shrinks<T>(small: set<T>, large: set<T>)
    requires small <= large
    ensures |small| <= |large| && (small != large ==> |small| < |large|)
  {
    assert |large| == |small| + |large - small| by {
      assert large == small + (large - small);
    }
    if small != large {
      var x :| x in large - small;
    }
  }

  lemma WorkDrops(s: State, e: Event)
    requires Enabled(s, e) && Finishing(e)
    ensures Work(Next(s, e)) < Work(s)
  {
    var t := Next(s, e);
    Shrinks(InPhase(t, {NEW}), InPhase(s, {NEW}));
    Shrinks(InPhase(t, {NEW, QUEUED, AWAITING}), InPhase(s, {NEW, QUEUED, AWAITING}));
    var unfinished := {NEW, QUEUED, HOLDING, AWAITING, DRAINING};
    Shrinks(InPhase(t, unfinished), InPhase(s, unfinished));
    Shrinks(t.running, s.running);
    match e
    case Arrive(u) => assert u in InPhase(s, {NEW}) && u !in InPhase(t, {NEW});
    case Acquire(u) => assert u in InPhase(s, {NEW, QUEUED, AWAITING}) && u !in InPhase(t, {NEW, QUEUED, AWAITING});
    case Resume(u) => assert u in InPhase(s, {NEW, QUEUED, AWAITING}) && u !in InPhase(t, {NEW, QUEUED, AWAITING});
    case Leave(u) => assert u in InPhase(s, unfinished) && u !in InPhase(t, unfinished);
    case Drained(u) => assert u in InPhase(s, unfinished) && u !in InPhase(t, unfinished);
    case _ =>
  }

  /** In a safe state somebody can always go on without a new call or a cancel, unless all are done. */
  lemma NoDeadlock(s: State, t: Task)
    requires Safe(s) && t in s.callers && s.callers[t].phase != DONE
    ensures exists e :: Finishing(e) && Enabled(s, e)
  {
    if s.owner != {} {
      var u :| u in s.owner;
      var e := if u in s.running then ThreadReturns(u)
               else if Is(s, u, HOLDING) then Leave(u)
               else if Is(s, u, AWAITING) then Resume(u)
               else Drained(u);
      assert Finishing(e) && Enabled(s, e);
    } else {
      assert t !in s.owner && !Is(s, t, HOLDING) && !Is(s, t, AWAITING) && !Is(s, t, DRAINING);
      var e := if Is(s, t, NEW) then Arrive(t) else Acquire(t);
      assert Finishing(e) && Enabled(s, e);
    }
  }

  ghost predicate FinishingRun(s: State, events: seq<Event>) {
    Run(s, events) && forall i :: 0 <= i < |events| ==> Finishing(events[i])
  }

  /** Once no new calls are made, everybody gets the lock and finishes, in whatever order threads
      and callers run: such a run is short, and it can go on until all callers are done. */
  lemma {:induction false} AllFinish(s: State, events: seq<Event>)
    requires Safe(s) && FinishingRun(s, events)
    ensures |events| <= Work(s)
    ensures (forall t :: t in s.callers ==> Is(After(s, events), t, DONE))
            || exists e :: Finishing(e) && Enabled(After(s, events), e)
    decreases |events|
  {
    if events == [] {
      if t :| t in s.callers && !Is(s, t, DONE) {
        NoDeadlock(s, t);
      }
    } else {
      assert Finishing(events[0]);
      SafeStep(s, events[0]);
      WorkDrops(s, events[0]);
      assert forall i :: 0 <= i < |events[1..]| ==> events[1..][i] == events[i + 1];
      AllFinish(Next(s, events[0]), events[1..]);
    }
  }
}
