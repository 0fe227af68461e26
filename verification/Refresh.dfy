/** The refresh coordinator and the topic list that drives it with workers, callbacks and timers. */
module Refresh {
  import opened Options

  datatype Reason = INITIAL | MANUAL | PERIODIC | RESUME | MUTATION | PENDING

  datatype Coordinator = Coordinator(generation: nat, active: bool, pending: bool, mutating: bool)
  {
    function Request(reason: Reason): (Coordinator, Option<nat>) {
      if active || mutating then (this.(pending := pending || reason != PERIODIC), None)
      else (this.(generation := generation + 1, active := true), Some(generation + 1))
    }

    predicate IsCurrent(g: nat) {
      active && g == generation
    }

    function Complete(g: nat): (Coordinator, bool) {
      if IsCurrent(g) then (this.(active := false), true) else (this, false)
    }

    function TakePending(): (Coordinator, bool) {
      if pending && !active && !mutating then (this.(pending := false), true) else (this, false)
    }
  }

  /** The coordinator as the source keeps it, four fields updated in place. */
  class RefreshCoordinator {
    var generation: nat
    var active: bool
    var pending: bool
    var mutating: bool

    constructor ()
      ensures Value() == Coordinator(0, false, false, false)
    {
      generation, active, pending, mutating := 0, false, false, false;
    }

    ghost function Value(): Coordinator
      reads this
    {
      Coordinator(generation, active, pending, mutating)
    }

    method Request(reason: Reason) returns (started: Option<nat>)
      modifies this
      ensures (Value(), started) == old(Value()).Request(reason)
    {
      if active || mutating {
        if reason != PERIODIC {
          pending := true;
        }
        return None;
      }
      generation := generation + 1;
      active := true;
      return Some(generation);
    }

    method Complete(g: nat) returns (completed: bool)
      modifies this
      ensures (Value(), completed) == old(Value()).Complete(g)
    {
      if !(active && g == generation) {
        return false;
      }
      active := false;
      return true;
    }

    method TakePending() returns (taken: bool)
      modifies this
      ensures (Value(), taken) == old(Value()).TakePending()
    {
      if !pending || active || mutating {
        return false;
      }
      pending := false;
      return true;
    }

    method BeginMutation()
      modifies this
      ensures Value() == old(Value()).(mutating := true)
    {
      mutating := true;
    }

    method EndMutation()
      modifies this
      ensures Value() == old(Value()).(mutating := false)
    {
      mutating := false;
    }

    method DiscardPending()
      modifies this
      ensures Value() == old(Value()).(pending := false)
    {
      pending := false;
    }
  }

  /** The topic list: its coordinator, whether it is still mounted, the queued callbacks and the
      running timers that will ask for a refresh, the refresh workers that have not finished, by
      generation, and the number of running mutation workers. `served` and `owed` are history:
      the generations that completed, and whether a refused request still waits for a start. */
  datatype TopicList = TopicList(
    coordinator: Coordinator,
    attached: bool,
    callbacks: nat,
    timers: nat,
    workers: set<nat>,
    mutations: nat,
    served: seq<nat>,
    owed: bool)

  const MOUNTED := TopicList(Coordinator(0, false, false, false), true, 0, 0, {}, 0, [], false)

  datatype Event =
    | Ask(reason: Reason)
    | FinishRefresh(generation: nat)
    | BeginMutation
    | FinishMutation(changed: bool)
    | RunCallback
    | FireTimer
    | Detach

  predicate Enabled(s: TopicList, e: Event) {
    match e
    case Ask(_) => true
    case FinishRefresh(g) => g in s.workers
    case BeginMutation => true
    case FinishMutation(_) => s.mutations > 0
    case RunCallback => s.callbacks > 0
    case FireTimer => s.timers > 0
    case Detach => s.attached
  }

  function Requested(s: TopicList, reason: Reason): TopicList {
    var (c, started) := s.coordinator.Request(reason);
    match started
    case Some(g) => s.(coordinator := c, workers := s.workers + {g}, owed := false)
    case None => s.(coordinator := c, owed := s.owed || reason != PERIODIC)
  }

  function Completed(s: TopicList, g: nat): TopicList {
    var (c, completed) := s.coordinator.Complete(g);
    var done := s.(coordinator := c, workers := s.workers - {g},
                   served := if completed then s.served + [g] else s.served);
    if !completed || !s.attached then done
    else
      var (d, taken) := c.TakePending();
      done.(coordinator := d, callbacks := done.callbacks + if taken then 1 else 0)
  }

  function MutationEnded(s: TopicList, changed: bool): TopicList
    requires s.mutations > 0
  {
    var ended := s.(mutations := s.mutations - 1, coordinator := s.coordinator.(mutating := false));
    if changed then
      ended.(coordinator := ended.coordinator.(pending := false), timers := ended.timers + 1)
    else
      var (c, taken) := ended.coordinator.TakePending();
      ended.(coordinator := c, callbacks := ended.callbacks + if taken then 1 else 0)
  }

  function Next(s: TopicList, e: Event): TopicList
    requires Enabled(s, e)
  {
    match e
    case Ask(reason) => Requested(s, reason)
    case FinishRefresh(g) => Completed(s, g)
    case BeginMutation => s.(mutations := s.mutations + 1, coordinator := s.coordinator.(mutating := true))
    case FinishMutation(changed) => MutationEnded(s, changed)
    case RunCallback => Requested(s.(callbacks := s.callbacks - 1), PENDING)
    case FireTimer => Requested(s.(timers := s.timers - 1), MUTATION)
    case Detach => s.(attached := false, callbacks := 0, timers := 0)
  }

  ghost predicate Run(s: TopicList, events: seq<Event>)
    decreases |events|
  {
    events == [] || (Enabled(s, events[0]) && Run(Next(s, events[0]), events[1..]))
  }

  function After(s: TopicList, events: seq<Event>): TopicList
    requires Run(s, events)
    decreases |events|
  {
    if events == [] then s else After(Next(s, events[0]), events[1..])
  }

  function UpTo(n: nat): seq<nat> {
    seq(n, i requires 0 <= i < n => i + 1)
  }

  ghost predicate Safe(s: TopicList) {
    // one refresh worker at most, the current generation's; earlier generations completed in order
    && s.workers == (if s.coordinator.active then {s.coordinator.generation} else {})
    && s.coordinator.generation == |s.served| + (if s.coordinator.active then 1 else 0)
    && s.served == UpTo(|s.served|)
    // the mutation flag is never left behind
    && (s.coordinator.mutating ==> s.mutations > 0)
    // a mounted list never forgets a refused request
    && (s.attached && s.coordinator.pending ==> s.coordinator.active || s.coordinator.mutating)
    && (s.attached && s.owed ==> s.coordinator.pending || s.callbacks > 0 || s.timers > 0)
  }

  lemma SafeStep(s: TopicList, e: Event)
    requires Safe(s) && Enabled(s, e)
    ensures Safe(Next(s, e))
    ensures Next(s, e).coordinator.generation > s.coordinator.generation ==>
              && Next(s, e).coordinator.generation == s.coordinator.generation + 1
              && !s.coordinator.mutating && !s.coordinator.active && !Next(s, e).owed
    ensures Next(s, e).coordinator.generation >= s.coordinator.generation
  {
    var t := Next(s, e);
    if |t.served| > |s.served| {
      assert UpTo(|t.served|) == UpTo(|s.served|) + [|s.served| + 1];
    }
  }

  /** In every run generations complete one at a time in order, none starts while the mutation
      flag is set, and a refused request stays owed until a later generation starts. */
  lemma {:induction false} SafeRun(s: TopicList, events: seq<Event>)
    requires Safe(s) && Run(s, events)
    ensures Safe(After(s, events))
    ensures After(s, events).coordinator.generation >= s.coordinator.generation
    decreases |events|
  {
    if events != [] {
      SafeStep(s, events[0]);
      SafeRun(Next(s, events[0]), events[1..]);
    }
  }

  /** Every running worker is the current generation's, so no stage ever finds itself replaced. */
  lemma WorkersAreCurrent(events: seq<Event>, g: nat)
    requires Run(MOUNTED, events) && g in After(MOUNTED, events).workers
    ensures After(MOUNTED, events).coordinator.IsCurrent(g)
  {
    SafeRun(MOUNTED, events);
  }

  lemma AlwaysSafe(events: seq<Event>)
    requires Run(MOUNTED, events)
    ensures var s := After(MOUNTED, events);
            && Safe(s)
            && (s.attached && !s.coordinator.active && !s.coordinator.mutating && s.callbacks == 0 && s.timers == 0 ==>
                  !s.owed)
  {
    SafeRun(MOUNTED, events);
  }

  // ---- what each event does to a list that has run since it was mounted

  /** The events that ask for a refresh: a user or a timer, a callback queued for a pending request,
      or the delay after a mutation. */
  predicate Asks(e: Event) {
    e.Ask? || e.RunCallback? || e.FireTimer?
  }

  /** The list without the callback or the timer that an asking event uses up. */
  function Consumed(s: TopicList, e: Event): TopicList
    requires Enabled(s, e)
  {
    match e
    case RunCallback => s.(callbacks := s.callbacks - 1)
    case FireTimer => s.(timers := s.timers - 1)
    case _ => s
  }

  /** An idle list starts the next generation whoever asks, a periodic timer included, and owes
      nothing any more; only a pending request stays recorded. */
  lemma IdleStarts(events: seq<Event>, e: Event)
    requires Run(MOUNTED, events) && Asks(e) && Enabled(After(MOUNTED, events), e)
    requires !After(MOUNTED, events).coordinator.active && !After(MOUNTED, events).coordinator.mutating
    ensures var s := After(MOUNTED, events);
            var g := |s.served| + 1;
            Next(s, e) == Consumed(s, e).(
              coordinator := Coordinator(g, true, s.coordinator.pending, false), workers := {g}, owed := false)
  {
    SafeRun(MOUNTED, events);
  }

  /** A list that is refreshing or changing starts nothing: a periodic request is forgotten, any
      other is pending and owed. */
  lemma BusyRefuses(events: seq<Event>, e: Event)
    requires Run(MOUNTED, events) && Asks(e) && Enabled(After(MOUNTED, events), e)
    requires After(MOUNTED, events).coordinator.active || After(MOUNTED, events).coordinator.mutating
    ensures var s := After(MOUNTED, events);
            Next(s, e) == if e == Ask(PERIODIC) then s
                          else Consumed(s, e).(coordinator := s.coordinator.(pending := true), owed := true)
  {
  }

  /** The worker that finishes is the only one, and its generation is the current one; a mounted list
      that no mutation holds up turns a pending request into a callback. */
  lemma FinishServes(events: seq<Event>, g: nat)
    requires Run(MOUNTED, events) && g in After(MOUNTED, events).workers
    ensures var s := After(MOUNTED, events);
            var again := s.attached && s.coordinator.pending && !s.coordinator.mutating;
            && g == |s.served| + 1
            && Next(s, FinishRefresh(g)) == s.(
                 coordinator := Coordinator(g, false, s.coordinator.pending && !again, s.coordinator.mutating),
                 workers := {}, served := s.served + [g], callbacks := s.callbacks + if again then 1 else 0)
  {
    SafeRun(MOUNTED, events);
  }

  /** A mutation that changed something drops a pending request for a refresh of its own; another one
      turns it into a callback, unless a refresh is running. */
  lemma MutationFinishes(events: seq<Event>, changed: bool)
    requires Run(MOUNTED, events) && After(MOUNTED, events).mutations > 0
    ensures var s := After(MOUNTED, events);
            var again := !changed && s.coordinator.pending && !s.coordinator.active;
            Next(s, FinishMutation(changed)) == s.(
              mutations := s.mutations - 1,
              coordinator := s.coordinator.(mutating := false, pending := s.coordinator.pending && !changed && !again),
              timers := s.timers + (if changed then 1 else 0),
              callbacks := s.callbacks + if again then 1 else 0)
  {
  }

  predicate Internal(e: Event) {
    !e.Ask? && !e.BeginMutation? && !e.Detach?
  }

  function Work(s: TopicList): nat {
    2 * (if s.coordinator.active then 1 else 0) + 2 * s.mutations + s.callbacks + s.timers
  }

  ghost predicate InternalRun(s: TopicList, events: seq<Event>) {
    Run(s, events) && forall i :: 0 <= i < |events| ==> Internal(events[i])
  }

  ghost predicate Starts(s: TopicList, events: seq<Event>)
    requires Run(s, events)
  {
    After(s, events).coordinator.generation > s.coordinator.generation
  }

  lemma OwedIsNotStuck(s: TopicList)
    requires Safe(s) && s.attached && s.owed
    ensures exists e :: Internal(e) && Enabled(s, e)
  {
    assert Internal(RunCallback) && Internal(FireTimer) && Internal(FinishMutation(true));
    assert Internal(FinishRefresh(s.coordinator.generation));
    if s.callbacks > 0 {
      assert Enabled(s, RunCallback);
    } else if s.timers > 0 {
      assert Enabled(s, FireTimer);
    } else if s.coordinator.mutating {
      assert Enabled(s, FinishMutation(true));
    } else {
      assert Enabled(s, FinishRefresh(s.coordinator.generation));
    }
  }

  /** A refused request is served however the pending work is scheduled: as long as a run of
      internal events has not started a generation, it is short and can still go on. */
  lemma {:induction false} OwedIsServed(s: TopicList, events: seq<Event>)
    requires Safe(s) && s.attached && s.owed && InternalRun(s, events)
    ensures Starts(s, events) || (|events| <= Work(s) && exists e :: Internal(e) && Enabled(After(s, events), e))
    decreases |events|
  {
    if events == [] {
      OwedIsNotStuck(s);
    } else {
      var t := Next(s, events[0]);
      assert Internal(events[0]);
      SafeStep(s, events[0]);
      assert forall i :: 0 <= i < |events[1..]| ==> events[1..][i] == events[i + 1];
      if t.coordinator.generation > s.coordinator.generation {
        SafeRun(t, events[1..]);
      } else {
        assert Work(t) < Work(s);
        OwedIsServed(t, events[1..]);
      }
    }
  }

  /** The flag is not a counter: with overlapping mutations, a refresh can start while one of
      them still runs. */
  lemma OverlappingMutationsUnlock()
    ensures var events := [BeginMutation, BeginMutation, FinishMutation(false), Ask(MANUAL)];
            Run(MOUNTED, events) && After(MOUNTED, events).mutations > 0 && After(MOUNTED, events).coordinator.active
  {
    var events := [BeginMutation, BeginMutation, FinishMutation(false), Ask(MANUAL)];
    assert events[1..] == [BeginMutation, FinishMutation(false), Ask(MANUAL)];
    assert events[1..][1..] == [FinishMutation(false), Ask(MANUAL)];
    assert events[1..][1..][1..] == [Ask(MANUAL)];
    assert events[1..][1..][1..][1..] == [];
  }

  ghost predicate FlagMatches(s: TopicList) {
    s.coordinator.mutating <==> s.mutations > 0
  }

  /** The flag says in every state of the run whether a mutation runs. */
  ghost predicate FlagAlwaysMatches(s: TopicList, events: seq<Event>)
    requires Run(s, events)
    decreases |events|
  {
    FlagMatches(s) && (events == [] || FlagAlwaysMatches(Next(s, events[0]), events[1..]))
  }

  /** Mutations may start while others run, but none finishes while another still runs. */
  ghost predicate FinishAlone(s: TopicList, events: seq<Event>)
    requires Run(s, events)
    decreases |events|
  {
    events == [] ||
    ((events[0].FinishMutation? ==> s.mutations == 1) && FinishAlone(Next(s, events[0]), events[1..]))
  }

  /** The flag is exact along a run if and only if every mutation that finishes is the only one. */
  lemma {:induction false} FlagIsExact(s: TopicList, events: seq<Event>)
    requires FlagMatches(s) && Run(s, events)
    ensures FlagAlwaysMatches(s, events) <==> FinishAlone(s, events)
    decreases |events|
  {
    if events != [] {
      var t := Next(s, events[0]);
      assert FlagMatches(t) <==> (events[0].FinishMutation? ==> s.mutations == 1);
      if FlagMatches(t) {
        FlagIsExact(t, events[1..]);
      }
    }
  }

  /** The list as the source runs it, one handler at a time over its coordinator. */
  class ListTopics {
    const coordinator: RefreshCoordinator
    var attached: bool
    var callbacks: nat
    var timers: nat
    var workers: set<nat>
    var mutations: nat
    ghost var served: seq<nat>
    ghost var owed: bool

    constructor ()
      ensures fresh(coordinator) && Value() == MOUNTED
    {
      coordinator := new RefreshCoordinator();
      attached, callbacks, timers, workers, mutations, served, owed := true, 0, 0, {}, 0, [], false;
    }

    ghost function Value(): TopicList
      reads this, coordinator
    {
      TopicList(coordinator.Value(), attached, callbacks, timers, workers, mutations, served, owed)
    }

    method RequestRefresh(reason: Reason)
      modifies this, coordinator
      ensures Value() == Requested(old(Value()), reason)
    {
      var generation := coordinator.Request(reason);
      if generation.Some? {
        workers := workers + {generation.value};
        owed := false;
      } else {
        owed := owed || reason != PERIODIC;
      }
    }

    method CompleteRefresh(generation: nat)
      modifies this, coordinator
      ensures Value() == Completed(old(Value()), generation)
    {
      workers := workers - {generation};
      var completed := coordinator.Complete(generation);
      if !completed {
        return;
      }
      served := served + [generation];
      if !attached {
        return;
      }
      var taken := coordinator.TakePending();
      if taken {
        callbacks := callbacks + 1;
      }
    }

    method StartMutation()
      modifies this, coordinator
      ensures Value() == Next(old(Value()), BeginMutation)
    {
      coordinator.BeginMutation();
      mutations := mutations + 1;
    }

    method FinishMutation(refreshAfter: bool)
      requires mutations > 0
      modifies this, coordinator
      ensures Value() == MutationEnded(old(Value()), refreshAfter)
    {
      mutations := mutations - 1;
      coordinator.EndMutation();
      if refreshAfter {
        coordinator.DiscardPending();
        timers := timers + 1;
      } else {
        var taken := coordinator.TakePending();
        if taken {
          callbacks := callbacks + 1;
        }
      }
    }

    method RunCallback()
      requires callbacks > 0
      modifies this, coordinator
      ensures Value() == Next(old(Value()), Event.RunCallback)
    {
      callbacks := callbacks - 1;
      RequestRefresh(PENDING);
    }

    method FireTimer()
      requires timers > 0
      modifies this, coordinator
      ensures Value() == Next(old(Value()), Event.FireTimer)
    {
      timers := timers - 1;
      RequestRefresh(MUTATION);
    }
  }
}
