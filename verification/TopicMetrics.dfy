/** Topics whose record and group metrics are loaded in stages, each of which may fail in part. */
module TopicMetrics {
  import opened Options

  datatype MetricState = LOADING | READY | UNAVAILABLE

  datatype Partition = Partition(id: int, low: int, high: int)

  datatype GroupPartition = GroupPartition(id: int, offset: int, low: int, high: int)
  {
    /** A group without a usable offset lags by everything that is retained. */
    function LagCount(): int {
      if high <= 0 then 0
      else if offset < 0 then Max0(high - low)
      else Max0(high - offset)
    }
  }

  /** The lag of a group that is within what is retained is what it has not read; it is never more
      than the log and never negative, and all that is retained without a usable offset. */
  lemma LagExact(p: GroupPartition)
    ensures p.LagCount() >= 0
    ensures 0 <= p.offset <= p.high ==> p.offset + p.LagCount() == p.high
    ensures p.offset > p.high || p.high <= 0 ==> p.LagCount() == 0
    ensures p.offset < 0 && 0 <= p.low <= p.high ==> p.low + p.LagCount() == p.high
    ensures p.offset < 0 && p.low > p.high ==> p.LagCount() == 0
  {
  }

  datatype Group = Group(id: string, partitions: seq<GroupPartition>)

  datatype TopicValue = TopicValue(
    name: string,
    partitions: seq<Partition>,
    groups: seq<Group>,
    recordsState: MetricState,
    groupsState: MetricState)

  function Max0(n: int): int {
    if n < 0 then 0 else n
  }

  /** One request for the first and last offsets of every partition; failed ones are missing. */
  datatype Load = Load(earliest: map<(string, int), int>, latest: map<(string, int), int>)
  {
    predicate Has(name: string, id: int) {
      (name, id) in earliest && (name, id) in latest
    }

    predicate Complete(t: TopicValue) {
      forall i :: 0 <= i < |t.partitions| ==> Has(t.name, t.partitions[i].id)
    }
  }

  function Ids(t: TopicValue): set<int> {
    set i | 0 <= i < |t.partitions| :: t.partitions[i].id
  }

  ghost predicate DistinctIds(t: TopicValue) {
    forall i, j :: 0 <= i < j < |t.partitions| ==> t.partitions[i].id != t.partitions[j].id
  }

  /** The partition with an ID, as a dictionary of the partitions finds it. */
  function ById(partitions: seq<Partition>, id: int): (p: Partition)
    requires exists i :: 0 <= i < |partitions| && partitions[i].id == id
    ensures p in partitions && p.id == id
    decreases |partitions|
  {
    if partitions[|partitions| - 1].id == id then partitions[|partitions| - 1]
    else ById(partitions[..|partitions| - 1], id)
  }

  // ---- the stages, on one topic

  function WithOffsets(t: TopicValue, load: Load): TopicValue {
    if !load.Complete(t) then
      if t.recordsState == READY then t else t.(recordsState := UNAVAILABLE)
    else
      t.(recordsState := READY,
         partitions := seq(|t.partitions|, i requires 0 <= i < |t.partitions| =>
           var id := t.partitions[i].id;
           Partition(id, load.earliest[(t.name, id)], load.latest[(t.name, id)])))
  }

  function WithoutGroups(t: TopicValue): TopicValue {
    t.(groups := [], groupsState := if t.recordsState == READY then READY else UNAVAILABLE)
  }

  function WithGroupsUnavailable(t: TopicValue): TopicValue {
    if t.groupsState == READY then t else t.(groupsState := UNAVAILABLE)
  }

  /** A topic read again keeps the metrics that were ready, if its partitions are the same. */
  function Preserved(previous: TopicValue, refreshed: TopicValue): TopicValue {
    if Ids(previous) != Ids(refreshed) then refreshed
    else
      var records :=
        if previous.recordsState != READY then refreshed
        else
          refreshed.(recordsState := READY,
            partitions := seq(|refreshed.partitions|, i requires 0 <= i < |refreshed.partitions| =>
              assert refreshed.partitions[i].id in Ids(refreshed);
              var found := ById(previous.partitions, refreshed.partitions[i].id);
              refreshed.partitions[i].(low := found.low, high := found.high)));
      if previous.groupsState != READY then records
      else records.(groups := previous.groups, groupsState := READY)
  }

  // ---- the list of topics over a run of refreshes

  type Topics = map<string, TopicValue>

  datatype Stage =
    | Metadata(refreshed: Topics)
    | Offsets(load: Load)
    | Groups(found: map<string, seq<Group>>, errors: bool)

  /** What the broker's metadata says: named topics with distinct partitions and no metrics yet. */
  ghost predicate Unloaded(topics: Topics) {
    forall n :: n in topics ==>
      && topics[n].name == n && DistinctIds(topics[n])
      && topics[n].groups == [] && topics[n].recordsState == LOADING && topics[n].groupsState == LOADING
  }

  function AfterStage(topics: Topics, stage: Stage): Topics {
    match stage
    case Metadata(refreshed) =>
      map n | n in refreshed :: if n in topics then Preserved(topics[n], refreshed[n]) else refreshed[n]
    case Offsets(load) =>
      map n | n in topics :: WithOffsets(topics[n], load)
    case Groups(found, errors) =>
      map n | n in topics ::
        if errors then WithGroupsUnavailable(topics[n])
        else WithoutGroups(topics[n]).(groups := if n in found then found[n] else [])
  }

  ghost predicate From(t: TopicValue, load: Load) {
    && load.Complete(t)
    && forall p :: p in t.partitions ==>
         load.Has(t.name, p.id) && p.low == load.earliest[(t.name, p.id)] && p.high == load.latest[(t.name, p.id)]
  }

  /** Shown record counts all come from one complete load, and groups are only shown with them. */
  ghost predicate Sound(t: TopicValue, loads: seq<Load>) {
    && (t.recordsState == READY ==> exists load :: load in loads && From(t, load))
    && (t.groupsState == READY ==> t.recordsState == READY)
  }

  ghost predicate AllSound(topics: Topics, loads: seq<Load>) {
    forall n :: n in topics ==> topics[n].name == n && DistinctIds(topics[n]) && Sound(topics[n], loads)
  }

  /** The loads that a run of stages has brought. */
  ghost function Loads(stages: seq<Stage>): seq<Load> {
    if stages == [] then []
    else
      var before, last := Loads(stages[..|stages| - 1]), stages[|stages| - 1];
      if last.Offsets? then before + [last.load] else before
  }

  function AfterStages(stages: seq<Stage>): Topics {
    if stages == [] then map[] else AfterStage(AfterStages(stages[..|stages| - 1]), stages[|stages| - 1])
  }

  lemma OffsetsSound(t: TopicValue, load: Load, loads: seq<Load>)
    requires Sound(t, loads)
    ensures Sound(WithOffsets(t, load), loads + [load])
  {
    var after := WithOffsets(t, load);
    if load.Complete(t) {
      forall p | p in after.partitions
        ensures load.Has(t.name, p.id)
        ensures p.low == load.earliest[(t.name, p.id)] && p.high == load.latest[(t.name, p.id)]
      {
        var i :| 0 <= i < |after.partitions| && after.partitions[i] == p;
        assert load.Has(t.name, t.partitions[i].id);
      }
      assert From(after, load);
      assert load in loads + [load];
    } else if t.recordsState == READY {
      var source :| source in loads && From(t, source);
      assert source in loads + [load];
    }
  }

  lemma PreservedSound(previous: TopicValue, refreshed: TopicValue, loads: seq<Load>)
    requires Sound(previous, loads) && previous.name == refreshed.name
    requires refreshed.recordsState == LOADING && refreshed.groupsState == LOADING
    ensures Sound(Preserved(previous, refreshed), loads)
  {
    var after := Preserved(previous, refreshed);
    if Ids(previous) == Ids(refreshed) && previous.recordsState == READY {
      var source :| source in loads && From(previous, source);
      forall i | 0 <= i < |after.partitions|
        ensures var p := after.partitions[i];
                source.Has(after.name, p.id) && p.low == source.earliest[(after.name, p.id)]
                && p.high == source.latest[(after.name, p.id)]
      {
        assert refreshed.partitions[i].id in Ids(refreshed);
        assert ById(previous.partitions, refreshed.partitions[i].id) in previous.partitions;
      }
      assert From(after, source);
    }
  }

  /** What is ready stays ready through a stage, as long as the topic keeps its partitions. */
  lemma ReadyStays(topics: Topics, stage: Stage, loads: seq<Load>, n: string)
    requires AllSound(topics, loads) && n in topics && n in AfterStage(topics, stage)
    requires Ids(topics[n]) == Ids(AfterStage(topics, stage)[n])
    requires stage.Metadata? ==> Unloaded(stage.refreshed)
    ensures topics[n].recordsState == READY ==> AfterStage(topics, stage)[n].recordsState == READY
    ensures topics[n].groupsState == READY ==> AfterStage(topics, stage)[n].groupsState == READY
  {
    if stage.Metadata? {
      SameIds(stage.refreshed[n], Preserved(topics[n], stage.refreshed[n]));
    }
  }

  lemma SameIds(t: TopicValue, u: TopicValue)
    requires |t.partitions| == |u.partitions|
    requires forall i :: 0 <= i < |t.partitions| ==> t.partitions[i].id == u.partitions[i].id
    ensures Ids(t) == Ids(u) && (DistinctIds(t) ==> DistinctIds(u))
  {
    forall id | id in Ids(t)
      ensures id in Ids(u)
    {
      var i :| 0 <= i < |t.partitions| && t.partitions[i].id == id;
      assert u.partitions[i].id == id;
    }
    forall id | id in Ids(u)
      ensures id in Ids(t)
    {
      var i :| 0 <= i < |u.partitions| && u.partitions[i].id == id;
      assert t.partitions[i].id == id;
    }
  }

  lemma StageSound(topics: Topics, stage: Stage, loads: seq<Load>)
    requires AllSound(topics, loads)
    requires stage.Metadata? ==> Unloaded(stage.refreshed)
    ensures AllSound(AfterStage(topics, stage), if stage.Offsets? then loads + [stage.load] else loads)
  {
    var after := AfterStage(topics, stage);
    forall n | n in after
      ensures after[n].name == n && DistinctIds(after[n])
      ensures Sound(after[n], if stage.Offsets? then loads + [stage.load] else loads)
    {
      match stage {
        case Metadata(refreshed) =>
          if n in topics {
            SameIds(refreshed[n], Preserved(topics[n], refreshed[n]));
            PreservedSound(topics[n], refreshed[n], loads);
          }
        case Offsets(load) =>
          SameIds(topics[n], after[n]);
          OffsetsSound(topics[n], load, loads);
        case Groups(_, _) =>
          assert From(topics[n], Load(map[], map[])) ==> From(after[n], Load(map[], map[]));
          if after[n].recordsState == READY {
            var source :| source in loads && From(topics[n], source);
            assert From(after[n], source);
          }
      }
    }
  }

  /** In every run of refreshes, however its stages fail, shown metrics are sound. */
  lemma {:induction false} AlwaysSound(stages: seq<Stage>)
    requires forall i :: 0 <= i < |stages| && stages[i].Metadata? ==> Unloaded(stages[i].refreshed)
    ensures AllSound(AfterStages(stages), Loads(stages))
    decreases |stages|
  {
    if stages != [] {
      AlwaysSound(stages[..|stages| - 1]);
      StageSound(AfterStages(stages[..|stages| - 1]), stages[|stages| - 1], Loads(stages[..|stages| - 1]));
    }
  }

  /** Topic `n` is listed, with the same partitions, after each of the stages from `first` on. */
  ghost predicate KeepsPartitions(stages: seq<Stage>, first: nat, n: string) {
    && first <= |stages| && n in AfterStages(stages[..first])
    && forall k :: first <= k <= |stages| ==>
      n in AfterStages(stages[..k]) && Ids(AfterStages(stages[..k])[n]) == Ids(AfterStages(stages[..first])[n])
  }

  /** A metric that was ready once is never demoted while the partitions stay the same. */
  lemma {:induction false} ReadyIsNeverDemoted(stages: seq<Stage>, first: nat, n: string)
    requires KeepsPartitions(stages, first, n)
    requires forall i :: 0 <= i < |stages| && stages[i].Metadata? ==> Unloaded(stages[i].refreshed)
    ensures n in AfterStages(stages[..first]) && n in AfterStages(stages)
    ensures AfterStages(stages[..first])[n].recordsState == READY ==> AfterStages(stages)[n].recordsState == READY
    ensures AfterStages(stages[..first])[n].groupsState == READY ==> AfterStages(stages)[n].groupsState == READY
    decreases |stages|
  {
    assert stages[..|stages|] == stages;
    if first < |stages| {
      var before := stages[..|stages| - 1];
      assert forall k :: 0 <= k <= |before| ==> before[..k] == stages[..k];
      assert stages[..|stages| - 1] == before;
      ReadyIsNeverDemoted(before, first, n);
      AlwaysSound(before);
      ReadyStays(AfterStages(before), stages[|stages| - 1], Loads(before), n);
    }
  }

  // ---- exactly what is shown

  /** A complete load shows its own offsets, even over offsets that were ready before; an incomplete
      one changes no offsets and makes a topic without ready ones unavailable. */
  lemma OffsetsStage(topics: Topics, load: Load, n: string)
    requires n in topics
    ensures var t, after := topics[n], AfterStage(topics, Offsets(load));
            && after.Keys == topics.Keys
            && (load.Complete(t) ==>
                  && From(after[n], load) && Ids(after[n]) == Ids(t) && |after[n].partitions| == |t.partitions|
                  && after[n] == t.(partitions := after[n].partitions, recordsState := READY))
            && (!load.Complete(t) ==>
                  after[n] == if t.recordsState == READY then t else t.(recordsState := UNAVAILABLE))
  {
    var t, after := topics[n], AfterStage(topics, Offsets(load))[n];
    if load.Complete(t) {
      SameIds(t, after);
      forall p | p in after.partitions
        ensures load.Has(t.name, p.id) && p.low == load.earliest[(t.name, p.id)]
                && p.high == load.latest[(t.name, p.id)]
      {
        var i :| 0 <= i < |after.partitions| && after.partitions[i] == p;
        assert load.Has(t.name, t.partitions[i].id);
      }
      assert forall i :: 0 <= i < |after.partitions| ==> after.partitions[i] in after.partitions;
    }
  }

  /** Groups are shown with their records; a failed request leaves the groups shown before. */
  lemma GroupsStage(topics: Topics, found: map<string, seq<Group>>, errors: bool, n: string)
    requires n in topics
    ensures var t, after := topics[n], AfterStage(topics, Groups(found, errors));
            && after.Keys == topics.Keys
            && after[n].groups == (if errors then t.groups else if n in found then found[n] else [])
            && (after[n].groupsState == READY <==> if errors then t.groupsState == READY else t.recordsState == READY)
            && (after[n].groupsState != READY ==> after[n].groupsState == UNAVAILABLE)
            && after[n] == t.(groups := after[n].groups, groupsState := after[n].groupsState)
  {
  }

  /** Read again with the same partitions, a topic keeps what was ready, its offsets and its groups,
      and starts without the rest; with other partitions it starts without anything. */
  lemma MetadataStage(topics: Topics, refreshed: Topics, n: string)
    requires Unloaded(refreshed) && n in refreshed
    ensures var r, after := refreshed[n], AfterStage(topics, Metadata(refreshed));
            && after.Keys == refreshed.Keys && after[n].name == n && Ids(after[n]) == Ids(r)
            && if n in topics && Ids(topics[n]) == Ids(r) then
                 && (after[n].recordsState == if topics[n].recordsState == READY then READY else LOADING)
                 && (after[n].groupsState == if topics[n].groupsState == READY then READY else LOADING)
                 && (after[n].groups == if topics[n].groupsState == READY then topics[n].groups else [])
                 && (if topics[n].recordsState == READY
                     then forall p :: p in after[n].partitions ==> p in topics[n].partitions
                     else after[n].partitions == r.partitions)
               else after[n] == r
  {
    var r, after := refreshed[n], AfterStage(topics, Metadata(refreshed))[n];
    if n in topics && Ids(topics[n]) == Ids(r) {
      SameIds(r, after);
      forall p | p in after.partitions && topics[n].recordsState == READY
        ensures p in topics[n].partitions
      {
        var i :| 0 <= i < |after.partitions| && after.partitions[i] == p;
        assert r.partitions[i].id in Ids(r);
      }
    }
  }

  /** The latest load that was complete for a topic since it was listed with its present partitions. */
  ghost function LatestLoad(stages: seq<Stage>, n: string): Option<Load> {
    if stages == [] then None
    else
      var before, last := stages[..|stages| - 1], stages[|stages| - 1];
      var topics := AfterStages(before);
      match last
      case Metadata(refreshed) =>
        if n in topics && n in refreshed && Ids(topics[n]) == Ids(refreshed[n]) then LatestLoad(before, n) else None
      case Offsets(load) => if n in topics && load.Complete(topics[n]) then Some(load) else LatestLoad(before, n)
      case Groups(_, _) => LatestLoad(before, n)
  }

  /** The groups of the latest request without errors that found the topic's records ready, since it
      was listed with its present partitions. */
  ghost function LatestGroups(stages: seq<Stage>, n: string): Option<seq<Group>> {
    if stages == [] then None
    else
      var before, last := stages[..|stages| - 1], stages[|stages| - 1];
      var topics := AfterStages(before);
      match last
      case Metadata(refreshed) =>
        if n in topics && n in refreshed && Ids(topics[n]) == Ids(refreshed[n]) then LatestGroups(before, n) else None
      case Offsets(_) => LatestGroups(before, n)
      case Groups(found, errors) =>
        if errors then LatestGroups(before, n)
        else if LatestLoad(before, n).None? then None
        else Some(if n in found then found[n] else [])
  }

  /** In every run, records are shown exactly if a load was complete since the partitions changed,
      and then with the offsets of the latest such load; likewise for groups. */
  lemma {:induction false} ShownExact(stages: seq<Stage>, n: string)
    requires forall i :: 0 <= i < |stages| && stages[i].Metadata? ==> Unloaded(stages[i].refreshed)
    requires n in AfterStages(stages)
    ensures var t := AfterStages(stages)[n];
            && (t.recordsState == READY <==> LatestLoad(stages, n).Some?)
            && (t.recordsState == READY ==> From(t, LatestLoad(stages, n).value))
            && (t.groupsState == READY <==> LatestGroups(stages, n).Some?)
            && (t.groupsState == READY ==> t.groups == LatestGroups(stages, n).value)
    decreases |stages|
  {
    if stages != [] {
      var before, last := stages[..|stages| - 1], stages[|stages| - 1];
      var topics := AfterStages(before);
      if n in topics {
        ShownExact(before, n);
      }
      AlwaysSound(before);
      match last {
        case Metadata(refreshed) =>
          MetadataStage(topics, refreshed, n);
          if LatestLoad(stages, n).Some? {
            KeptFrom(topics[n], AfterStages(stages)[n], LatestLoad(stages, n).value);
          }
        case Offsets(load) => OffsetsStage(topics, load, n);
        case Groups(found, errors) =>
          GroupsStage(topics, found, errors, n);
          if LatestLoad(stages, n).Some? {
            assert From(AfterStages(stages)[n], LatestLoad(stages, n).value);
          }
      }
    }
  }

  lemma KeptFrom(t: TopicValue, after: TopicValue, load: Load)
    requires From(t, load) && after.name == t.name && forall p :: p in after.partitions ==> p in t.partitions
    ensures From(after, load)
  {
    assert forall i :: 0 <= i < |after.partitions| ==> after.partitions[i] in t.partitions;
  }

  // ---- the topics as the source keeps them, objects changed in place

  class Topic {
    const name: string
    var partitions: seq<Partition>
    var groups: seq<Group>
    var recordsState: MetricState
    var groupsState: MetricState

    constructor (name: string, partitions: seq<Partition>)
      ensures Value() == TopicValue(name, partitions, [], LOADING, LOADING)
    {
      this.name, this.partitions, groups, recordsState, groupsState := name, partitions, [], LOADING, LOADING;
    }

    function Value(): TopicValue
      reads this
    {
      TopicValue(name, partitions, groups, recordsState, groupsState)
    }
  }

  ghost predicate Separate(topics: map<string, Topic>) {
    forall n, m :: n in topics && m in topics && n != m ==> topics[n] != topics[m]
  }

  function Values(topics: map<string, Topic>): Topics
    reads topics.Values
  {
    map n | n in topics :: topics[n].Value()
  }

  method ApplyPartitionOffsets(topics: map<string, Topic>, load: Load)
    requires Separate(topics)
    modifies topics.Values
    ensures Values(topics) == AfterStage(old(Values(topics)), Offsets(load))
  {
    var rest := topics.Keys;
    while rest != {}
      invariant rest <= topics.Keys
      invariant forall n :: n in topics ==>
        topics[n].Value() == if n in rest then old(topics[n].Value()) else WithOffsets(old(topics[n].Value()), load)
      decreases rest
    {
      var n :| n in rest;
      rest := rest - {n};
      ApplyOffsets(topics[n], load);
    }
  }

  method ApplyOffsets(topic: Topic, load: Load)
    modifies topic
    ensures topic.Value() == WithOffsets(old(topic.Value()), load)
  {
    if !load.Complete(topic.Value()) {
      if topic.recordsState != READY {
        topic.recordsState := UNAVAILABLE;
      }
      return;
    }
    for i := 0 to |topic.partitions|
      invariant |topic.partitions| == |old(topic.partitions)|
      invariant topic.Value().(partitions := []) == old(topic.Value()).(partitions := [])
      invariant forall j :: i <= j < |topic.partitions| ==> topic.partitions[j] == old(topic.partitions)[j]
      invariant forall j :: 0 <= j < i ==>
        var id := old(topic.partitions)[j].id;
        load.Has(topic.name, id)
        && topic.partitions[j] == Partition(id, load.earliest[(topic.name, id)], load.latest[(topic.name, id)])
    {
      var id := topic.partitions[i].id;
      assert load.Has(topic.name, old(topic.Value()).partitions[i].id);
      var loaded := Partition(id, load.earliest[(topic.name, id)], load.latest[(topic.name, id)]);
      topic.partitions := topic.partitions[i := loaded];
    }
    topic.recordsState := READY;
  }

  method PreserveCompletedMetrics(previous: map<string, Topic>, refreshed: map<string, Topic>)
    requires Separate(refreshed) && previous.Values !! refreshed.Values
    modifies refreshed.Values
    ensures Values(refreshed) == AfterStage(Values(previous), Metadata(old(Values(refreshed))))
  {
    hide Preserved, ById;
    var rest := refreshed.Keys;
    while rest != {}
      invariant rest <= refreshed.Keys
      invariant forall n :: n in previous ==> previous[n].Value() == old(previous[n].Value())
      invariant forall n :: n in refreshed ==>
        refreshed[n].Value() ==
          if n in rest || n !in previous then old(refreshed[n].Value())
          else Preserved(previous[n].Value(), old(refreshed[n].Value()))
      decreases rest
    {
      var n :| n in rest;
      rest := rest - {n};
      if n in previous {
        Preserve(previous[n], refreshed[n]);
      }
    }
  }

  method Preserve(previous: Topic, refreshed: Topic)
    requires previous != refreshed
    modifies refreshed
    ensures refreshed.Value() == Preserved(previous.Value(), old(refreshed.Value()))
  {
    if Ids(previous.Value()) != Ids(refreshed.Value()) {
      return;
    }
    if previous.recordsState == READY {
      ghost var ids := Ids(refreshed.Value());
      var i := 0;
      while i < |refreshed.partitions|
        invariant i <= |refreshed.partitions| == |old(refreshed.partitions)|
        invariant refreshed.Value().(partitions := []) == old(refreshed.Value()).(partitions := [])
        invariant forall j :: 0 <= j < |refreshed.partitions| ==>
          old(refreshed.partitions)[j].id in Ids(previous.Value())
        invariant forall j :: i <= j < |refreshed.partitions| ==>
          refreshed.partitions[j] == old(refreshed.partitions)[j]
        invariant forall j :: 0 <= j < i ==>
          var found := ById(previous.partitions, old(refreshed.partitions)[j].id);
          refreshed.partitions[j] == old(refreshed.partitions)[j].(low := found.low, high := found.high)
      {
        var found := ById(previous.partitions, refreshed.partitions[i].id);
        var kept := refreshed.partitions[i].(low := found.low, high := found.high);
        refreshed.partitions := refreshed.partitions[i := kept];
        i := i + 1;
      }
      refreshed.recordsState := READY;
    }
    if previous.groupsState == READY {
      refreshed.groups := previous.groups;
      refreshed.groupsState := READY;
    }
  }
}
