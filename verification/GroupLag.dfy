/** Regrouping the offsets that consumer groups committed into the topics they consume. */
module GroupLag {
  import opened TopicMetrics

  const OFFSET_INVALID: int := -1001

  datatype Committed = Committed(topic: string, partition: int, offset: int)

  /** The described groups, their committed offsets, and whether any request failed. */
  datatype Snapshot = Snapshot(descriptions: seq<string>, offsets: map<string, seq<Committed>>, errors: bool)
  {
    function OffsetsFor(group: string): seq<Committed> {
      if group in offsets then offsets[group] else []
    }
  }

  predicate Knows(partitions: seq<Partition>, id: int) {
    exists i :: 0 <= i < |partitions| && partitions[i].id == id
  }

  /** The entry has a committed offset for a partition of the topic. */
  predicate Counts(t: TopicValue, c: Committed) {
    c.offset != OFFSET_INVALID && c.topic == t.name && Knows(t.partitions, c.partition)
  }

  function Mapped(t: TopicValue, c: Committed): GroupPartition
    requires Counts(t, c)
  {
    var p := ById(t.partitions, c.partition);
    GroupPartition(c.partition, c.offset, p.low, p.high)
  }

  // ---- what the source builds: entries by topic, then groups by topic

  function ForTopic(entries: seq<Committed>, topic: string): seq<Committed> {
    if entries == [] then []
    else
      var before, last := ForTopic(entries[..|entries| - 1], topic), entries[|entries| - 1];
      if last.offset != OFFSET_INVALID && last.topic == topic then before + [last] else before
  }

  function MapPartitions(partitions: seq<Partition>, entries: seq<Committed>): seq<GroupPartition> {
    if entries == [] then []
    else
      var before, last := MapPartitions(partitions, entries[..|entries| - 1]), entries[|entries| - 1];
      if Knows(partitions, last.partition) then
        var p := ById(partitions, last.partition);
        before + [GroupPartition(last.partition, last.offset, p.low, p.high)]
      else before
  }

  /** One more group for a topic, unless it committed nothing there. */
  function WithGroup(groups: seq<Group>, id: string, partitions: seq<GroupPartition>): seq<Group> {
    if partitions != [] then groups + [Group(id, partitions)] else groups
  }

  function TopicGroups(t: TopicValue, s: Snapshot, descriptions: seq<string>): seq<Group> {
    if descriptions == [] then []
    else
      var id := descriptions[|descriptions| - 1];
      WithGroup(TopicGroups(t, s, descriptions[..|descriptions| - 1]), id,
                MapPartitions(t.partitions, ForTopic(s.OffsetsFor(id), t.name)))
  }

  // ---- lag, as the topic adds it up and as the snapshot says it

  function PartitionsLag(partitions: seq<GroupPartition>): int {
    if partitions == [] then 0
    else PartitionsLag(partitions[..|partitions| - 1]) + partitions[|partitions| - 1].LagCount()
  }

  function GroupsLag(groups: seq<Group>): int {
    if groups == [] then 0
    else GroupsLag(groups[..|groups| - 1]) + PartitionsLag(groups[|groups| - 1].partitions)
  }

  /** The lag of the entries that count for a topic, each counted once. */
  function EntriesLag(t: TopicValue, entries: seq<Committed>): int {
    if entries == [] then 0
    else
      var last := entries[|entries| - 1];
      EntriesLag(t, entries[..|entries| - 1]) + if Counts(t, last) then Mapped(t, last).LagCount() else 0
  }

  function SnapshotLag(t: TopicValue, s: Snapshot, descriptions: seq<string>): int {
    if descriptions == [] then 0
    else
      SnapshotLag(t, s, descriptions[..|descriptions| - 1])
      + EntriesLag(t, s.OffsetsFor(descriptions[|descriptions| - 1]))
  }

  lemma {:induction false} RegroupedEntriesLag(t: TopicValue, entries: seq<Committed>)
    ensures PartitionsLag(MapPartitions(t.partitions, ForTopic(entries, t.name))) == EntriesLag(t, entries)
  {
    if entries != [] {
      var before, last := entries[..|entries| - 1], entries[|entries| - 1];
      RegroupedEntriesLag(t, before);
      if last.offset != OFFSET_INVALID && last.topic == t.name {
        assert (ForTopic(before, t.name) + [last])[..|ForTopic(before, t.name)|] == ForTopic(before, t.name);
        if Knows(t.partitions, last.partition) {
          var mapped := MapPartitions(t.partitions, ForTopic(before, t.name));
          assert (mapped + [Mapped(t, last)])[..|mapped|] == mapped;
        }
      }
    }
  }

  /** A topic's lag is the sum, over the described groups, of the lag of exactly the snapshot
      entries with an offset for one of its partitions. */
  lemma {:induction false} LagIsConserved(t: TopicValue, s: Snapshot, descriptions: seq<string>)
    ensures GroupsLag(TopicGroups(t, s, descriptions)) == SnapshotLag(t, s, descriptions)
  {
    if descriptions != [] {
      var before, id := descriptions[..|descriptions| - 1], descriptions[|descriptions| - 1];
      LagIsConserved(t, s, before);
      RegroupedEntriesLag(t, s.OffsetsFor(id));
      var partitions := MapPartitions(t.partitions, ForTopic(s.OffsetsFor(id), t.name));
      var groups := TopicGroups(t, s, before);
      assert (groups + [Group(id, partitions)])[..|groups|] == groups;
    }
  }

  // ---- which entries become which groups

  /** The entry has an offset, other than the -1001 that stands for none, for this partition. */
  ghost predicate CommittedTo(t: TopicValue, c: Committed, p: Partition) {
    c.offset != -1001 && c.topic == t.name && p in t.partitions && p.id == c.partition
  }

  /** The group partitions are those of exactly the entries that commit to a partition of the topic,
      in order, each with its own offset and with that partition's ends. */
  lemma {:induction false} MappedExact(t: TopicValue, entries: seq<Committed>) returns (at: seq<nat>)
    requires DistinctIds(t)
    ensures var mapped := MapPartitions(t.partitions, ForTopic(entries, t.name));
            && |at| == |mapped|
            && (forall i, j :: 0 <= i < j < |at| ==> at[i] < at[j])
            && (forall i, p :: 0 <= i < |at| && at[i] < |entries| && CommittedTo(t, entries[at[i]], p) ==>
                  mapped[i] == GroupPartition(p.id, entries[at[i]].offset, p.low, p.high))
    ensures forall i :: 0 <= i < |at| ==> at[i] < |entries|
    ensures forall k :: 0 <= k < |entries| ==> (k in at <==> exists p :: CommittedTo(t, entries[k], p))
  {
    at := [];
    if entries != [] {
      var before, last := entries[..|entries| - 1], entries[|entries| - 1];
      at := MappedExact(t, before);
      MappedOneMore(t, before, last);
      hide ForTopic, MapPartitions, CommittedTo, Counts;
      assert entries == before + [last];
      if Counts(t, last) {
        at := at + [|before|];
      }
    }
  }

  lemma MappedOneMore(t: TopicValue, entries: seq<Committed>, last: Committed)
    requires DistinctIds(t)
    ensures MapPartitions(t.partitions, ForTopic(entries + [last], t.name))
         == MapPartitions(t.partitions, ForTopic(entries, t.name))
            + if Counts(t, last) then [Mapped(t, last)] else []
    ensures Counts(t, last) <==> exists p :: CommittedTo(t, last, p)
    ensures forall p :: CommittedTo(t, last, p) ==>
              Counts(t, last) && Mapped(t, last) == GroupPartition(p.id, last.offset, p.low, p.high)
  {
    var longer, sofar := entries + [last], ForTopic(entries, t.name);
    assert longer[..|longer| - 1] == entries;
    assert (sofar + [last])[..|sofar|] == sofar;
    if Counts(t, last) {
      assert CommittedTo(t, last, ById(t.partitions, last.partition));
    }
    forall p | CommittedTo(t, last, p)
      ensures Counts(t, last) && Mapped(t, last) == GroupPartition(p.id, last.offset, p.low, p.high)
    {
      var i :| 0 <= i < |t.partitions| && t.partitions[i] == p;
      var found := ById(t.partitions, last.partition);
      var j :| 0 <= j < |t.partitions| && t.partitions[j] == found;
    }
  }

  /** One of the entries has an offset for a partition of the topic. */
  ghost predicate CommitsTo(t: TopicValue, entries: seq<Committed>) {
    exists c, p :: c in entries && CommittedTo(t, c, p)
  }

  lemma MappedNothing(t: TopicValue, entries: seq<Committed>)
    requires DistinctIds(t)
    ensures MapPartitions(t.partitions, ForTopic(entries, t.name)) == [] <==> !CommitsTo(t, entries)
  {
    var at := MappedExact(t, entries);
    hide ForTopic, MapPartitions, CommittedTo;
    if at != [] {
      assert at[0] in at && entries[at[0]] in entries;
    } else {
      forall c | c in entries
        ensures !exists p :: CommittedTo(t, c, p)
      {
        var k :| 0 <= k < |entries| && entries[k] == c;
      }
    }
  }

  /** The topic's groups are exactly the described ones that committed to it, in order, each with the
      group partitions of its own entries. */
  lemma {:induction false} GroupsExact(t: TopicValue, s: Snapshot, descriptions: seq<string>) returns (at: seq<nat>)
    requires DistinctIds(t)
    ensures var groups := TopicGroups(t, s, descriptions);
            && |at| == |groups|
            && (forall i, j :: 0 <= i < j < |at| ==> at[i] < at[j])
            && (forall i :: 0 <= i < |at| ==>
                  && at[i] < |descriptions| && groups[i].id == descriptions[at[i]]
                  && groups[i].partitions == MapPartitions(t.partitions, ForTopic(s.OffsetsFor(groups[i].id), t.name)))
    ensures forall k :: 0 <= k < |descriptions| ==> (k in at <==> CommitsTo(t, s.OffsetsFor(descriptions[k])))
  {
    at := [];
    if descriptions != [] {
      var before, id := descriptions[..|descriptions| - 1], descriptions[|descriptions| - 1];
      at := GroupsExact(t, s, before);
      MappedNothing(t, s.OffsetsFor(id));
      hide ForTopic, MapPartitions, CommitsTo;
      assert descriptions == before + [id];
      if CommitsTo(t, s.OffsetsFor(id)) {
        at := at + [|before|];
      }
    }
  }

  /** The groups an application leaves in each topic. */
  function Found(topics: Topics, s: Snapshot): map<string, seq<Group>> {
    map n | n in topics :: TopicGroups(topics[n], s, s.descriptions)
  }

  // ---- the application as the source runs it

  /** One group's entries by topic, for the topics that are listed. */
  method CommittedByTopic(entries: seq<Committed>, names: set<string>) returns (byTopic: map<string, seq<Committed>>)
    ensures byTopic.Keys <= names
    ensures forall n :: n in byTopic ==> byTopic[n] == ForTopic(entries, n) && byTopic[n] != []
    ensures forall n :: n in names && n !in byTopic ==> ForTopic(entries, n) == []
  {
    byTopic := map[];
    for i := 0 to |entries|
      invariant byTopic.Keys <= names
      invariant forall n :: n in byTopic ==> byTopic[n] == ForTopic(entries[..i], n) && byTopic[n] != []
      invariant forall n :: n in names && n !in byTopic ==> ForTopic(entries[..i], n) == []
    {
      var committed := entries[i];
      assert entries[..i + 1][..i] == entries[..i];
      if committed.offset == OFFSET_INVALID || committed.topic !in names {
        continue;
      }
      var sofar := if committed.topic in byTopic then byTopic[committed.topic] else [];
      byTopic := byTopic[committed.topic := sofar + [committed]];
    }
    assert entries[..|entries|] == entries;
  }

  method ApplyGroups(topics: map<string, Topic>, s: Snapshot)
    requires Separate(topics) && forall n :: n in topics ==> topics[n].name == n
    modifies topics.Values
    ensures Values(topics) == AfterStage(old(Values(topics)), Groups(Found(old(Values(topics)), s), s.errors))
    ensures !s.errors ==> forall n :: n in topics ==>
              GroupsLag(topics[n].groups) == SnapshotLag(old(topics[n].Value()), s, s.descriptions)
  {
    hide TopicGroups, GroupsLag, SnapshotLag;
    if s.errors {
      SetGroupsUnavailable(topics);
      return;
    }
    ReplaceGroups(topics, s);
    assert Values(topics) == AfterStage(old(Values(topics)), Groups(Found(old(Values(topics)), s), false));
    forall n | n in topics
      ensures GroupsLag(topics[n].groups) == SnapshotLag(old(topics[n].Value()), s, s.descriptions)
    {
      LagIsConserved(old(topics[n].Value()), s, s.descriptions);
    }
  }

  method ReplaceGroups(topics: map<string, Topic>, s: Snapshot)
    requires Separate(topics) && forall n :: n in topics ==> topics[n].name == n
    modifies topics.Values
    ensures forall n :: n in topics ==>
              topics[n].Value() ==
                WithoutGroups(old(topics[n].Value())).(groups := TopicGroups(old(topics[n].Value()), s, s.descriptions))
  {
    ghost var before := Values(topics);
    ResetGroups(topics);
    hide ForTopic, MapPartitions;
    for k := 0 to |s.descriptions|
      invariant forall n :: n in topics ==>
        topics[n].Value() == WithoutGroups(before[n]).(groups := TopicGroups(before[n], s, s.descriptions[..k]))
    {
      assert s.descriptions[..k + 1][..k] == s.descriptions[..k];
      AddDescribed(topics, s, s.descriptions[k]);
    }
    assert s.descriptions[..|s.descriptions|] == s.descriptions;
  }

  /** One described group, added to each topic it committed offsets for. */
  method AddDescribed(topics: map<string, Topic>, s: Snapshot, id: string)
    requires Separate(topics) && forall n :: n in topics ==> topics[n].name == n
    modifies topics.Values
    ensures forall n :: n in topics ==>
              topics[n].Value() == old(topics[n].Value()).(groups :=
                WithGroup(old(topics[n].groups), id,
                          MapPartitions(topics[n].partitions, ForTopic(s.OffsetsFor(id), n))))
  {
    hide ForTopic;
    var byTopic := CommittedByTopic(s.OffsetsFor(id), topics.Keys);
    AddGroups(topics, id, byTopic);
  }

  /** Adds one group to the topics it has partitions of. */
  method AddGroups(topics: map<string, Topic>, id: string, byTopic: map<string, seq<Committed>>)
    requires Separate(topics) && byTopic.Keys <= topics.Keys
    modifies topics.Values
    ensures forall n :: n in topics ==>
              topics[n].Value() == old(topics[n].Value()).(groups :=
                if n in byTopic
                then WithGroup(old(topics[n].groups), id, MapPartitions(topics[n].partitions, byTopic[n]))
                else old(topics[n].groups))
  {
    hide MapPartitions;
    var rest := byTopic.Keys;
    while rest != {}
      invariant rest <= byTopic.Keys
      invariant forall n :: n in topics ==>
        topics[n].Value() == old(topics[n].Value()).(groups :=
          if n in byTopic && n !in rest
          then WithGroup(old(topics[n].groups), id, MapPartitions(topics[n].partitions, byTopic[n]))
          else old(topics[n].groups))
      decreases rest
    {
      var n :| n in rest;
      rest := rest - {n};
      var partitions := MapPartitions(topics[n].partitions, byTopic[n]);
      if partitions != [] {
        topics[n].groups := topics[n].groups + [Group(id, partitions)];
      }
    }
  }

  method ResetGroups(topics: map<string, Topic>)
    requires Separate(topics)
    modifies topics.Values
    ensures forall n :: n in topics ==> topics[n].Value() == WithoutGroups(old(topics[n].Value()))
  {
    var rest := topics.Keys;
    while rest != {}
      invariant rest <= topics.Keys
      invariant forall n :: n in topics ==>
        topics[n].Value() == if n in rest then old(topics[n].Value()) else WithoutGroups(old(topics[n].Value()))
      decreases rest
    {
      var n :| n in rest;
      rest := rest - {n};
      topics[n].groups := [];
      topics[n].groupsState := if topics[n].recordsState == READY then READY else UNAVAILABLE;
    }
  }

  method SetGroupsUnavailable(topics: map<string, Topic>)
    requires Separate(topics)
    modifies topics.Values
    ensures forall n :: n in topics ==> topics[n].Value() == WithGroupsUnavailable(old(topics[n].Value()))
  {
    var rest := topics.Keys;
    while rest != {}
      invariant rest <= topics.Keys
      invariant forall n :: n in topics ==>
        topics[n].Value() == if n in rest then old(topics[n].Value()) else WithGroupsUnavailable(old(topics[n].Value()))
      decreases rest
    {
      var n :| n in rest;
      rest := rest - {n};
      if topics[n].groupsState != READY {
        topics[n].groupsState := UNAVAILABLE;
      }
    }
  }
}
