/** Reading a topic page by page: each call polls and filters until a page is full or the
    topic stays silent for too long. */
module Consumer {
  import opened Options

  datatype Record = Record(partition: nat, offset: nat, key: string, value: string, headers: seq<string>)

  datatype Filters = Filters(partition: Option<nat>, key: string, value: string, header: string)

  predicate Contains(text: string, part: string) {
    exists i :: 0 <= i <= |text| && part <= text[i..]
  }

  /** Empty filters match everything. */
  predicate Matches(r: Record, f: Filters) {
    && (f.partition.Some? ==> r.partition == f.partition.value)
    && (f.key != "" ==> Contains(r.key, f.key))
    && (f.value != "" ==> Contains(r.value, f.value))
    && (f.header != "" ==> exists i :: 0 <= i < |r.headers| && Contains(r.headers[i], f.header))
  }

  /** `part` stands somewhere in `text`, with anything before and after it. */
  ghost predicate Occurs(part: string, text: string) {
    exists before, after :: text == before + part + after
  }

  /** The record is from the wanted partition, and each text asked for occurs where it is asked for:
      in the key, in the value, and in the value of some header. */
  ghost predicate Wanted(r: Record, f: Filters) {
    && (f.partition == None || f.partition == Some(r.partition))
    && Occurs(f.key, r.key) && Occurs(f.value, r.value)
    && (f.header == "" || exists h :: h in r.headers && Occurs(f.header, h))
  }

  lemma ContainsOccurs(text: string, part: string)
    ensures Contains(text, part) <==> Occurs(part, text)
  {
    if Contains(text, part) {
      var i :| 0 <= i <= |text| && part <= text[i..];
      assert text == text[..i] + part + text[i + |part|..];
    }
    if before, after :| text == before + part + after {
      assert text[|before|..] == part + after;
    }
  }

  lemma OccursNowhere(text: string)
    ensures Occurs("", text)
  {
    assert text == text + "" + "";
  }

  lemma MatchesExact(r: Record, f: Filters)
    ensures Matches(r, f) <==> Wanted(r, f)
  {
    ContainsOccurs(r.key, f.key);
    ContainsOccurs(r.value, f.value);
    OccursNowhere(r.key);
    OccursNowhere(r.value);
    forall h
      ensures Contains(h, f.header) <==> Occurs(f.header, h)
    {
      ContainsOccurs(h, f.header);
    }
    hide Contains, Occurs;
    if f.header != "" && exists h :: h in r.headers && Occurs(f.header, h) {
      var h :| h in r.headers && Occurs(f.header, h);
      var i :| 0 <= i < |r.headers| && r.headers[i] == h;
      assert Contains(r.headers[i], f.header);
    }
  }

  /** A polled message carries a record or an error of its own. */
  datatype Message = Good(record: Record) | Bad

  function Matching(log: seq<Message>, f: Filters): seq<Record> {
    if log == [] then []
    else if log[0].Good? && Matches(log[0].record, f) then [log[0].record] + Matching(log[1..], f)
    else Matching(log[1..], f)
  }

  lemma {:induction false} MatchingConcat(a: seq<Message>, b: seq<Message>, f: Filters)
    ensures Matching(a + b, f) == Matching(a, f) + Matching(b, f)
  {
    if a == [] {
      assert a + b == b;
    } else {
      assert (a + b)[1..] == a[1..] + b;
      MatchingConcat(a[1..], b, f);
    }
  }

  /** Filtering delivers exactly the wanted records of good messages, each once and in order. */
  lemma {:induction false} MatchingExact(log: seq<Message>, f: Filters) returns (at: seq<nat>)
    ensures |at| == |Matching(log, f)|
    ensures forall i, j :: 0 <= i < j < |at| ==> at[i] < at[j]
    ensures forall i :: 0 <= i < |at| ==> at[i] < |log| && log[at[i]] == Good(Matching(log, f)[i])
    ensures forall k :: 0 <= k < |log| ==> (k in at <==> log[k].Good? && Wanted(log[k].record, f))
    decreases |log|
  {
    at := [];
    if log != [] {
      var before, last := log[..|log| - 1], log[|log| - 1];
      at := MatchingExact(before, f);
      MatchingConcat(before, [last], f);
      assert log == before + [last] && [last][1..] == [];
      assert Matching([last], f) == if last.Good? && Matches(last.record, f) then [last.record] else [];
      hide Matching, Matches, Wanted;
      if last.Good? {
        MatchesExact(last.record, f);
        if Matches(last.record, f) {
          at := at + [|before|];
        }
      }
    }
  }

  lemma {:induction false} MatchingShorter(log: seq<Message>, f: Filters)
    ensures |Matching(log, f)| <= |log|
  {
    if log != [] {
      MatchingShorter(log[1..], f);
    }
  }

  lemma SuffixOfAppended<T>(a: seq<T>, b: seq<T>, start: nat)
    requires start <= |a|
    ensures (a + b)[start..] == a[start..] + b
  {
  }

  function Flatten<T>(parts: seq<seq<T>>): seq<T> {
    if parts == [] then [] else Flatten(parts[..|parts| - 1]) + parts[|parts| - 1]
  }

  lemma FlattenOneMore<T>(parts: seq<seq<T>>, last: seq<T>)
    ensures Flatten(parts + [last]) == Flatten(parts) + last
  {
    assert (parts + [last])[..|parts|] == parts;
  }

  /** One call to the consumer: the messages it polled, and whether it failed. */
  datatype Call = Call(read: seq<Message>, failed: bool)

  /** All that the calls polled, in order. */
  function Read(calls: seq<Call>): seq<Message> {
    if calls == [] then [] else Read(calls[..|calls| - 1]) + calls[|calls| - 1].read
  }

  /** The same without what the failed calls polled. */
  function Delivered(calls: seq<Call>): seq<Message> {
    if calls == [] then []
    else
      var before, last := Delivered(calls[..|calls| - 1]), calls[|calls| - 1];
      if last.failed then before else before + last.read
  }

  /** If no call failed, all that was polled was delivered. */
  lemma {:induction false} AllDelivered(calls: seq<Call>)
    requires forall i :: 0 <= i < |calls| ==> !calls[i].failed
    ensures Delivered(calls) == Read(calls)
  {
    if calls != [] {
      AllDelivered(calls[..|calls| - 1]);
    }
  }

  /** The calls polled all messages since the first `start`. */
  ghost predicate ReadSince(calls: seq<Call>, polled: seq<Message>, start: nat) {
    start <= |polled| && Read(calls) == polled[start..]
  }

  lemma ReadSinceAfter(calls: seq<Call>, before: seq<Message>, start: nat, after: seq<Message>, failed: bool)
    requires ReadSince(calls, before, start) && before <= after
    ensures ReadSince(calls + [Call(after[|before|..], failed)], after, start)
  {
    var call := Call(after[|before|..], failed);
    assert (calls + [call])[..|calls|] == calls;
    SuffixOfAppended(before, call.read, start);
    assert before + call.read == after;
  }

  /** The pages so far, one for each call; a failed call gives none. */
  ghost predicate Browsed(calls: seq<Call>, f: Filters, pages: seq<seq<Record>>) {
    && |pages| == |calls|
    && (forall i :: 0 <= i < |calls| ==> pages[i] == if calls[i].failed then [] else Matching(calls[i].read, f))
    && Flatten(pages) == Matching(Delivered(calls), f)
  }

  lemma BrowsedAfter(calls: seq<Call>, before: seq<Message>, after: seq<Message>, failed: bool, f: Filters,
                     pages: seq<seq<Record>>, page: seq<Record>)
    requires Browsed(calls, f, pages) && before <= after
    requires if failed then page == [] else Paged(after, |before|, f, page)
    ensures Browsed(calls + [Call(after[|before|..], failed)], f, pages + [page])
  {
    var last := Call(after[|before|..], failed);
    assert (calls + [last])[..|calls|] == calls;
    FlattenOneMore(pages, page);
    hide Matching, Flatten;
    if failed {
      assert Flatten(pages) + [] == Flatten(pages);
    } else {
      MatchingConcat(Delivered(calls), last.read, f);
    }
  }

  lemma BrowsedAll(calls: seq<Call>, polled: seq<Message>, start: nat, f: Filters, pages: seq<seq<Record>>)
    requires Browsed(calls, f, pages) && ReadSince(calls, polled, start) && Delivered(calls) == Read(calls)
    ensures start <= |polled| && Flatten(pages) == Matching(polled[start..], f)
  {
  }

  /** What a poll brought: nothing to an unassigned consumer, a batch to an assigned one. */
  datatype Poll = Unassigned | Batch(size: nat) | Failed

  /** The last `n` polls all were `p`. */
  ghost predicate EndsWith(polls: seq<Poll>, n: nat, p: Poll) {
    n <= |polls| && forall i :: |polls| - n <= i < |polls| ==> polls[i] == p
  }

  /** Since the first `start` polls, the last `silent` brought nothing and the last `unassigned`
      found the consumer unassigned. */
  ghost predicate Quiet(polls: seq<Poll>, start: nat, silent: nat, unassigned: nat) {
    start <= |polls| && EndsWith(polls[start..], silent, Batch(0)) && EndsWith(polls[start..], unassigned, Unassigned)
  }

  /** One more poll adds to its own kind of silence and ends the other. */
  lemma QuietAfter(polls: seq<Poll>, start: nat, silent: nat, unassigned: nat, last: Poll)
    requires Quiet(polls, start, silent, unassigned)
    ensures Quiet(polls + [last], start, if last == Batch(0) then silent + 1 else 0,
                  if last == Unassigned then unassigned + 1 else 0)
  {
    assert (polls + [last])[start..] == polls[start..] + [last];
  }

  /** The records are the matching ones among the messages polled since the first `start`. */
  ghost predicate Paged(polled: seq<Message>, start: nat, f: Filters, page: seq<Record>) {
    && start <= |polled| && page == Matching(polled[start..], f)
    && forall i :: start <= i < |polled| ==> polled[i].Good?
  }

  lemma PagedAfter(polled: seq<Message>, start: nat, f: Filters, page: seq<Record>, batch: seq<Message>)
    requires Paged(polled, start, f, page) && forall i :: 0 <= i < |batch| ==> batch[i].Good?
    ensures Paged(polled + batch, start, f, page + Matching(batch, f))
  {
    hide Matching, Matches;
    SuffixOfAppended(polled, batch, start);
    MatchingConcat(polled[start..], batch, f);
  }

  datatype Problem = StartFailed | BrokerError | BadMessage

  /** A call fails for a reason: starting failed and was needed, the last poll failed, or one of the
      messages read has an error of its own. */
  ghost predicate Blamed(problem: Problem, wasStarted: bool, read: seq<Message>, polls: seq<Poll>) {
    match problem
    case StartFailed => !wasStarted
    case BrokerError => polls != [] && polls[|polls| - 1] == Failed
    case BadMessage => exists m :: m in read && m.Bad?
  }

  lemma BatchBlamed(before: seq<Message>, start: nat, batch: seq<Message>, i: nat, wasStarted: bool, polls: seq<Poll>)
    requires start <= |before| && i < |batch| && batch[i].Bad?
    ensures Blamed(BadMessage, wasStarted, (before + batch)[start..], polls)
  {
    SuffixOfAppended(before, batch, start);
    assert (before[start..] + batch)[|before| - start + i] == batch[i];
  }

  lemma PollBlamed(before: seq<Poll>, start: nat, wasStarted: bool, read: seq<Message>)
    requires start <= |before|
    ensures Blamed(BrokerError, wasStarted, read, (before + [Failed])[start..])
  {
    SuffixOfAppended(before, [Failed], start);
  }

  /** Converts and filters one batch, stopping once `limit` records match. */
  method RecordsFromBatch(batch: seq<Message>, f: Filters, limit: nat)
      returns (records: seq<Record>, scanned: nat, problem: Option<Problem>)
    ensures scanned <= |batch|
    ensures problem.None? ==>
              && records == Matching(batch[..scanned], f)
              && (forall i :: 0 <= i < scanned ==> batch[i].Good?)
              && (scanned == |batch| || (scanned > 0 && |records| >= limit && Matches(batch[scanned - 1].record, f)))
              && (limit > 0 ==> |records| <= limit)
    ensures problem.Some? ==> problem == Some(BadMessage) && scanned > 0 && batch[scanned - 1].Bad?
  {
    records, scanned, problem := [], 0, None;
    while scanned < |batch|
      invariant scanned <= |batch|
      invariant records == Matching(batch[..scanned], f)
      invariant forall i :: 0 <= i < scanned ==> batch[i].Good?
      invariant limit > 0 ==> |records| < limit
    {
      var message := batch[scanned];
      MatchingConcat(batch[..scanned], [message], f);
      assert batch[..scanned + 1] == batch[..scanned] + [message];
      assert [message][1..] == [];
      scanned := scanned + 1;
      if message.Bad? {
        return records, scanned, Some(BadMessage);
      }
      if Matches(message.record, f) {
        records := records + [message.record];
        if |records| >= limit {
          return;
        }
      }
    }
  }

  /** A consumer over a topic: `remaining` are the messages the broker has not handed out yet,
      `polled` those it has, in order, and `polls` what each poll brought. */
  class ConsumerService {
    const pageSize: nat
    const maxPollRetries: nat
    const maxStabilizationRetries: nat
    var started: bool
    var stable: bool
    var remaining: seq<Message>
    ghost var polled: seq<Message>
    ghost var polls: seq<Poll>

    constructor (pageSize: nat, maxPollRetries: nat, maxStabilizationRetries: nat, log: seq<Message>)
      ensures this.pageSize == pageSize && this.maxPollRetries == maxPollRetries
      ensures this.maxStabilizationRetries == maxStabilizationRetries
      ensures !started && !stable && remaining == log && polled == [] && polls == []
    {
      this.pageSize, this.maxPollRetries := pageSize, maxPollRetries;
      this.maxStabilizationRetries := maxStabilizationRetries;
      started, stable, remaining, polled, polls := false, false, log, [], [];
    }

    /** The whole topic, which calls neither add to nor reorder. */
    ghost function Topic(): seq<Message>
      reads this
    {
      polled + remaining
    }

    /** Assigning partitions by hand makes the consumer stable at once; subscribing does not. */
    method Start() returns (problem: Option<Problem>)
      modifies this`started, this`stable
      ensures old(stable) ==> stable
      ensures problem == None || problem == Some(StartFailed)
      ensures problem.None? ==> started
    {
      var fails: bool := *;
      var joins: bool := *;
      if fails {
        return Some(StartFailed);
      }
      stable := stable || joins;
      started := true;
      return None;
    }

    /** The broker hands out at most `limit` of the remaining messages, in order, and none before
        the consumer is assigned, which may happen during the call. */
    method PollBroker(limit: nat) returns (batch: seq<Message>, problem: Option<Problem>)
      modifies this`stable, this`remaining, this`polled, this`polls
      ensures old(stable) ==> stable
      ensures |batch| <= limit && |remaining| == |old(remaining)| - |batch|
      ensures polled == old(polled) + batch && Topic() == old(Topic())
      ensures !stable ==> batch == []
      ensures problem == None || problem == Some(BrokerError)
      ensures polls == old(polls) + [if problem.Some? then Failed else if stable then Batch(|batch|) else Unassigned]
    {
      var joins: bool := *;
      var fails: bool := *;
      stable := stable || joins;
      var most := if !stable then 0 else if limit < |remaining| then limit else |remaining|;
      var n: nat :| n <= most;
      batch := remaining[..n];
      polled := polled + batch;
      remaining := remaining[n..];
      polls := polls + [if fails then Failed else if stable then Batch(n) else Unassigned];
      problem := if fails then Some(BrokerError) else None;
    }

    /** One page. An error-free call returns the matching records among the messages it polled,
        all of them and in order; a short page means the topic stayed silent, or unassigned, for
        as many polls in a row as the limits allow. A call fails only if starting or polling did, or
        if it polled a message with an error of its own. */
    method Consume(f: Filters) returns (page: seq<Record>, problem: Option<Problem>)
      modifies this
      ensures old(polled) <= polled && Topic() == old(Topic())
      ensures old(polls) <= polls
      ensures problem.None? ==>
                && started
                && Paged(polled, |old(polled)|, f, page) && |page| <= pageSize
                && (|page| < pageSize ==>
                      || EndsWith(polls[|old(polls)|..], maxPollRetries, Batch(0))
                      || EndsWith(polls[|old(polls)|..], maxStabilizationRetries, Unassigned))
      ensures problem.Some? ==> Blamed(problem.value, old(started), polled[|old(polled)|..], polls[|old(polls)|..])
    {
      page, problem := [], None;
      assert Paged(polled, |polled|, f, []) && Quiet(polls, |polls|, 0, 0);
      if !started {
        problem := Start();
        if problem.Some? {
          return;
        }
      }
      var pollRetries, stabilizationRetries := 0, 0;
      while |page| < pageSize && pollRetries < maxPollRetries && stabilizationRetries < maxStabilizationRetries
        invariant started && problem.None? && |page| <= pageSize
        invariant old(polled) <= polled && old(polls) <= polls && Topic() == old(Topic())
        invariant Paged(polled, |old(polled)|, f, page)
        invariant Quiet(polls, |old(polls)|, pollRetries, stabilizationRetries)
        invariant pollRetries <= maxPollRetries && stabilizationRetries <= maxStabilizationRetries
        invariant (stable ==> stabilizationRetries == 0) && (!stable ==> pollRetries == 0)
        decreases |remaining|, !stable, maxStabilizationRetries - stabilizationRetries, maxPollRetries - pollRetries
      {
        hide Paged, Quiet, Matching, Topic, Blamed;
        ghost var polledBefore, pollsBefore := polled, polls;
        var limit := pageSize - |page|;
        var batch: seq<Message>;
        batch, problem := PollBroker(limit);
        if problem.Some? {
          PollBlamed(pollsBefore, |old(polls)|, old(started), polled[|old(polled)|..]);
          return;
        }
        QuietAfter(pollsBefore, |old(polls)|, pollRetries, stabilizationRetries,
                   if stable then Batch(|batch|) else Unassigned);
        assert batch == [] ==> polled == polledBefore;
        if !stable {
          stabilizationRetries := stabilizationRetries + 1;
          continue;
        }
        stabilizationRetries := 0;
        if |batch| == 0 {
          pollRetries := pollRetries + 1;
          continue;
        }
        pollRetries := 0;
        var matched, scanned;
        matched, scanned, problem := RecordsFromBatch(batch, f, limit);
        if problem.Some? {
          BatchBlamed(polledBefore, |old(polled)|, batch, scanned - 1, old(started), polls[|old(polls)|..]);
          return;
        }
        // the batch is no larger than the free space, so the limit cannot cut it short
        MatchingShorter(batch[..scanned], f);
        assert batch[..|batch|] == batch;
        PagedAfter(polledBefore, |old(polled)|, f, page, batch);
        page := page + matched;
      }
    }

    /** Any number of calls with the same filters, going on after the ones that fail: the pages are
        the matching records of what was polled, in order, none repeated, and none skipped but
        exactly what the failed calls had polled, which give no page. */
    method Browse(f: Filters, count: nat)
        returns (pages: seq<seq<Record>>, problems: seq<Option<Problem>>, ghost calls: seq<Call>)
      modifies this
      ensures old(polled) <= polled && Topic() == old(Topic())
      ensures |problems| == |calls| == count && Browsed(calls, f, pages)
      ensures forall i :: 0 <= i < count ==> (calls[i].failed <==> problems[i].Some?)
      ensures ReadSince(calls, polled, |old(polled)|)
      ensures forall i :: 0 <= i < |pages| ==> |pages[i]| <= pageSize
      ensures (forall i :: 0 <= i < count ==> problems[i].None?) ==>
                Flatten(pages) == Matching(polled[|old(polled)|..], f)
    {
      pages, problems, calls := [], [], [];
      assert Browsed(calls, f, pages) && ReadSince(calls, polled, |polled|);
      hide Paged, EndsWith, Blamed, Browsed, ReadSince, Read, Delivered, Topic;
      for i := 0 to count
        invariant old(polled) <= polled && Topic() == old(Topic())
        invariant |problems| == |calls| == i && Browsed(calls, f, pages)
        invariant forall k :: 0 <= k < i ==> (calls[k].failed <==> problems[k].Some?)
        invariant ReadSince(calls, polled, |old(polled)|)
        invariant forall k :: 0 <= k < |pages| ==> |pages[k]| <= pageSize
      {
        ghost var before := polled;
        var page, problem := Consume(f);
        if problem.Some? {
          page := [];
        }
        ReadSinceAfter(calls, before, |old(polled)|, polled, problem.Some?);
        BrowsedAfter(calls, before, polled, problem.Some?, f, pages, page);
        pages, problems := pages + [page], problems + [problem];
        calls := calls + [Call(polled[|before|..], problem.Some?)];
      }
      if forall i :: 0 <= i < count ==> problems[i].None? {
        AllDelivered(calls);
        BrowsedAll(calls, polled, |old(polled)|, f, pages);
      }
    }
  }
}
