/** The registry client: values cached for a check period, and requests retried a bounded
    number of times. */
module ApicurioClient {
  import opened Options
  import opened LruCaches

  /** A cached value with the time it was stored at, in seconds. */
  datatype Stamped<V> = Stamped(storedAt: real, value: V)

  datatype Event<K, V> = Store(key: K, value: V, now: real) | Lookup(key: K, now: real)

  predicate Expired(storedAt: real, now: real, periodMs: nat) {
    periodMs == 0 || (now - storedAt) * 1000.0 >= periodMs as real
  }

  function Answer<K(==), V>(items: Items<K, Stamped<V>>, periodMs: nat, key: K, now: real): Option<V> {
    match Find(items, key)
    case Some(s) => if Expired(s.storedAt, now, periodMs) then None else Some(s.value)
    case None => None
  }

  function Changed<K(==), V>(
      items: Items<K, Stamped<V>>, capacity: nat, periodMs: nat, e: Event<K, V>): Items<K, Stamped<V>>
  {
    match e
    case Store(key, value, now) => Stored(items, capacity, key, Stamped(now, value))
    case Lookup(key, now) =>
      var touched := Touched(items, key);
      if Find(items, key).Some? && Answer(items, periodMs, key, now).None? then Without(touched, key) else touched
  }

  function ChangedAll<K(==), V>(items: Items<K, Stamped<V>>, capacity: nat, periodMs: nat, run: seq<Event<K, V>>)
    : Items<K, Stamped<V>>
  {
    if run == [] then items
    else Changed(ChangedAll(items, capacity, periodMs, run[..|run| - 1]), capacity, periodMs, run[|run| - 1])
  }

  /** The last value stored for a key in a run, with its time. */
  function LastStore<K(==), V>(run: seq<Event<K, V>>, key: K): Option<Stamped<V>> {
    if run == [] then None
    else
      var last := run[|run| - 1];
      if last.Store? && last.key == key then Some(Stamped(last.now, last.value)) else LastStore(run[..|run| - 1], key)
  }

  /** What an event can leave under a key: nothing, what it stores there, or what was there. */
  ghost predicate Follows<K, V>(items: Items<K, Stamped<V>>, e: Event<K, V>, after: Items<K, Stamped<V>>, key: K) {
    && DistinctKeys(after)
    && (Find(after, key).Some? ==>
          Find(after, key) == if e.Store? && e.key == key then Some(Stamped(e.now, e.value)) else Find(items, key))
  }

  lemma StoreFollows<K, V>(items: Items<K, Stamped<V>>, capacity: nat, e: Event<K, V>, key: K)
    requires DistinctKeys(items) && e.Store?
    ensures Follows(items, e, Stored(items, capacity, e.key, Stamped(e.now, e.value)), key)
  {
    var entry := Entry(e.key, Stamped(e.now, e.value));
    var all := Without(items, e.key) + [entry];
    hide Find, Without;
    AppendDistinct(items, entry);
    NewestFound(items, entry, key);
    if |all| > capacity && Find(all[|all| - capacity..], key).Some? {
      FindAfterEviction(all, |all| - capacity, key);
    }
  }

  lemma LookupFollows<K, V>(items: Items<K, Stamped<V>>, capacity: nat, periodMs: nat, e: Event<K, V>, key: K)
    requires DistinctKeys(items) && e.Lookup?
    ensures Follows(items, e, Changed(items, capacity, periodMs, e), key)
  {
    if Find(items, e.key).Some? {
      var entry := Entry(e.key, Find(items, e.key).value);
      var touched := Without(items, e.key) + [entry];
      AppendDistinct(items, entry);
      NewestFound(items, entry, key);
      KeysOfWithout(touched, e.key);
      FindAfterWithout(touched, e.key, key);
    }
  }

  /** Whatever is cached for a key is the last value stored for it. */
  lemma {:induction false} CachedIsLastStored<K, V>(capacity: nat, periodMs: nat, run: seq<Event<K, V>>, key: K)
    ensures DistinctKeys(ChangedAll([], capacity, periodMs, run))
    ensures Find(ChangedAll([], capacity, periodMs, run), key).Some? ==>
              Find(ChangedAll([], capacity, periodMs, run), key) == LastStore(run, key)
    decreases |run|
  {
    if run != [] {
      var before, e := run[..|run| - 1], run[|run| - 1];
      var items := ChangedAll([], capacity, periodMs, before);
      CachedIsLastStored(capacity, periodMs, before, key);
      if e.Store? {
        StoreFollows(items, capacity, e, key);
      } else {
        LookupFollows(items, capacity, periodMs, e, key);
      }
    }
  }

  /** A hit is the last value stored for the key, and younger than the check period. */
  lemma HitIsFresh<K, V>(capacity: nat, periodMs: nat, run: seq<Event<K, V>>, key: K, now: real)
    requires Answer(ChangedAll([], capacity, periodMs, run), periodMs, key, now).Some?
    ensures var last := LastStore(run, key);
            && last.Some?
            && last.value.value == Answer(ChangedAll([], capacity, periodMs, run), periodMs, key, now).value
            && (now - last.value.storedAt) * 1000.0 < periodMs as real
  {
    CachedIsLastStored(capacity, periodMs, run, key);
  }

  /** A lookup hits exactly if the entry is there and was stored less than the period ago. */
  lemma HitExact<K, V>(capacity: nat, periodMs: nat, run: seq<Event<K, V>>, key: K, now: real, value: V)
    ensures Answer(ChangedAll([], capacity, periodMs, run), periodMs, key, now) == Some(value) <==>
              exists at: real ::
                && Find(ChangedAll([], capacity, periodMs, run), key) == Some(Stamped(at, value))
                && periodMs > 0 && (now - at) * 1000.0 < periodMs as real
  {
    var found := Find(ChangedAll([], capacity, periodMs, run), key);
    if found.Some? {
      assert found == Some(Stamped(found.value.storedAt, found.value.value));
    }
  }

  /** The operations on the bounded cache that an event makes: a lookup also removes what it finds
      to be too old. */
  ghost function Operations<K, V>(items: Items<K, Stamped<V>>, periodMs: nat, e: Event<K, V>)
    : seq<Operation<K, Stamped<V>>>
  {
    match e
    case Store(key, value, now) => [Put(key, Stamped(now, value))]
    case Lookup(key, now) =>
      if Find(items, key).Some?
         && (periodMs == 0 || (now - Find(items, key).value.storedAt) * 1000.0 >= periodMs as real)
      then [Get(key), Remove(key)] else [Get(key)]
  }

  ghost function AllOperations<K, V>(capacity: nat, periodMs: nat, run: seq<Event<K, V>>)
    : seq<Operation<K, Stamped<V>>>
  {
    if run == [] then []
    else
      var before := run[..|run| - 1];
      AllOperations(capacity, periodMs, before)
      + Operations(ChangedAll([], capacity, periodMs, before), periodMs, run[|run| - 1])
  }

  /** The client's cache is the bounded cache after these operations. */
  lemma {:induction false} ClientIsLru<K, V>(capacity: nat, periodMs: nat, run: seq<Event<K, V>>)
    ensures ChangedAll([], capacity, periodMs, run) == AppliedAll([], capacity, AllOperations(capacity, periodMs, run))
    decreases |run|
  {
    if run != [] {
      var before, e := run[..|run| - 1], run[|run| - 1];
      ClientIsLru(capacity, periodMs, before);
      var ops, items := AllOperations(capacity, periodMs, before), ChangedAll([], capacity, periodMs, before);
      AppliedLast([], capacity, ops, Operations(items, periodMs, e)[0]);
      if |Operations(items, periodMs, e)| == 2 {
        assert ops + [Get(e.key), Remove(e.key)] == ops + [Get(e.key)] + [Remove(e.key)];
        AppliedLast([], capacity, ops + [Get(e.key)], Remove(e.key));
      }
    }
  }

  /** The keys, other than `key`, of a run. */
  ghost function OtherKeys<K, V>(run: seq<Event<K, V>>, key: K): set<K> {
    set i | 0 <= i < |run| && run[i].key != key :: run[i].key
  }

  /** Until `key` is stored again it is only looked up within the period since `at`. */
  ghost predicate OnlyFreshLookups<K, V>(run: seq<Event<K, V>>, key: K, at: real, periodMs: nat) {
    forall i :: 0 <= i < |run| && run[i].key == key ==>
      run[i].Lookup? && (run[i].now - at) * 1000.0 < periodMs as real
  }

  /** The operations since the entry was written: none of them writes or removes it. */
  ghost predicate KeptSince<K, V>(ops: seq<Operation<K, Stamped<V>>>, key: K, value: Stamped<V>, p: nat,
                                  others: set<K>) {
    WrittenAt(ops, key, value, p) && OthersSince(ops, key, p + 1) <= others
  }

  lemma KeptStep<K, V>(ops: seq<Operation<K, Stamped<V>>>, key: K, value: Stamped<V>, p: nat, others: set<K>,
                       o: Operation<K, Stamped<V>>)
    requires KeptSince(ops, key, value, p, others) && (o.key != key || o.Get?)
    ensures KeptSince(ops + [o], key, value, p, others + if o.key == key then {} else {o.key})
  {
    WrittenStep(ops, o, key, value, p);
    var longer := ops + [o];
    var more := others + if o.key == key then {} else {o.key};
    forall k | k in OthersSince(longer, key, p + 1)
      ensures k in more
    {
      var i :| 0 <= i < |longer| && i >= p + 1 && longer[i].key != key && longer[i].key == k;
      assert i < |ops| ==> longer[i] == ops[i];
    }
  }

  /** A stored value is a hit until its period has passed, unless `capacity` other keys come up in
      between or it is stored again. */
  lemma FreshIsHit<K, V>(capacity: nat, periodMs: nat, before: seq<Event<K, V>>, key: K, value: V, at: real,
                         later: seq<Event<K, V>>, now: real)
    requires periodMs > 0 && OnlyFreshLookups(later, key, at, periodMs) && |OtherKeys(later, key)| < capacity
    requires (now - at) * 1000.0 < periodMs as real
    ensures Answer(ChangedAll([], capacity, periodMs, before + [Store(key, value, at)] + later), periodMs, key, now)
         == Some(value)
  {
    KeptIsFound(capacity, periodMs, before, key, value, at, later);
  }

  lemma {:induction false} KeptIsFound<K, V>(
      capacity: nat, periodMs: nat, before: seq<Event<K, V>>, key: K, value: V, at: real, later: seq<Event<K, V>>)
    requires periodMs > 0 && OnlyFreshLookups(later, key, at, periodMs) && |OtherKeys(later, key)| < capacity
    ensures var run := before + [Store(key, value, at)] + later;
            && Find(ChangedAll([], capacity, periodMs, run), key) == Some(Stamped(at, value))
            && KeptSince(AllOperations(capacity, periodMs, run), key, Stamped(at, value),
                         |AllOperations(capacity, periodMs, before)|, OtherKeys(later, key))
    decreases |later|
  {
    var start := before + [Store(key, value, at)];
    var run, p, stamped := start + later, |AllOperations(capacity, periodMs, before)|, Stamped(at, value);
    if later == [] {
      assert run == start;
      KeptAtFirst(capacity, periodMs, before, key, value, at);
    } else {
      var shorter, e := later[..|later| - 1], later[|later| - 1];
      assert later == shorter + [e] && run == start + shorter + [e];
      FewerOthers(shorter, e, key);
      KeptIsFound(capacity, periodMs, before, key, value, at, shorter);
      KeptInRun(capacity, periodMs, start + shorter, key, stamped, p, OtherKeys(shorter, key), e);
    }
    hide KeptSince, OtherKeys, ChangedAll, AllOperations, OnlyFreshLookups;
    KeptIsThere(capacity, periodMs, run, key, stamped, p, OtherKeys(later, key));
  }

  lemma KeptAtFirst<K, V>(capacity: nat, periodMs: nat, before: seq<Event<K, V>>, key: K, value: V, at: real)
    ensures KeptSince(AllOperations(capacity, periodMs, before + [Store(key, value, at)]), key, Stamped(at, value),
                      |AllOperations(capacity, periodMs, before)|, {})
  {
    var start := before + [Store(key, value, at)];
    assert start[..|start| - 1] == before;
    assert OthersSince(AllOperations(capacity, periodMs, start), key, |AllOperations(capacity, periodMs, before)| + 1)
        == {};
  }

  lemma KeptInRun<K, V>(capacity: nat, periodMs: nat, run: seq<Event<K, V>>, key: K, value: Stamped<V>, p: nat,
                        others: set<K>, e: Event<K, V>)
    requires KeptSince(AllOperations(capacity, periodMs, run), key, value, p, others) && periodMs > 0
    requires Find(ChangedAll([], capacity, periodMs, run), key) == Some(value)
    requires e.key == key ==> e.Lookup? && (e.now - value.storedAt) * 1000.0 < periodMs as real
    ensures KeptSince(AllOperations(capacity, periodMs, run + [e]), key, value, p,
                      others + if e.key == key then {} else {e.key})
  {
    assert (run + [e])[..|run|] == run;
    KeptThrough(AllOperations(capacity, periodMs, run), ChangedAll([], capacity, periodMs, run), key, value, p,
                others, periodMs, e);
  }

  lemma KeptIsThere<K, V>(capacity: nat, periodMs: nat, run: seq<Event<K, V>>, key: K, value: Stamped<V>, p: nat,
                          others: set<K>)
    requires KeptSince(AllOperations(capacity, periodMs, run), key, value, p, others) && |others| < capacity
    ensures Find(ChangedAll([], capacity, periodMs, run), key) == Some(value)
  {
    var ops := AllOperations(capacity, periodMs, run);
    ClientIsLru(capacity, periodMs, run);
    SubsetCount(OthersSince(ops, key, p + 1), others);
    FewOthersKeep(capacity, ops, key, value, p);
  }

  lemma FewerOthers<K, V>(run: seq<Event<K, V>>, e: Event<K, V>, key: K)
    ensures OtherKeys(run + [e], key) == OtherKeys(run, key) + if e.key == key then {} else {e.key}
    ensures |OtherKeys(run, key)| <= |OtherKeys(run + [e], key)|
  {
    var longer := run + [e];
    assert longer[|run|] == e;
    forall k | k in OtherKeys(run, key)
      ensures k in OtherKeys(longer, key)
    {
      var i :| 0 <= i < |run| && run[i].key != key && run[i].key == k;
      assert longer[i].key == k;
    }
    forall k | k in OtherKeys(longer, key)
      ensures k in OtherKeys(run, key) || k == e.key
    {
      var i :| 0 <= i < |longer| && longer[i].key != key && longer[i].key == k;
      assert i < |run| ==> run[i].key == k;
    }
    SubsetCount(OtherKeys(run, key), OtherKeys(longer, key));
  }

  lemma KeptThrough<K, V>(ops: seq<Operation<K, Stamped<V>>>, items: Items<K, Stamped<V>>, key: K, value: Stamped<V>,
                          p: nat, others: set<K>, periodMs: nat, e: Event<K, V>)
    requires KeptSince(ops, key, value, p, others) && Find(items, key) == Some(value) && periodMs > 0
    requires e.key == key ==> e.Lookup? && (e.now - value.storedAt) * 1000.0 < periodMs as real
    ensures KeptSince(ops + Operations(items, periodMs, e), key, value, p,
                      others + if e.key == key then {} else {e.key})
  {
    var made := Operations(items, periodMs, e);
    KeptStep(ops, key, value, p, others, made[0]);
    if |made| == 2 {
      KeptStep(ops + [made[0]], key, value, p, others + {e.key}, made[1]);
      assert ops + made == ops + [made[0]] + [made[1]];
      assert others + {e.key} + {e.key} == others + {e.key};
    }
  }

  class ClientCache<K(==), V> {
    const cache: LruCache<K, Stamped<V>>
    const periodMs: nat

    constructor (capacity: nat, periodMs: nat)
      ensures fresh(cache) && cache.capacity == capacity && cache.items == [] && this.periodMs == periodMs
    {
      cache := new LruCache<K, Stamped<V>>(capacity);
      this.periodMs := periodMs;
    }

    method Cached(key: K, now: real) returns (value: Option<V>)
      modifies cache
      ensures value == Answer(old(cache.items), periodMs, key, now)
      ensures cache.items == Changed(old(cache.items), cache.capacity, periodMs, Event<K, V>.Lookup(key, now))
    {
      var item := cache.Get(key);
      if item.None? {
        return None;
      }
      if Expired(item.value.storedAt, now, periodMs) {
        cache.Remove(key);
        return None;
      }
      return Some(item.value.value);
    }

    method Store(key: K, value: V, now: real)
      modifies cache
      ensures cache.items == Changed(old(cache.items), cache.capacity, periodMs, Event.Store(key, value, now))
    {
      cache.Put(key, Stamped(now, value));
    }
  }

  /** What one HTTP call comes back with. */
  datatype Reply = NetworkError | Status(code: nat)

  predicate Transient(r: Reply) {
    r.NetworkError? || r.code == 429 || r.code >= 500
  }

  /** Unauthorized replies get one retry with a refreshed token. */
  predicate Unauthorized(r: Reply) {
    r.Status? && r.code == 401
  }

  /** The first `n` replies were all worth another try. */
  ghost predicate OnlyRetries(replies: seq<Reply>, n: nat)
    requires n <= |replies|
  {
    forall i :: 0 <= i < n ==> Transient(replies[i]) || Unauthorized(replies[i])
  }

  /** How many of the first `n` replies were transient failures. */
  function Transients(replies: seq<Reply>, n: nat): nat
    requires n <= |replies|
  {
    if n == 0 then 0 else Transients(replies, n - 1) + if Transient(replies[n - 1]) then 1 else 0
  }

  function Unauthorizeds(replies: seq<Reply>, n: nat): nat
    requires n <= |replies|
  {
    if n == 0 then 0 else Unauthorizeds(replies, n - 1) + if Unauthorized(replies[n - 1]) then 1 else 0
  }

  lemma {:induction false} OnlyRetried(replies: seq<Reply>, n: nat)
    requires n <= |replies|
    ensures Transients(replies, n) + Unauthorizeds(replies, n) <= n
    ensures Transients(replies, n) + Unauthorizeds(replies, n) == n ==> OnlyRetries(replies, n)
  {
    if n > 0 {
      OnlyRetried(replies, n - 1);
    }
  }

  /** The request loop over any sequence of replies; `token` says whether an endpoint issues
      tokens. Besides the deciding reply it reports how often it called, slept and refreshed. */
  method Request(retryCount: nat, token: bool, replies: seq<Reply>)
      returns (ok: bool, response: Reply, calls: nat, sleeps: nat, refreshes: nat)
    // replies to as many calls as can ever be made
    requires |replies| >= retryCount + 2
    // calls, pauses and forced token refreshes are bounded
    ensures 1 <= calls <= retryCount + 2 && sleeps <= retryCount && refreshes <= 1
    // every reply before the last was worth another try
    ensures forall i :: 0 <= i < calls - 1 ==>
              replies[i].NetworkError? || replies[i].code in {401, 429} || replies[i].code >= 500
    ensures refreshes == Unauthorizeds(replies, calls - 1) && (!token ==> refreshes == 0)
    ensures sleeps == Transients(replies, calls - 1)
    // the last reply decides: a success is returned, anything else is a final failure
    ensures response == replies[calls - 1] && (ok <==> response.Status? && 200 <= response.code < 300)
    ensures response.NetworkError? || response.code == 429 || response.code >= 500 ==> sleeps == retryCount
    ensures response == Status(401) && token ==> refreshes == 1
  {
    calls, sleeps, refreshes := 0, 0, 0;
    var refreshed := false;
    var attempts := retryCount + 1;
    var attempt := 0;
    while attempt < attempts
      invariant attempt < attempts
      invariant calls <= |replies| && calls == attempt + refreshes && sleeps == attempt
      invariant refreshes == (if refreshed then 1 else 0) && (!token ==> !refreshed)
      invariant refreshes == Unauthorizeds(replies, calls) && sleeps == Transients(replies, calls)
      decreases attempts - attempt, !refreshed
    {
      response := replies[calls];
      OnlyRetried(replies, calls);
      calls := calls + 1;
      if response.NetworkError? {
        attempt := attempt + 1;
        if attempt >= attempts {
          ok := false;
          return;
        }
        sleeps := sleeps + 1;
        continue;
      }
      if response.code == 401 && token && !refreshed {
        refreshed := true;
        refreshes := refreshes + 1;
        continue;
      }
      if response.code == 429 || response.code >= 500 {
        attempt := attempt + 1;
        if attempt < attempts {
          sleeps := sleeps + 1;
          continue;
        }
      }
      ok := 200 <= response.code < 300;
      return;
    }
    // the trailing raise is never reached
    assert false;
  }
}
