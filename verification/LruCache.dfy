/** The bounded cache that evicts the least recently used entry. */
module LruCaches {
  import opened Options

  datatype Entry<K, V> = Entry(key: K, value: V)

  type Items<K, V> = seq<Entry<K, V>>

  ghost function Keys<K, V>(items: Items<K, V>): set<K> {
    set i | 0 <= i < |items| :: items[i].key
  }

  ghost predicate DistinctKeys<K, V>(items: Items<K, V>) {
    forall i, j :: 0 <= i < j < |items| ==> items[i].key != items[j].key
  }

  function Find<K(==), V>(items: Items<K, V>, key: K): Option<V> {
    if items == [] then None
    else if items[0].key == key then Some(items[0].value)
    else Find(items[1..], key)
  }

  function Without<K(==), V>(items: Items<K, V>, key: K): Items<K, V> {
    if items == [] then []
    else if items[0].key == key then Without(items[1..], key)
    else [items[0]] + Without(items[1..], key)
  }

  // The operations of the cache on its entries, least recently used first.

  function Touched<K(==), V>(items: Items<K, V>, key: K): Items<K, V> {
    match Find(items, key)
    case Some(value) => Without(items, key) + [Entry(key, value)]
    case None => items
  }

  function Stored<K(==), V>(items: Items<K, V>, capacity: nat, key: K, value: V): Items<K, V> {
    var all := Without(items, key) + [Entry(key, value)];
    if |all| > capacity then all[|all| - capacity..] else all
  }

  /** The entries whose keys are in `keys`, in the same order. */
  ghost function Only<K, V>(items: Items<K, V>, keys: set<K>): Items<K, V> {
    if items == [] then []
    else if items[0].key in keys then [items[0]] + Only(items[1..], keys)
    else Only(items[1..], keys)
  }

  lemma KeysOfRest<K, V>(items: Items<K, V>)
    requires items != []
    ensures Keys(items) == {items[0].key} + Keys(items[1..])
  {
    forall k | k in Keys(items)
      ensures k in {items[0].key} + Keys(items[1..])
    {
      var i :| 0 <= i < |items| && items[i].key == k;
      if i > 0 {
        assert items[1..][i - 1].key == k;
      }
    }
    forall k | k in Keys(items[1..])
      ensures k in Keys(items)
    {
      var i :| 0 <= i < |items[1..]| && items[1..][i].key == k;
      assert items[i + 1].key == k;
    }
  }

  lemma {:induction false} KeysOfWithout<K, V>(items: Items<K, V>, key: K)
    requires DistinctKeys(items)
    ensures Keys(Without(items, key)) == Keys(items) - {key}
    ensures DistinctKeys(Without(items, key))
    ensures |Without(items, key)| == |items| - (if key in Keys(items) then 1 else 0)
    ensures key !in Keys(items) ==> Without(items, key) == items
  {
    if items != [] {
      KeysOfRest(items);
      KeysOfWithout(items[1..], key);
      assert items[0].key !in Keys(items[1..]);
      if items[0].key != key {
        KeysOfRest([items[0]] + Without(items[1..], key));
        assert ([items[0]] + Without(items[1..], key))[1..] == Without(items[1..], key);
        var rest := Without(items[1..], key);
        assert forall j :: 0 <= j < |rest| ==> rest[j].key in Keys(rest);
      }
    }
  }

  lemma {:induction false} OnlyConcat<K, V>(a: Items<K, V>, b: Items<K, V>, keys: set<K>)
    ensures Only(a + b, keys) == Only(a, keys) + Only(b, keys)
  {
    if a == [] {
      assert a + b == b;
    } else {
      assert (a + b)[1..] == a[1..] + b;
      OnlyConcat(a[1..], b, keys);
    }
  }

  lemma {:induction false} OnlyWithout<K, V>(items: Items<K, V>, keys: set<K>, key: K)
    ensures Only(Without(items, key), keys) == Without(Only(items, keys), key)
    ensures Only(items, keys - {key}) == Without(Only(items, keys), key)
  {
    if items != [] {
      OnlyWithout(items[1..], keys, key);
      var rest := Only(items[1..], keys);
      assert ([items[0]] + rest)[1..] == rest;
      assert ([items[0]] + Without(items[1..], key))[1..] == Without(items[1..], key);
    }
  }

  lemma {:induction false} FindIsKey<K, V>(items: Items<K, V>, key: K)
    ensures Find(items, key).Some? <==> key in Keys(items)
  {
    if items != [] {
      KeysOfRest(items);
      FindIsKey(items[1..], key);
    }
  }

  lemma {:induction false} FindInOnly<K, V>(items: Items<K, V>, keys: set<K>, key: K)
    ensures Find(Only(items, keys), key) == if key in keys then Find(items, key) else None
  {
    if items != [] {
      FindInOnly(items[1..], keys, key);
      assert ([items[0]] + Only(items[1..], keys))[1..] == Only(items[1..], keys);
    }
  }

  /** The smaller cache is a recency-ordered part of the larger one and at least as full. */
  ghost predicate Included<K, V>(small: Items<K, V>, large: Items<K, V>, c: nat, d: nat) {
    && DistinctKeys(small) && DistinctKeys(large)
    && small == Only(large, Keys(small))
    && |small| <= c && |large| <= d && c - |small| <= d - |large|
  }

  lemma KeysOfAppend<K, V>(items: Items<K, V>, e: Entry<K, V>)
    ensures Keys(items + [e]) == Keys(items) + {e.key}
  {
    forall k | k in Keys(items) + {e.key}
      ensures k in Keys(items + [e])
    {
      if k in Keys(items) {
        var i :| 0 <= i < |items| && items[i].key == k;
        assert (items + [e])[i].key == k;
      } else {
        assert (items + [e])[|items|].key == k;
      }
    }
  }

  /** Moving a key to the end of both caches, or of the larger one only, keeps the order. */
  lemma AppendKeepsPart<K, V>(small: Items<K, V>, large: Items<K, V>, e: Entry<K, V>, both: bool)
    requires DistinctKeys(small) && DistinctKeys(large) && small == Only(large, Keys(small))
    requires !both ==> e.key !in Keys(small)
    ensures var l := Without(large, e.key) + [e];
            var s := if both then Without(small, e.key) + [e] else small;
            DistinctKeys(s) && DistinctKeys(l) && s == Only(l, Keys(s))
  {
    KeysOfWithout(large, e.key);
    KeysOfWithout(small, e.key);
    OnlyWithout(large, Keys(small), e.key);
    var l, s := Without(large, e.key), Without(small, e.key);
    assert forall i :: 0 <= i < |l| ==> l[i].key in Keys(l);
    assert forall i :: 0 <= i < |s| ==> s[i].key in Keys(s);
    KeysOfAppend(s, e);
    var keys := if both then Keys(s + [e]) else Keys(small);
    OnlyConcat(l, [e], keys);
    assert [e][1..] == [];
    if both {
      assert keys - {e.key} == Keys(small) - {e.key};
      OnlyWithout(large, keys, e.key);
      OnlyWithout(large, Keys(small), e.key);
    }
  }

  lemma EvictKeepsPart<K, V>(small: Items<K, V>, large: Items<K, V>)
    requires DistinctKeys(small) && DistinctKeys(large) && small == Only(large, Keys(small)) && small != []
    ensures DistinctKeys(small[1..]) && small[1..] == Only(large, Keys(small[1..]))
    ensures DistinctKeys(large[1..]) && small[1..] == Only(large[1..], Keys(small[1..]))
  {
    KeysOfRest(small);
    assert small[0].key !in Keys(small[1..]);
    KeysOfWithout(small[1..], small[0].key);
    OnlyWithout(large, Keys(small), small[0].key);
    assert Keys(small[1..]) == Keys(small) - {small[0].key};
    assert Without(small, small[0].key) == small[1..];
    // the oldest entry of the larger cache is either the smaller one's oldest or not in it
    if large[0].key in Keys(small) {
      assert small[0] == large[0];
    }
    assert Only(large, Keys(small[1..])) == Only(large[1..], Keys(small[1..]));
  }

  datatype Operation<K, V> = Get(key: K) | Put(key: K, value: V) | Remove(key: K)

  function Applied<K(==), V>(items: Items<K, V>, capacity: nat, o: Operation<K, V>): Items<K, V> {
    match o
    case Get(key) => Touched(items, key)
    case Put(key, value) => Stored(items, capacity, key, value)
    case Remove(key) => Without(items, key)
  }

  lemma PutKeepsIncluded<K, V>(small: Items<K, V>, large: Items<K, V>, c: nat, d: nat, key: K, value: V)
    requires Included(small, large, c, d)
    ensures Included(Stored(small, c, key, value), Stored(large, d, key, value), c, d)
  {
    hide Only, Without, Keys;
    var e := Entry(key, value);
    AppendKeepsPart(small, large, e, true);
    KeysOfWithout(small, key);
    KeysOfWithout(large, key);
    var s, l := Without(small, key) + [e], Without(large, key) + [e];
    OnlyIsPart(large, Keys(small));
    if |s| > c {
      EvictKeepsPart(s, l);
    }
  }

  lemma {:induction false} OnlyIsPart<K, V>(items: Items<K, V>, keys: set<K>)
    ensures Keys(Only(items, keys)) == Keys(items) * keys
  {
    if items != [] {
      KeysOfRest(items);
      OnlyIsPart(items[1..], keys);
      var rest := Only(items[1..], keys);
      KeysOfRest([items[0]] + rest);
      assert ([items[0]] + rest)[1..] == rest;
    }
  }

  lemma IncludedStep<K, V>(small: Items<K, V>, large: Items<K, V>, c: nat, d: nat, o: Operation<K, V>)
    requires Included(small, large, c, d)
    ensures Included(Applied(small, c, o), Applied(large, d, o), c, d)
    ensures Find(small, o.key).Some? ==> Find(large, o.key) == Find(small, o.key)
  {
    OnlyIsPart(large, Keys(small));
    FindInOnly(large, Keys(small), o.key);
    FindIsKey(small, o.key);
    FindIsKey(large, o.key);
    KeysOfWithout(small, o.key);
    KeysOfWithout(large, o.key);
    match o {
      case Get(key) =>
        if Find(large, key).Some? {
          AppendKeepsPart(small, large, Entry(key, Find(large, key).value), Find(small, key).Some?);
        }
      case Put(key, value) => PutKeepsIncluded(small, large, c, d, key, value);
      case Remove(key) =>
        OnlyWithout(large, Keys(small), key);
        OnlyWithout(large, Keys(small) - {key}, key);
        KeysOfWithout(Without(small, key), key);
    }
  }

  function AppliedAll<K(==), V>(items: Items<K, V>, capacity: nat, run: seq<Operation<K, V>>): Items<K, V>
    decreases |run|
  {
    if run == [] then items else AppliedAll(Applied(items, capacity, run[0]), capacity, run[1..])
  }

  /** After any run of operations a smaller cache holds a recency-ordered part of what a larger
      one holds, with the same values, and neither exceeds its capacity. */
  lemma {:induction false} InclusionRun<K, V>(
      small: Items<K, V>, large: Items<K, V>, c: nat, d: nat, run: seq<Operation<K, V>>)
    requires Included(small, large, c, d)
    ensures Included(AppliedAll(small, c, run), AppliedAll(large, d, run), c, d)
    decreases |run|
  {
    if run != [] {
      IncludedStep(small, large, c, d, run[0]);
      InclusionRun(Applied(small, c, run[0]), Applied(large, d, run[0]), c, d, run[1..]);
    }
  }

  /** A larger cache never misses what a smaller one hits. */
  lemma HitsGrowWithCapacity<K, V>(c: nat, d: nat, run: seq<Operation<K, V>>, key: K)
    requires c <= d
    ensures Find(AppliedAll([], c, run), key).Some? ==>
              Find(AppliedAll([], d, run), key) == Find(AppliedAll([], c, run), key)
    ensures |AppliedAll<K, V>([], c, run)| <= c
  {
    InclusionRun<K, V>([], [], c, d, run);
    IncludedStep(AppliedAll([], c, run), AppliedAll([], d, run), c, d, Get(key));
  }

  /** When a key was last read or written in a run; -1 if never. Removals are no uses. */
  function LastUse<K(==), V>(run: seq<Operation<K, V>>, key: K): (at: int)
    ensures -1 <= at < |run|
  {
    if run == [] then -1
    else if run[|run| - 1].key == key && !run[|run| - 1].Remove? then |run| - 1
    else LastUse(run[..|run| - 1], key)
  }

  /** Entries further on were used later, and all of them were used. */
  ghost predicate ByUse<K, V>(items: Items<K, V>, run: seq<Operation<K, V>>) {
    items == [] ||
    (&& LastUse(run, items[0].key) >= 0
     && (forall e :: e in items[1..] ==> LastUse(run, items[0].key) < LastUse(run, e.key))
     && ByUse(items[1..], run))
  }

  lemma {:induction false} WithoutMembers<K, V>(items: Items<K, V>, key: K, e: Entry<K, V>)
    ensures e in Without(items, key) <==> e in items && e.key != key
  {
    if items != [] {
      assert e in items <==> e == items[0] || e in items[1..];
      WithoutMembers(items[1..], key, e);
    }
  }

  lemma {:induction false} WithoutByUse<K, V>(items: Items<K, V>, run: seq<Operation<K, V>>, key: K)
    requires ByUse(items, run)
    ensures ByUse(Without(items, key), run)
  {
    hide LastUse;
    if items != [] {
      WithoutByUse(items[1..], run, key);
      forall e | e in Without(items[1..], key)
        ensures e in items[1..]
      {
        WithoutMembers(items[1..], key, e);
      }
      assert ([items[0]] + Without(items[1..], key))[1..] == Without(items[1..], key);
    }
  }

  /** An operation changes no last use but its own key's. */
  lemma {:induction false} OtherUsesStay<K, V>(items: Items<K, V>, run: seq<Operation<K, V>>, o: Operation<K, V>)
    requires ByUse(items, run) && (o.Remove? || forall e :: e in items ==> e.key != o.key)
    ensures ByUse(items, run + [o])
  {
    assert (run + [o])[..|run|] == run;
    if items != [] {
      OtherUsesStay(items[1..], run, o);
      assert items[0] in items && forall e :: e in items[1..] ==> e in items;
    }
  }

  lemma {:induction false} AppendByUse<K, V>(items: Items<K, V>, run: seq<Operation<K, V>>, e: Entry<K, V>)
    requires ByUse(items, run) && LastUse(run, e.key) == |run| - 1 >= 0
    requires forall x :: x in items ==> LastUse(run, x.key) < |run| - 1
    ensures ByUse(items + [e], run)
  {
    hide LastUse;
    if items == [] {
      assert [e][1..] == [];
    } else {
      assert items[0] in items && forall x :: x in items[1..] ==> x in items;
      AppendByUse(items[1..], run, e);
      assert (items + [e])[1..] == items[1..] + [e];
    }
  }

  lemma {:induction false} SuffixByUse<K, V>(items: Items<K, V>, run: seq<Operation<K, V>>, from: nat)
    requires ByUse(items, run) && from <= |items|
    ensures ByUse(items[from..], run)
  {
    if from > 0 {
      SuffixByUse(items[1..], run, from - 1);
      assert items[1..][from - 1..] == items[from..];
    }
  }

  /** The entries with one key moved to, or put at, the end by an operation that uses it. */
  lemma UsedByUse<K, V>(items: Items<K, V>, run: seq<Operation<K, V>>, o: Operation<K, V>, value: V)
    requires ByUse(items, run) && !o.Remove?
    ensures ByUse(Without(items, o.key) + [Entry(o.key, value)], run + [o])
  {
    WithoutByUse(items, run, o.key);
    var rest := Without(items, o.key);
    forall e | e in rest
      ensures e.key != o.key && LastUse(run + [o], e.key) < |run|
    {
      WithoutMembers(items, o.key, e);
      assert (run + [o])[..|run|] == run;
    }
    OtherUsesStay(rest, run, o);
    AppendByUse(rest, run + [o], Entry(o.key, value));
  }

  /** One operation keeps the entries in the order of their last use. */
  lemma AppliedByUse<K, V>(items: Items<K, V>, capacity: nat, run: seq<Operation<K, V>>, o: Operation<K, V>)
    requires ByUse(items, run)
    ensures ByUse(Applied(items, capacity, o), run + [o])
  {
    hide ByUse, LastUse;
    match o {
      case Get(key) =>
        if Find(items, key).Some? {
          UsedByUse(items, run, o, Find(items, key).value);
        } else {
          NotFound(items, key);
          OtherUsesStay(items, run, o);
        }
      case Put(key, value) =>
        UsedByUse(items, run, o, value);
        var all := Without(items, key) + [Entry(key, value)];
        SuffixByUse(all, run + [o], if |all| > capacity then |all| - capacity else 0);
      case Remove(key) =>
        WithoutByUse(items, run, key);
        OtherUsesStay(Without(items, key), run, o);
    }
  }

  /** After any run the entries stand in the order of their last use, so the one that a full
      cache evicts is the least recently used. */
  lemma {:induction false} OrderedByUse<K, V>(capacity: nat, run: seq<Operation<K, V>>)
    ensures ByUse(AppliedAll([], capacity, run), run)
    decreases |run|
  {
    if run != [] {
      var before, o := run[..|run| - 1], run[|run| - 1];
      assert run == before + [o];
      OrderedByUse(capacity, before);
      AppliedLast<K, V>([], capacity, before, o);
      AppliedByUse(AppliedAll<K, V>([], capacity, before), capacity, before, o);
    }
  }

  lemma {:induction false} NotFound<K, V>(items: Items<K, V>, key: K)
    requires Find(items, key).None?
    ensures forall e :: e in items ==> e.key != key
  {
    if items != [] {
      NotFound(items[1..], key);
    }
  }

  lemma {:induction false} AppliedLast<K, V>(
      items: Items<K, V>, capacity: nat, run: seq<Operation<K, V>>, o: Operation<K, V>)
    ensures AppliedAll(items, capacity, run + [o]) == Applied(AppliedAll(items, capacity, run), capacity, o)
    decreases |run|
  {
    if run == [] {
      assert run + [o] == [o] && [o][1..] == [];
    } else {
      assert (run + [o])[1..] == run[1..] + [o];
      AppliedLast(Applied(items, capacity, run[0]), capacity, run[1..], o);
    }
  }

  lemma {:induction false} LaterIsMoreRecent<K, V>(items: Items<K, V>, run: seq<Operation<K, V>>, i: nat, j: nat)
    requires ByUse(items, run) && i < j < |items|
    ensures LastUse(run, items[i].key) < LastUse(run, items[j].key)
  {
    if i == 0 {
      assert items[1..][j - 1] == items[j];
    } else {
      LaterIsMoreRecent(items[1..], run, i - 1, j - 1);
    }
  }

  /** What a full cache drops for a new key was used before everything it keeps. */
  lemma EvictedIsLeastRecent<K, V>(
      capacity: nat, run: seq<Operation<K, V>>, o: Operation<K, V>, gone: Entry<K, V>, kept: Entry<K, V>)
    requires o.Put? && gone in AppliedAll([], capacity, run) && gone.key != o.key
    requires gone !in AppliedAll([], capacity, run + [o]) && kept in AppliedAll([], capacity, run + [o])
    ensures |AppliedAll([], capacity, run + [o])| == capacity
    ensures LastUse(run + [o], gone.key) < LastUse(run + [o], kept.key)
  {
    var items := AppliedAll([], capacity, run);
    AppliedLast([], capacity, run, o);
    OrderedByUse(capacity, run);
    UsedByUse(items, run, o, o.value);
    WithoutMembers(items, o.key, gone);
    hide ByUse, LastUse, AppliedAll;
    var all := Without(items, o.key) + [Entry(o.key, o.value)];
    assert gone in all;
    var dropped := |all| - capacity;
    var i :| 0 <= i < |all| && all[i] == gone;
    var j :| dropped <= j < |all| && all[j] == kept;
    LaterIsMoreRecent(all, run + [o], i, j);
  }

  lemma {:induction false} FindAfterWithout<K, V>(items: Items<K, V>, key: K, other: K)
    ensures Find(Without(items, key), other) == if other == key then None else Find(items, other)
  {
    if items != [] {
      FindAfterWithout(items[1..], key, other);
      assert ([items[0]] + Without(items[1..], key))[1..] == Without(items[1..], key);
    }
  }

  lemma {:induction false} FindInConcat<K, V>(a: Items<K, V>, b: Items<K, V>, key: K)
    ensures Find(a + b, key) == if Find(a, key).Some? then Find(a, key) else Find(b, key)
  {
    if a == [] {
      assert a + b == b;
    } else {
      assert (a + b)[1..] == a[1..] + b;
      FindInConcat(a[1..], b, key);
    }
  }

  /** Eviction can lose an entry but not change it, as keys are distinct. */
  lemma FindAfterEviction<K, V>(items: Items<K, V>, from: nat, key: K)
    requires DistinctKeys(items) && from <= |items| && Find(items[from..], key).Some?
    ensures Find(items, key) == Find(items[from..], key)
  {
    assert items == items[..from] + items[from..];
    FindInConcat(items[..from], items[from..], key);
    FindIsKey(items[..from], key);
    FindIsKey(items[from..], key);
  }

  lemma AppendDistinct<K, V>(items: Items<K, V>, e: Entry<K, V>)
    requires DistinctKeys(items)
    ensures DistinctKeys(Without(items, e.key) + [e])
  {
    KeysOfWithout(items, e.key);
    var rest := Without(items, e.key);
    assert forall i :: 0 <= i < |rest| ==> rest[i].key in Keys(rest);
  }

  // ---- exactly what a cache holds

  lemma NewestFound<K, V>(items: Items<K, V>, e: Entry<K, V>, key: K)
    ensures Find(Without(items, e.key) + [e], key) == if key == e.key then Some(e.value) else Find(items, key)
  {
    FindAfterWithout(items, e.key, key);
    FindInConcat(Without(items, e.key), [e], key);
    assert Find([e], key) == if key == e.key then Some(e.value) else None;
  }

  /** Reading changes the value found under no key. */
  lemma GetKeepsAll<K, V>(items: Items<K, V>, key: K, other: K)
    ensures Find(Touched(items, key), other) == Find(items, other)
  {
    if Find(items, key).Some? {
      NewestFound(items, Entry(key, Find(items, key).value), other);
    }
  }

  /** A full cache drops its oldest entry for a new key; nothing else is lost by a write. */
  ghost predicate DroppedFor<K, V>(items: Items<K, V>, capacity: nat, key: K, other: K) {
    other != key && Find(items, key).None? && |items| == capacity && items != [] && items[0].key == other
  }

  lemma PutContents<K, V>(items: Items<K, V>, capacity: nat, key: K, value: V, other: K)
    requires DistinctKeys(items) && |items| <= capacity
    ensures Find(Stored(items, capacity, key, value), other) ==
              if other == key then (if capacity > 0 then Some(value) else None)
              else if DroppedFor(items, capacity, key, other) then None
              else Find(items, other)
    ensures DistinctKeys(Stored(items, capacity, key, value)) && |Stored(items, capacity, key, value)| <= capacity
  {
    var e := Entry(key, value);
    var all := Without(items, key) + [e];
    AppendDistinct(items, e);
    NewestFound(items, e, other);
    KeysOfWithout(items, key);
    FindIsKey(items, key);
    if |all| > capacity {
      DropFirst(all, other);
      assert all[|all| - capacity..] == all[1..];
    }
  }

  lemma DropFirst<K, V>(items: Items<K, V>, key: K)
    requires DistinctKeys(items) && items != []
    ensures Find(items[1..], key) == if items[0].key == key then None else Find(items, key)
  {
    if items[0].key == key {
      FindIsKey(items[1..], key);
    }
  }

  lemma {:induction false} WellKept<K, V>(capacity: nat, run: seq<Operation<K, V>>)
    ensures DistinctKeys(AppliedAll([], capacity, run)) && |AppliedAll<K, V>([], capacity, run)| <= capacity
  {
    InclusionRun<K, V>([], [], capacity, capacity, run);
  }

  /** The other keys that the cache holds and that were used after the key. */
  ghost function Fresher<K, V>(capacity: nat, run: seq<Operation<K, V>>, key: K): set<K> {
    set k | k in Keys(AppliedAll([], capacity, run)) && k != key && LastUse(run, k) > LastUse(run, key)
  }

  /** The key was written with `value` at `p`, and neither written again nor removed since. */
  ghost predicate WrittenAt<K, V>(run: seq<Operation<K, V>>, key: K, value: V, p: nat) {
    && p < |run| && run[p] == Put(key, value)
    && forall j :: p < j < |run| ==> run[j].key != key || run[j].Get?
  }

  /** Since then the cache never held `capacity` other keys that were used after it. */
  ghost predicate NeverCrowded<K, V>(capacity: nat, run: seq<Operation<K, V>>, key: K, p: nat) {
    forall j :: p < j <= |run| ==> |Fresher(capacity, run[..j], key)| < capacity
  }

  /** A key that is found leaves room for fewer than `capacity` others, so not all can be fresher. */
  lemma FoundIsNotCrowded<K, V>(capacity: nat, run: seq<Operation<K, V>>, key: K)
    requires Find(AppliedAll([], capacity, run), key).Some?
    ensures |Fresher(capacity, run, key)| < capacity
  {
    var items := AppliedAll<K, V>([], capacity, run);
    WellKept(capacity, run);
    FindIsKey(items, key);
    KeyCount(items);
    SmallerSet(Fresher(capacity, run, key), Keys(items), key);
  }

  lemma SmallerSet<K>(small: set<K>, large: set<K>, key: K)
    requires small <= large && key in large && key !in small
    ensures |small| < |large|
  {
    assert large == small + (large - small);
    assert |large| == |small| + |large - small|;
    assert key in large - small;
  }

  lemma {:induction false} KeyCount<K, V>(items: Items<K, V>)
    ensures |Keys(items)| <= |items|
    ensures DistinctKeys(items) ==> |Keys(items)| == |items|
  {
    if items != [] {
      KeysOfRest(items);
      KeyCount(items[1..]);
      if DistinctKeys(items) {
        assert items[0].key !in Keys(items[1..]);
      }
    }
  }

  lemma OldestIsOlder<K, V>(items: Items<K, V>, run: seq<Operation<K, V>>, o: Operation<K, V>, k: K)
    requires ByUse(items, run) && items != [] && o.Put? && o.key != items[0].key
    requires k in Keys(items[1..] + [Entry(o.key, o.value)])
    ensures LastUse(run + [o], k) > LastUse(run + [o], items[0].key)
  {
    var after := items[1..] + [Entry(o.key, o.value)];
    assert (run + [o])[..|run|] == run;
    var i :| 0 <= i < |after| && after[i].key == k;
    if i < |items| - 1 {
      assert after[i] == items[i + 1];
      LaterIsMoreRecent(items, run, 0, i + 1);
    }
  }

  /** The key dropped for a new one is older than all the `capacity` keys that are held then. */
  lemma DroppedIsCrowded<K, V>(capacity: nat, run: seq<Operation<K, V>>, o: Operation<K, V>, key: K)
    requires o.Put? && DroppedFor(AppliedAll([], capacity, run), capacity, o.key, key)
    ensures |Fresher(capacity, run + [o], key)| >= capacity
  {
    var items := AppliedAll<K, V>([], capacity, run);
    var after := AppliedAll<K, V>([], capacity, run + [o]);
    WellKept(capacity, run);
    WellKept(capacity, run + [o]);
    AppliedLast<K, V>([], capacity, run, o);
    OrderedByUse(capacity, run);
    KeysOfWithout(items, o.key);
    FindIsKey(items, o.key);
    assert after == items[1..] + [Entry(o.key, o.value)];
    KeyCount(after);
    hide LastUse, AppliedAll, ByUse;
    forall k | k in Keys(after)
      ensures k != key && LastUse(run + [o], k) > LastUse(run + [o], key)
    {
      OldestIsOlder(items, run, o, k);
    }
    assert Keys(after) <= Fresher(capacity, run + [o], key);
    assert Fresher(capacity, run + [o], key) == Keys(after);
  }

  lemma WrittenStep<K, V>(run: seq<Operation<K, V>>, o: Operation<K, V>, key: K, value: V, p: nat)
    requires o.key != key || o.Get?
    ensures WrittenAt(run + [o], key, value, p) <==> WrittenAt(run, key, value, p)
  {
    var longer := run + [o];
    assert longer[|run|] == o && forall j :: 0 <= j < |run| ==> longer[j] == run[j];
  }

  lemma CrowdedStep<K, V>(capacity: nat, run: seq<Operation<K, V>>, o: Operation<K, V>, key: K, p: nat)
    requires p < |run|
    ensures NeverCrowded(capacity, run + [o], key, p) <==>
              NeverCrowded(capacity, run, key, p) && |Fresher(capacity, run + [o], key)| < capacity
  {
    var longer := run + [o];
    assert longer[..|longer|] == longer && forall j :: 0 <= j <= |run| ==> longer[..j] == run[..j];
  }

  /** Right after its own use nothing is fresher than a key. */
  lemma JustUsed<K, V>(capacity: nat, run: seq<Operation<K, V>>, o: Operation<K, V>, key: K)
    requires o.key == key && !o.Remove?
    ensures Fresher(capacity, run + [o], key) == {}
  {
  }

  /** What one operation leaves under a key. */
  lemma FoundStep<K, V>(capacity: nat, run: seq<Operation<K, V>>, o: Operation<K, V>, key: K)
    ensures var items := AppliedAll<K, V>([], capacity, run);
            Find(AppliedAll([], capacity, run + [o]), key) ==
              if o.Put? && o.key == key then (if capacity > 0 then Some(o.value) else None)
              else if o.Put? && DroppedFor(items, capacity, o.key, key) then None
              else if o.Remove? && o.key == key then None
              else Find(items, key)
  {
    var items := AppliedAll<K, V>([], capacity, run);
    WellKept(capacity, run);
    AppliedLast<K, V>([], capacity, run, o);
    match o {
      case Get(k) => GetKeepsAll(items, k, key);
      case Remove(k) => FindAfterWithout(items, k, key);
      case Put(k, value) => PutContents(items, capacity, k, value, key);
    }
  }

  /** A key is found with a value exactly when it was last written with that value, was not removed
      since, and the cache never since held `capacity` other keys used after it. */
  lemma {:induction false} FoundExact<K, V>(capacity: nat, run: seq<Operation<K, V>>, key: K, value: V)
    ensures Find(AppliedAll([], capacity, run), key) == Some(value) <==>
              exists p :: WrittenAt(run, key, value, p) && NeverCrowded(capacity, run, key, p)
    decreases |run|
  {
    if run != [] {
      var before, o := run[..|run| - 1], run[|run| - 1];
      assert run == before + [o];
      FoundExact(capacity, before, key, value);
      if o.key == key && !o.Get? {
        FoundAfterOwn(capacity, before, o, value);
      } else {
        FoundAfterOther(capacity, before, o, key, value);
      }
    }
  }

  lemma FoundAfterOwn<K, V>(capacity: nat, run: seq<Operation<K, V>>, o: Operation<K, V>, value: V)
    requires !o.Get?
    ensures Find(AppliedAll([], capacity, run + [o]), o.key) == Some(value) <==>
              exists p :: WrittenAt(run + [o], o.key, value, p) && NeverCrowded(capacity, run + [o], o.key, p)
  {
    var longer, p := run + [o], |run|;
    FoundStep(capacity, run, o, o.key);
    assert longer[p] == o;
    if o.Put? {
      JustUsed(capacity, run, o, o.key);
      assert longer[..|longer|] == longer;
      hide AppliedAll, Fresher;
      assert NeverCrowded(capacity, longer, o.key, p) <==> capacity > 0;
      assert WrittenAt(longer, o.key, value, p) <==> o.value == value;
    }
  }

  lemma FoundAfterOther<K, V>(capacity: nat, run: seq<Operation<K, V>>, o: Operation<K, V>, key: K, value: V)
    requires o.key != key || o.Get?
    requires Find(AppliedAll([], capacity, run), key) == Some(value) <==>
               exists p :: WrittenAt(run, key, value, p) && NeverCrowded(capacity, run, key, p)
    ensures Find(AppliedAll([], capacity, run + [o]), key) == Some(value) <==>
              exists p :: WrittenAt(run + [o], key, value, p) && NeverCrowded(capacity, run + [o], key, p)
  {
    FoundStep(capacity, run, o, key);
    forall p: nat
      ensures WrittenAt(run + [o], key, value, p) <==> WrittenAt(run, key, value, p)
    {
      WrittenStep(run, o, key, value, p);
    }
    forall p: nat | p < |run|
      ensures NeverCrowded(capacity, run + [o], key, p) <==>
                NeverCrowded(capacity, run, key, p) && |Fresher(capacity, run + [o], key)| < capacity
    {
      CrowdedStep(capacity, run, o, key, p);
    }
    if Find(AppliedAll([], capacity, run + [o]), key).Some? {
      FoundIsNotCrowded(capacity, run + [o], key);
    } else if o.Put? && DroppedFor(AppliedAll([], capacity, run), capacity, o.key, key) {
      DroppedIsCrowded(capacity, run, o, key);
    }
  }

  /** The other keys of the operations after the first `from`. */
  ghost function OthersSince<K, V>(run: seq<Operation<K, V>>, key: K, from: nat): set<K> {
    set i | 0 <= i < |run| && i >= from && run[i].key != key :: run[i].key
  }

  lemma {:induction false} LastUseIs<K, V>(run: seq<Operation<K, V>>, key: K)
    ensures LastUse(run, key) >= 0 ==> run[LastUse(run, key)].key == key
    ensures forall j :: LastUse(run, key) < j < |run| && run[j].key == key ==> run[j].Remove?
    decreases |run|
  {
    if run != [] {
      LastUseIs(run[..|run| - 1], key);
    }
  }

  /** A key stays as long as fewer than `capacity` others are used after it was written. */
  lemma FewOthersKeep<K, V>(capacity: nat, run: seq<Operation<K, V>>, key: K, value: V, p: nat)
    requires WrittenAt(run, key, value, p) && |OthersSince(run, key, p + 1)| < capacity
    ensures Find(AppliedAll([], capacity, run), key) == Some(value)
  {
    forall j | p < j <= |run|
      ensures |Fresher(capacity, run[..j], key)| < capacity
    {
      LastUseIs(run[..j], key);
      assert run[..j][p] == run[p];
      forall k | k in Fresher(capacity, run[..j], key)
        ensures k in OthersSince(run, key, p + 1)
      {
        LastUseIs(run[..j], k);
        var u := LastUse(run[..j], k);
        assert run[..j][u] == run[u];
      }
      SubsetCount(Fresher(capacity, run[..j], key), OthersSince(run, key, p + 1));
    }
    FoundExact(capacity, run, key, value);
  }

  lemma SubsetCount<K>(small: set<K>, large: set<K>)
    requires small <= large
    ensures |small| <= |large|
  {
    assert large == small + (large - small);
  }

  lemma RoomIsLeft()
    ensures Applied([], 2, Put('a', 1)) == [Entry('a', 1)]
    ensures Applied([Entry('a', 1)], 2, Put('b', 2)) == [Entry('a', 1), Entry('b', 2)]
    ensures Applied([Entry('a', 1), Entry('b', 2)], 2, Remove('b')) == [Entry('a', 1)]
    ensures Applied([Entry('a', 1)], 2, Put('c', 3)) == [Entry('a', 1), Entry('c', 3)]
  {
    assert [Entry('a', 1), Entry('b', 2)][1..] == [Entry('b', 2)] && [Entry('b', 2)][1..] == [];
    assert [Entry('a', 1)][1..] == [];
  }

  /** Using others does not tell by itself: once one of them is removed, there is room again. */
  lemma RemovalMakesRoom()
    ensures var run := [Put('a', 1), Put('b', 2), Remove('b'), Put('c', 3)];
            |OthersSince(run, 'a', 1)| == 2 && Find(AppliedAll([], 2, run), 'a') == Some(1)
  {
    var run := [Put('a', 1), Put('b', 2), Remove('b'), Put('c', 3)];
    assert OthersSince(run, 'a', 1) == {'b', 'c'} by {
      assert run[1].key == 'b' && run[3].key == 'c';
    }
    RoomIsLeft();
    hide Applied;
    assert run[1..] == [Put('b', 2), Remove('b'), Put('c', 3)];
    assert run[1..][1..] == [Remove('b'), Put('c', 3)] && run[1..][1..][1..] == [Put('c', 3)];
    assert run[1..][1..][1..][1..] == [];
  }

  /** The cache as the source keeps it: one ordered dictionary changed in place. */
  class LruCache<K(==), V> {
    const capacity: nat
    var items: Items<K, V>

    constructor (capacity: nat)
      ensures this.capacity == capacity && items == []
    {
      this.capacity := capacity;
      items := [];
    }

    method Get(key: K) returns (value: Option<V>)
      modifies this
      ensures value == Find(old(items), key) && items == Touched(old(items), key)
    {
      value := Find(items, key);
      if value.None? {
        return;
      }
      items := Without(items, key) + [Entry(key, value.value)];
    }

    method Put(key: K, value: V)
      modifies this
      ensures items == Stored(old(items), capacity, key, value)
    {
      items := Without(items, key) + [Entry(key, value)];
      ghost var all := items;
      while |items| > capacity
        invariant |items| <= |all| && items == all[|all| - |items|..]
        invariant |all| > capacity ==> |items| >= capacity
        invariant |all| <= capacity ==> items == all
      {
        items := items[1..];
      }
    }

    method Remove(key: K)
      modifies this
      ensures items == Without(old(items), key)
    {
      items := Without(items, key);
    }
  }
}
