/** Gathering `.proto` sources and JSON resources from an Apicurio registry: visited by reference
    key, but stored under the name each reference gives. */
module NamedSources {
  import opened Graphs
  import Collectors

  datatype Reference<K> = Reference(name: string, key: K)

  datatype Artifact<K> = Artifact(content: string, references: seq<Reference<K>>)

  type Registry<K> = map<K, Artifact<K>>

  const ROOT_PROTO := "root.proto"

  function KeysOf<K>(references: seq<Reference<K>>): seq<K> {
    seq(|references|, i requires 0 <= i < |references| => references[i].key)
  }

  /** The same registry, without the names. */
  ghost function Plain<K>(registry: Registry<K>): Collectors.Registry<K> {
    map k | k in registry :: Collectors.Document(registry[k].content, KeysOf(registry[k].references))
  }

  ghost predicate NeededKey<K(!new)>(registry: Registry<K>, roots: seq<Reference<K>>, k: K) {
    Collectors.Needed(Plain(registry), KeysOf(roots), k)
  }

  ghost predicate NeededKnown<K(!new)>(registry: Registry<K>, roots: seq<Reference<K>>) {
    forall k :: NeededKey(registry, roots, k) ==> k in registry
  }

  /** A reference of the root, or of an artifact the root needs. */
  ghost predicate NeededReference<K(!new)>(registry: Registry<K>, roots: seq<Reference<K>>, r: Reference<K>) {
    r in roots || exists k :: k in registry && NeededKey(registry, roots, k) && r in registry[k].references
  }

  lemma ReferenceNeedsKey<K(!new)>(registry: Registry<K>, roots: seq<Reference<K>>, r: Reference<K>)
    requires NeededReference(registry, roots, r)
    ensures NeededKey(registry, roots, r.key)
  {
    var g := Collectors.References(Plain(registry));
    if r in roots {
      var i :| 0 <= i < |roots| && roots[i] == r;
      assert KeysOf(roots)[i] == r.key;
      ReachesSelf(g, r.key);
    } else {
      var k :| k in registry && NeededKey(registry, roots, k) && r in registry[k].references;
      var i :| 0 <= i < |registry[k].references| && registry[k].references[i] == r;
      assert KeysOf(registry[k].references)[i] == r.key;
      var root :| root in KeysOf(roots) && Reaches(g, root, k);
      ReachesNext(g, k, r.key);
      ReachesTransitive(g, root, k, r.key);
    }
  }

  lemma NeededThrough<K(!new)>(registry: Registry<K>, roots: seq<Reference<K>>, i: nat)
    requires i < |roots| && roots[i].key in registry
    ensures forall k :: NeededKey(registry, registry[roots[i].key].references, k) ==> NeededKey(registry, roots, k)
    ensures forall r :: NeededReference(registry, registry[roots[i].key].references, r) ==>
              NeededReference(registry, roots, r)
    ensures NeededReference(registry, roots, roots[i])
  {
    var key := roots[i].key;
    assert KeysOf(roots)[i] == key;
    ReferenceNeedsKey(registry, roots, roots[i]);
    forall k | NeededKey(registry, registry[key].references, k)
      ensures NeededKey(registry, roots, k)
    {
      Collectors.NeededThrough(Plain(registry), KeysOf(roots), key, k);
    }
  }

  /** The names recorded since `before` are those of needed references. */
  ghost predicate Grew<K(!new)>(registry: Registry<K>, roots: seq<Reference<K>>,
                                before: map<K, string>, after: map<K, string>) {
    && before.Keys <= after.Keys
    && (forall k :: k in before ==> after[k] == before[k])
    && forall k :: k in after && k !in before ==> NeededReference(registry, roots, Reference(after[k], k))
  }

  lemma GrewNothing<K(!new)>(registry: Registry<K>, roots: seq<Reference<K>>, names: map<K, string>)
    ensures Grew(registry, roots, names, names)
  {
  }

  lemma GrewThrough<K(!new)>(registry: Registry<K>, roots: seq<Reference<K>>, i: nat,
                             start: map<K, string>, before: map<K, string>, after: map<K, string>)
    requires i < |roots| && roots[i].key in registry && roots[i].key !in before
    requires Grew(registry, roots, start, before)
    requires Grew(registry, registry[roots[i].key].references, before[roots[i].key := roots[i].name], after)
    ensures Grew(registry, roots, start, after) && before.Keys <= after.Keys
    ensures roots[i].key in after && after[roots[i].key] == roots[i].name
  {
    NeededThrough(registry, roots, i);
    var key := roots[i].key;
    assert after[key] == roots[i].name && roots[i] == Reference(after[key], key);
  }

  lemma FirstNeedsKey<K(!new)>(registry: Registry<K>, roots: seq<Reference<K>>, i: nat)
    requires i < |roots|
    ensures NeededKey(registry, roots, roots[i].key)
  {
    ReferenceNeedsKey(registry, roots, roots[i]);
  }

  /** Every visited key is stored under the name recorded for it, unless it is in `late`, whose
      contents are stored after their references; `open` holds the keys whose references are
      still being collected. */
  ghost predicate StoredSoFar<K(!new)>(registry: Registry<K>, sources: map<string, string>, storedAs: map<K, string>,
                                      initial: map<string, string>, open: set<K>, late: set<K>) {
    && (forall k :: k in storedAs ==> k in registry && (k !in late ==> storedAs[k] in sources))
    && (forall n :: n in sources ==>
          || (n in initial && sources[n] == initial[n])
          || exists k :: k in storedAs && storedAs[k] == n && sources[n] == registry[k].content)
    && initial.Keys <= sources.Keys
    && (forall k, r :: k in storedAs && k !in open && r in registry[k].references ==> r.key in storedAs)
  }

  lemma KeyDone<K(!new)>(registry: Registry<K>, sources: map<string, string>, storedAs: map<K, string>,
                         initial: map<string, string>, open: set<K>, late: set<K>, key: K)
    requires StoredSoFar(registry, sources, storedAs, initial, open + {key}, late)
    requires key in registry && forall r :: r in registry[key].references ==> r.key in storedAs
    ensures StoredSoFar(registry, sources, storedAs, initial, open, late)
  {
  }

  /** Depth-first collection into a dictionary that starts with `initial` entries. */
  class SourceCollector<K(==,!new)> {
    const registry: Registry<K>
    var sources: map<string, string>
    var visited: set<K>
    ghost var storedAs: map<K, string>

    constructor (registry: Registry<K>, initial: map<string, string>)
      ensures this.registry == registry && sources == initial
      ensures visited == {} && storedAs == map[]
    {
      this.registry := registry;
      sources, visited, storedAs := initial, {}, map[];
    }

    ghost predicate Valid(initial: map<string, string>, open: set<K>, late: set<K>)
      reads this
    {
      && visited == storedAs.Keys && late <= visited
      && StoredSoFar(registry, sources, storedAs, initial, open, late)
    }

    /** `.proto` sources: a content is stored before the contents it references. */
    method CollectProtobuf(references: seq<Reference<K>>, ghost initial: map<string, string>, ghost open: set<K>)
        returns (ok: bool)
      requires Valid(initial, open, {})
      modifies this
      ensures ok ==> Valid(initial, open, {}) && Grew(registry, references, old(storedAs), storedAs)
      ensures ok ==> forall r :: r in references ==> r.key in visited
      ensures !ok ==> exists k :: NeededKey(registry, references, k) && k !in registry
      decreases registry.Keys - visited
    {
      hide NeededReference, NeededKey, Grew, StoredSoFar;
      GrewNothing(registry, references, storedAs);
      for i := 0 to |references|
        invariant Valid(initial, open, {}) && old(visited) <= visited
        invariant Grew(registry, references, old(storedAs), storedAs)
        invariant forall r :: r in references[..i] ==> r.key in visited
      {
        var reference := references[i];
        var key := reference.key;
        if key in visited {
          continue;
        }
        if key !in registry {
          FirstNeedsKey(registry, references, i);
          return false;
        }
        NeededThrough(registry, references, i);
        ghost var before := storedAs;
        Visit(reference, initial, open, {});
        Store(reference, initial, open + {key}, {});
        ok := CollectProtobuf(registry[key].references, initial, open + {key});
        if !ok {
          return;
        }
        KeyDone(registry, sources, storedAs, initial, open, {}, key);
        GrewThrough(registry, references, i, old(storedAs), before, storedAs);
      }
      ok := true;
    }

    /** JSON resources: a content is stored after the contents it references. */
    method CollectJson(references: seq<Reference<K>>, ghost initial: map<string, string>, ghost open: set<K>)
        returns (ok: bool)
      requires Valid(initial, open, open)
      modifies this
      ensures ok ==> Valid(initial, open, open) && Grew(registry, references, old(storedAs), storedAs)
      ensures ok ==> forall r :: r in references ==> r.key in visited
      ensures !ok ==> exists k :: NeededKey(registry, references, k) && k !in registry
      decreases registry.Keys - visited
    {
      hide NeededReference, NeededKey, Grew, StoredSoFar;
      GrewNothing(registry, references, storedAs);
      for i := 0 to |references|
        invariant Valid(initial, open, open) && old(visited) <= visited
        invariant Grew(registry, references, old(storedAs), storedAs)
        invariant forall r :: r in references[..i] ==> r.key in visited
      {
        var reference := references[i];
        var key := reference.key;
        if key in visited {
          continue;
        }
        if key !in registry {
          FirstNeedsKey(registry, references, i);
          return false;
        }
        NeededThrough(registry, references, i);
        ghost var before := storedAs;
        Visit(reference, initial, open, open);
        ok := CollectJson(registry[key].references, initial, open + {key});
        if !ok {
          return;
        }
        GrewThrough(registry, references, i, old(storedAs), before, storedAs);
        Store(reference, initial, open, open);
      }
      ok := true;
    }

    method Visit(reference: Reference<K>, ghost initial: map<string, string>, ghost open: set<K>, ghost late: set<K>)
      requires Valid(initial, open, late) && reference.key in registry && reference.key !in visited
      modifies this`visited, this`storedAs
      ensures Valid(initial, open + {reference.key}, late + {reference.key})
      ensures visited == old(visited) + {reference.key}
      ensures storedAs == old(storedAs)[reference.key := reference.name]
    {
      visited := visited + {reference.key};
      storedAs := storedAs[reference.key := reference.name];
      forall n | n in sources && !(n in initial && sources[n] == initial[n])
        ensures exists k :: k in visited && storedAs[k] == n && sources[n] == registry[k].content
      {
        var k :| k in old(visited) && old(storedAs)[k] == n && sources[n] == registry[k].content;
        assert storedAs[k] == n;
      }
    }

    method Store(reference: Reference<K>, ghost initial: map<string, string>, ghost open: set<K>, ghost late: set<K>)
      requires Valid(initial, open + {reference.key}, late + {reference.key}) && reference.key !in late
      requires storedAs[reference.key] == reference.name
      requires reference.key in open || forall r :: r in registry[reference.key].references ==> r.key in visited
      modifies this`sources
      ensures Valid(initial, open, late)
    {
      sources := sources[reference.name := registry[reference.key].content];
    }
  }

  /** How a finished collection is stored: each needed artifact once, under one of the names it is
      needed by; each name holds an initial entry or an artifact stored under it. */
  ghost predicate Stored<K(!new)>(registry: Registry<K>, roots: seq<Reference<K>>, initial: map<string, string>,
                                  sources: map<string, string>, storedAs: map<K, string>) {
    && (forall k :: k in storedAs <==> NeededKey(registry, roots, k))
    && (forall k :: k in storedAs ==> k in registry && storedAs[k] in sources
                                      && NeededReference(registry, roots, Reference(storedAs[k], k)))
    && initial.Keys <= sources.Keys
    && forall n :: n in sources ==>
         || (n in initial && sources[n] == initial[n])
         || exists k :: k in storedAs && storedAs[k] == n && sources[n] == registry[k].content
  }

  lemma FinishedIsNeeded<K(!new)>(registry: Registry<K>, roots: seq<Reference<K>>, storedAs: map<K, string>)
    requires Grew(registry, roots, map[], storedAs) && forall r :: r in roots ==> r.key in storedAs
    requires forall k :: k in storedAs ==> k in registry
    requires forall k, r :: k in storedAs && r in registry[k].references ==> r.key in storedAs
    ensures forall k :: k in storedAs <==> NeededKey(registry, roots, k)
  {
    forall k | NeededKey(registry, roots, k)
      ensures k in storedAs
    {
      Collectors.ClosedHoldsNeeded(Plain(registry), KeysOf(roots), storedAs.Keys, k);
    }
    forall k | k in storedAs
      ensures NeededKey(registry, roots, k)
    {
      ReferenceNeedsKey(registry, roots, Reference(storedAs[k], k));
    }
  }

  method CollectSources<K(==,!new)>(registry: Registry<K>, root: string, roots: seq<Reference<K>>)
      returns (ok: bool, sources: map<string, string>, ghost storedAs: map<K, string>)
    ensures ok <==> NeededKnown(registry, roots)
    ensures ok ==> Stored(registry, roots, map[ROOT_PROTO := root], sources, storedAs)
  {
    var collector := new SourceCollector(registry, map[ROOT_PROTO := root]);
    ok := collector.CollectProtobuf(roots, map[ROOT_PROTO := root], {});
    sources, storedAs := collector.sources, collector.storedAs;
    if ok {
      FinishedIsNeeded(registry, roots, storedAs);
    }
  }

  method CollectResources<K(==,!new)>(registry: Registry<K>, roots: seq<Reference<K>>)
      returns (ok: bool, resources: map<string, string>, ghost storedAs: map<K, string>)
    ensures ok <==> NeededKnown(registry, roots)
    ensures ok ==> Stored(registry, roots, map[], resources, storedAs)
  {
    var collector := new SourceCollector(registry, map[]);
    ok := collector.CollectJson(roots, map[], {});
    resources, storedAs := collector.sources, collector.storedAs;
    if ok {
      FinishedIsNeeded(registry, roots, storedAs);
    }
  }

  // ---- when every name holds what it stands for

  /** Names and keys of the needed references correspond one to one, and no name is `taken`. */
  ghost predicate NamesMatchKeys<K(!new)>(registry: Registry<K>, roots: seq<Reference<K>>, taken: set<string>) {
    && (forall r, s :: NeededReference(registry, roots, r) && NeededReference(registry, roots, s) ==>
          (r.name == s.name <==> r.key == s.key))
    && forall r :: NeededReference(registry, roots, r) ==> r.name !in taken
  }

  /** Every name, the initial ones included, holds the content it stands for. */
  ghost predicate Faithful<K(!new)>(registry: Registry<K>, roots: seq<Reference<K>>, initial: map<string, string>,
                                    sources: map<string, string>) {
    && (forall n :: n in initial ==> n in sources && sources[n] == initial[n])
    && forall r :: NeededReference(registry, roots, r) && r.key in registry ==>
         r.name in sources && sources[r.name] == registry[r.key].content
  }

  /** No two needed artifacts have the same content. */
  ghost predicate DistinctContents<K(!new)>(registry: Registry<K>, roots: seq<Reference<K>>) {
    forall k, l :: k in registry && l in registry && NeededKey(registry, roots, k) && NeededKey(registry, roots, l) ==>
      (registry[k].content == registry[l].content ==> k == l)
  }

  /** No needed artifact has the content of an initial entry. */
  ghost predicate NewContents<K(!new)>(registry: Registry<K>, roots: seq<Reference<K>>, initial: map<string, string>) {
    forall k, n :: k in registry && NeededKey(registry, roots, k) && n in initial ==> registry[k].content != initial[n]
  }

  lemma MatchingNameHolds<K(!new)>(registry: Registry<K>, roots: seq<Reference<K>>, initial: map<string, string>,
                                   sources: map<string, string>, storedAs: map<K, string>, r: Reference<K>)
    requires Stored(registry, roots, initial, sources, storedAs) && NamesMatchKeys(registry, roots, initial.Keys)
    requires NeededReference(registry, roots, r) && r.key in registry
    ensures r.name in sources && sources[r.name] == registry[r.key].content
  {
    ReferenceNeedsKey(registry, roots, r);
    hide NeededReference, NeededKey;
    assert NeededReference(registry, roots, Reference(storedAs[r.key], r.key));
    var k :| k in storedAs && storedAs[k] == r.name && sources[r.name] == registry[k].content;
    assert NeededReference(registry, roots, Reference(storedAs[k], k));
  }

  lemma InitialStays<K(!new)>(registry: Registry<K>, roots: seq<Reference<K>>, initial: map<string, string>,
                              sources: map<string, string>, storedAs: map<K, string>)
    requires Stored(registry, roots, initial, sources, storedAs) && NamesMatchKeys(registry, roots, initial.Keys)
    ensures forall n :: n in initial ==> n in sources && sources[n] == initial[n]
  {
    hide NeededReference, NeededKey;
    forall k | k in storedAs
      ensures storedAs[k] !in initial
    {
      assert NeededReference(registry, roots, Reference(storedAs[k], k));
    }
  }

  lemma MatchingNamesAreFaithful<K(!new)>(registry: Registry<K>, roots: seq<Reference<K>>, initial: map<string, string>,
                                          sources: map<string, string>, storedAs: map<K, string>)
    requires Stored(registry, roots, initial, sources, storedAs) && NamesMatchKeys(registry, roots, initial.Keys)
    ensures Faithful(registry, roots, initial, sources)
  {
    forall r | NeededReference(registry, roots, r) && r.key in registry
      ensures r.name in sources && sources[r.name] == registry[r.key].content
    {
      MatchingNameHolds(registry, roots, initial, sources, storedAs, r);
    }
    InitialStays(registry, roots, initial, sources, storedAs);
  }

  /** Distinct contents show every mix-up: a shared name keeps one content only, and a second name
      for a key none. */
  lemma FaithfulNamesMatch<K(!new)>(registry: Registry<K>, roots: seq<Reference<K>>, initial: map<string, string>,
                                    sources: map<string, string>, storedAs: map<K, string>)
    requires Stored(registry, roots, initial, sources, storedAs) && Faithful(registry, roots, initial, sources)
    requires DistinctContents(registry, roots) && NewContents(registry, roots, initial)
    ensures NamesMatchKeys(registry, roots, initial.Keys)
  {
    forall r | NeededReference(registry, roots, r)
      ensures r.key in storedAs && storedAs[r.key] == r.name && r.name !in initial
    {
      ReferenceNeedsKey(registry, roots, r);
      assert sources[r.name] == registry[r.key].content;
      var k :| k in storedAs && storedAs[k] == r.name && sources[r.name] == registry[k].content;
      assert NeededKey(registry, roots, k);
    }
    forall r, s | NeededReference(registry, roots, r) && NeededReference(registry, roots, s)
      ensures r.name == s.name <==> r.key == s.key
    {
      if r.name == s.name {
        assert sources[r.name] == registry[r.key].content == registry[s.key].content;
      }
    }
  }

  // ---- the same references with other contents

  ghost predicate SameReferences<K>(registry: Registry<K>, other: Registry<K>) {
    && other.Keys == registry.Keys
    && forall k :: k in registry ==> other[k].references == registry[k].references
  }

  lemma SameNeeds<K(!new)>(registry: Registry<K>, other: Registry<K>, roots: seq<Reference<K>>)
    requires SameReferences(registry, other)
    ensures forall k :: NeededKey(other, roots, k) <==> NeededKey(registry, roots, k)
    ensures forall r :: NeededReference(other, roots, r) <==> NeededReference(registry, roots, r)
  {
    assert Collectors.References(Plain(other)) == Collectors.References(Plain(registry));
  }

  lemma {:induction false} DistinctTexts<K(!new)>(keys: set<K>) returns (texts: map<K, string>)
    ensures texts.Keys == keys && forall k :: k in keys ==> 0 < |texts[k]| <= |keys|
    ensures forall k, l :: k in keys && l in keys && texts[k] == texts[l] ==> k == l
  {
    if keys == {} {
      return map[];
    }
    var k :| k in keys;
    texts := DistinctTexts(keys - {k});
    texts := texts[k := seq(|keys|, _ => 'x')];
  }

  /** Contents that tell all artifacts apart, from each other and from nothing. */
  lemma Told<K(!new)>(registry: Registry<K>) returns (other: Registry<K>)
    ensures SameReferences(registry, other)
    ensures forall k :: k in other ==> other[k].content != ""
    ensures forall k, l :: k in other && l in other && other[k].content == other[l].content ==> k == l
  {
    var texts := DistinctTexts(registry.Keys);
    other := map k | k in registry :: Artifact(texts[k], registry[k].references);
  }

  /** Whatever the artifacts contain, a finished collection holds what every name means. */
  ghost predicate AlwaysFaithful<K(!new)>(registry: Registry<K>, roots: seq<Reference<K>>, taken: set<string>) {
    forall other: Registry<K>, initial: map<string, string>, sources, storedAs ::
      SameReferences(registry, other) && initial.Keys == taken && Stored(other, roots, initial, sources, storedAs) ==>
        Faithful(other, roots, initial, sources)
  }

  /** However they are collected, some name does not hold what it means. */
  ghost predicate NeverFaithful<K(!new)>(registry: Registry<K>, roots: seq<Reference<K>>,
                                         initial: map<string, string>) {
    forall sources, storedAs :: Stored(registry, roots, initial, sources, storedAs) ==>
      !Faithful(registry, roots, initial, sources)
  }

  lemma MismatchIsSeen<K(!new)>(registry: Registry<K>, roots: seq<Reference<K>>, initial: map<string, string>)
    requires !NamesMatchKeys(registry, roots, initial.Keys)
    requires DistinctContents(registry, roots) && NewContents(registry, roots, initial)
    ensures NeverFaithful(registry, roots, initial)
  {
    forall sources, storedAs | Stored(registry, roots, initial, sources, storedAs)
      ensures !Faithful(registry, roots, initial, sources)
    {
      if Faithful(registry, roots, initial, sources) {
        FaithfulNamesMatch(registry, roots, initial, sources, storedAs);
      }
    }
  }

  // ---- finished collections exist when everything needed is known

  /** Every needed key is the key of a needed reference: the last step that leads to it. */
  lemma KeyIsReferenced<K(!new)>(registry: Registry<K>, roots: seq<Reference<K>>, k: K) returns (r: Reference<K>)
    requires NeededKey(registry, roots, k)
    ensures NeededReference(registry, roots, r) && r.key == k
  {
    var g := Collectors.References(Plain(registry));
    var root :| root in KeysOf(roots) && Reaches(g, root, k);
    var p :| WalkBetween(g, root, k, p);
    if |p| == 1 {
      var i :| 0 <= i < |roots| && KeysOf(roots)[i] == k;
      r := roots[i];
    } else {
      var last := p[|p| - 2];
      assert WalkBetween(g, root, last, p[..|p| - 1]);
      assert k in Next(g, last);
      var i :| 0 <= i < |registry[last].references| && KeysOf(registry[last].references)[i] == k;
      r := registry[last].references[i];
    }
  }

  ghost function NameOf<K(!new)>(registry: Registry<K>, roots: seq<Reference<K>>, k: K): (name: string)
    requires NeededKey(registry, roots, k)
    ensures NeededReference(registry, roots, Reference(name, k))
  {
    assert exists n :: NeededReference(registry, roots, Reference(n, k)) by {
      var r := KeyIsReferenced(registry, roots, k);
      assert r == Reference(r.name, k);
    }
    var n :| NeededReference(registry, roots, Reference(n, k));
    n
  }

  /** The key that a name in use stands for. */
  ghost function KeyOf<K>(storedAs: map<K, string>, n: string): (k: K)
    requires n in storedAs.Values
    ensures k in storedAs && storedAs[k] == n
  {
    var k :| k in storedAs && storedAs[k] == n;
    k
  }

  /** One needing name for each needed key. */
  ghost function SomeNames<K(!new)>(registry: Registry<K>, roots: seq<Reference<K>>): (names: map<K, string>)
    requires NeededKnown(registry, roots)
    ensures forall k :: k in names <==> NeededKey(registry, roots, k)
    ensures forall k :: k in names ==> k in registry && NeededReference(registry, roots, Reference(names[k], k))
  {
    map k | k in registry && NeededKey(registry, roots, k) :: NameOf(registry, roots, k)
  }

  lemma SomeCollection<K(!new)>(registry: Registry<K>, roots: seq<Reference<K>>, initial: map<string, string>)
      returns (sources: map<string, string>, storedAs: map<K, string>)
    requires NeededKnown(registry, roots)
    ensures Stored(registry, roots, initial, sources, storedAs)
  {
    hide NeededKey, NeededReference, SomeNames, NeededKnown;
    storedAs := SomeNames(registry, roots);
    var found := map n | n in storedAs.Values :: registry[KeyOf(storedAs, n)].content;
    sources := initial + found;
    forall n | n in sources
      ensures (n in initial && sources[n] == initial[n])
              || exists k :: k in storedAs && storedAs[k] == n && sources[n] == registry[k].content
    {
      if n in found {
        assert storedAs[KeyOf(storedAs, n)] == n && sources[n] == registry[KeyOf(storedAs, n)].content;
      }
    }
  }

  /** If everything needed is known, collections hold what every name means, whatever the artifacts
      contain, exactly when names and keys correspond. If they do not correspond, there are contents
      for which no collection does. */
  lemma FaithfulExact<K(!new)>(registry: Registry<K>, roots: seq<Reference<K>>, taken: set<string>)
    ensures NeededKnown(registry, roots) ==>
              (NamesMatchKeys(registry, roots, taken) <==> AlwaysFaithful(registry, roots, taken))
    ensures NamesMatchKeys(registry, roots, taken) ==> AlwaysFaithful(registry, roots, taken)
    ensures !NamesMatchKeys(registry, roots, taken) ==>
              exists other: Registry<K>, initial: map<string, string> ::
                SameReferences(registry, other) && initial.Keys == taken && NeverFaithful(other, roots, initial)
  {
    if NamesMatchKeys(registry, roots, taken) {
      MatchIsFaithful(registry, roots, taken);
    } else {
      var other, initial := MismatchHasContents(registry, roots, taken);
      if NeededKnown(registry, roots) {
        NeverIsNotAlways(registry, other, roots, initial);
      }
    }
  }

  lemma MatchIsFaithful<K(!new)>(registry: Registry<K>, roots: seq<Reference<K>>, taken: set<string>)
    requires NamesMatchKeys(registry, roots, taken)
    ensures AlwaysFaithful(registry, roots, taken)
  {
    forall other: Registry<K>, initial: map<string, string>, sources, storedAs
      | SameReferences(registry, other) && initial.Keys == taken && Stored(other, roots, initial, sources, storedAs)
      ensures Faithful(other, roots, initial, sources)
    {
      SameNeeds(registry, other, roots);
      MatchingNamesAreFaithful(other, roots, initial, sources, storedAs);
    }
  }

  lemma MismatchHasContents<K(!new)>(registry: Registry<K>, roots: seq<Reference<K>>, taken: set<string>)
      returns (other: Registry<K>, initial: map<string, string>)
    requires !NamesMatchKeys(registry, roots, taken)
    ensures SameReferences(registry, other) && initial.Keys == taken && NeverFaithful(other, roots, initial)
  {
    other := Told(registry);
    initial := map n | n in taken :: "";
    SameNeeds(registry, other, roots);
    MismatchIsSeen(other, roots, initial);
  }

  lemma NeverIsNotAlways<K(!new)>(registry: Registry<K>, other: Registry<K>, roots: seq<Reference<K>>,
                                  initial: map<string, string>)
    requires NeededKnown(registry, roots) && SameReferences(registry, other) && NeverFaithful(other, roots, initial)
    ensures !AlwaysFaithful(registry, roots, initial.Keys)
  {
    SameNeeds(registry, other, roots);
    var sources, storedAs := SomeCollection(other, roots, initial);
  }

  /** Two names for one artifact: it is stored under the first only. */
  const TWO_NAMES: Registry<nat> := map[0 := Artifact("message Money {}", [])]
  const TWO_IMPORTS: seq<Reference<nat>> := [Reference("money.proto", 0), Reference("common/money.proto", 0)]

  lemma SecondNameIsLost()
    ensures Stored(TWO_NAMES, TWO_IMPORTS, map[ROOT_PROTO := "root"],
                   map[ROOT_PROTO := "root", "money.proto" := "message Money {}"], map[0 := "money.proto"])
    ensures NeverFaithful(TWO_NAMES, TWO_IMPORTS, map[ROOT_PROTO := "root"])
  {
    var first, second := TWO_IMPORTS[0], TWO_IMPORTS[1];
    assert NeededReference(TWO_NAMES, TWO_IMPORTS, first) && NeededReference(TWO_NAMES, TWO_IMPORTS, second);
    assert first.name != second.name && first.key == second.key;
    ReferenceNeedsKey(TWO_NAMES, TWO_IMPORTS, first);
    forall k | NeededKey(TWO_NAMES, TWO_IMPORTS, k)
      ensures k == 0
    {
      Collectors.ClosedHoldsNeeded(Plain(TWO_NAMES), KeysOf(TWO_IMPORTS), {0}, k);
    }
    MismatchIsSeen(TWO_NAMES, TWO_IMPORTS, map[ROOT_PROTO := "root"]);
  }
}
