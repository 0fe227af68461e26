/** Gathering the documents a schema references, directly or not, from a registry or a folder. */
module Collectors {
  import opened Graphs

  /** What fetching one reference key returns: a content and the keys it references in turn. */
  datatype Document<K> = Document(content: string, references: seq<K>)

  type Registry<K> = map<K, Document<K>>

  ghost function References<K>(registry: Registry<K>): Graph<K> {
    map k | k in registry :: registry[k].references
  }

  /** `k` is one of `roots` or reachable from one. */
  ghost predicate Needed<K(!new)>(registry: Registry<K>, roots: seq<K>, k: K) {
    exists r :: r in roots && Reaches(References(registry), r, k)
  }

  ghost predicate AllNeededKnown<K(!new)>(registry: Registry<K>, roots: seq<K>) {
    forall k :: Needed(registry, roots, k) ==> k in registry
  }

  /** A reference of an emitted key comes earlier, unless it leads back to that key. */
  ghost predicate DependenciesFirstUpToCycles<K(!new)>(g: Graph<K>, order: seq<K>) {
    forall i, d :: 0 <= i < |order| && d in Next(g, order[i]) ==> d in order[..i] || Reaches(g, d, order[i])
  }

  lemma AcyclicOrder<K(!new)>(g: Graph<K>, order: seq<K>)
    requires DependenciesFirstUpToCycles(g, order)
    requires forall k :: k in order ==> !OnCycle(g, k)
    ensures DependenciesFirst(g, order)
  {
    forall i, d | 0 <= i < |order| && d in Next(g, order[i])
      ensures d in order[..i]
    {
      assert order[i] in order;
    }
  }

  lemma RootIsNeeded<K(!new)>(registry: Registry<K>, roots: seq<K>, i: nat)
    requires i < |roots|
    ensures Needed(registry, roots, roots[i])
  {
    ReachesSelf(References(registry), roots[i]);
  }

  lemma NeededThrough<K(!new)>(registry: Registry<K>, roots: seq<K>, k: K, m: K)
    requires k in roots && Needed(registry, Next(References(registry), k), m)
    ensures Needed(registry, roots, m)
  {
    var g := References(registry);
    var r :| r in Next(g, k) && Reaches(g, r, m);
    ReachesNext(g, k, r);
    ReachesTransitive(g, k, r, m);
  }

  lemma ClosedHoldsNeeded<K(!new)>(registry: Registry<K>, roots: seq<K>, s: set<K>, k: K)
    requires forall r :: r in roots ==> r in s
    requires forall n, m :: n in s && m in Next(References(registry), n) ==> m in s
    requires Needed(registry, roots, k)
    ensures k in s
  {
    var r :| r in roots && Reaches(References(registry), r, k);
    ClosedHoldsReachable(References(registry), s, r, k);
  }

  /** An element whose references come before it, or lead back to it, can be appended. */
  lemma OrderExtends<K(!new)>(g: Graph<K>, order: seq<K>, k: K)
    requires DependenciesFirstUpToCycles(g, order)
    requires forall d :: d in Next(g, k) ==> d in order || Reaches(g, d, k)
    ensures DependenciesFirstUpToCycles(g, order + [k])
  {
    var longer := order + [k];
    forall i, d | 0 <= i < |longer| && d in Next(g, longer[i])
      ensures d in longer[..i] || Reaches(g, d, longer[i])
    {
      assert longer[..i] == order[..i];
    }
  }

  /** Depth-first collection of contents, each appended after the contents it references. */
  class ContentCollector<K(==,!new)> {
    const registry: Registry<K>
    var visited: set<K>
    var contents: seq<string>
    ghost var keys: seq<K>

    constructor (registry: Registry<K>)
      ensures this.registry == registry && visited == {} && keys == [] && contents == []
    {
      this.registry := registry;
      visited, contents, keys := {}, [], [];
    }

    /** `path` holds the keys whose references are being collected, outermost first. */
    ghost predicate Valid(path: seq<K>)
      reads this
    {
      var g := References(registry);
      && Distinct(keys)
      && (forall k :: k in visited <==> k in keys || k in path)
      && (forall k :: k in keys ==> k in registry && k !in path)
      && |contents| == |keys|
      && (forall i :: 0 <= i < |keys| ==> contents[i] == registry[keys[i]].content)
      && (forall k, d :: k in keys && d in Next(g, k) ==> d in visited)
      && DependenciesFirstUpToCycles(g, keys)
    }

    method Collect(references: seq<K>, ghost path: seq<K>) returns (ok: bool)
      requires Valid(path)
      requires path != [] ==> Walk(References(registry), path)
      requires path != [] ==> forall r :: r in references ==> r in Next(References(registry), path[|path| - 1])
      modifies this
      ensures ok ==> Valid(path) && old(keys) <= keys && old(visited) <= visited
      ensures ok ==> forall r :: r in references ==> r in visited
      ensures ok ==> forall k :: k in keys && k !in old(keys) ==> Needed(registry, references, k)
      ensures !ok ==> !AllNeededKnown(registry, references)
      decreases registry.Keys - visited
    {
      hide Needed, Reaches;
      ghost var g := References(registry);
      for i := 0 to |references|
        invariant Valid(path) && old(keys) <= keys && old(visited) <= visited
        invariant forall r :: r in references[..i] ==> r in visited
        invariant forall k :: k in keys && k !in old(keys) ==> Needed(registry, references, k)
      {
        var key := references[i];
        assert key in references;
        if key in visited {
          continue;
        }
        visited := visited + {key};
        RootIsNeeded(registry, references, i);
        if key !in registry {
          return false;
        }
        ghost var inner := path + [key];
        WalkExtends(g, path, key);
        ok := Collect(registry[key].references, inner);
        forall m | Needed(registry, registry[key].references, m)
          ensures Needed(registry, references, m)
        {
          NeededThrough(registry, references, key, m);
        }
        if !ok {
          return;
        }
        Emit(key, path);
      }
      ok := true;
    }

    /** Appends the content of `key`, whose references have all been visited. */
    method Emit(key: K, ghost path: seq<K>)
      requires Valid(path + [key]) && key in registry && key !in keys && key !in path
      requires Walk(References(registry), path + [key])
      requires forall d :: d in registry[key].references ==> d in visited
      modifies this
      ensures Valid(path) && keys == old(keys) + [key] && visited == old(visited)
    {
      ghost var g := References(registry);
      forall d | d in registry[key].references && d !in keys
        ensures Reaches(g, d, key)
      {
        WalkReachesLast(g, path + [key], d);
      }
      OrderExtends(g, keys, key);
      contents := contents + [registry[key].content];
      keys := keys + [key];
    }
  }

  /** Collection succeeds exactly when every needed document is known; it then returns the
      content of each needed key once, references first except around a cycle. */
  method CollectContents<K(==,!new)>(registry: Registry<K>, roots: seq<K>)
      returns (ok: bool, contents: seq<string>, ghost keys: seq<K>)
    ensures ok <==> AllNeededKnown(registry, roots)
    ensures ok ==> Distinct(keys) && forall k :: k in keys <==> Needed(registry, roots, k)
    ensures ok ==>
              && (forall k :: k in keys ==> k in registry)
              && contents == seq(|keys|, i requires 0 <= i < |keys| => registry[keys[i]].content)
    ensures ok ==> DependenciesFirstUpToCycles(References(registry), keys)
    ensures ok && (forall k :: Needed(registry, roots, k) ==> !OnCycle(References(registry), k)) ==>
              DependenciesFirst(References(registry), keys)
  {
    var collector := new ContentCollector(registry);
    ok := collector.Collect(roots, []);
    contents, keys := collector.contents, collector.keys;
    if ok {
      forall k | Needed(registry, roots, k)
        ensures k in keys
      {
        ClosedHoldsNeeded(registry, roots, collector.visited, k);
      }
      if forall k :: Needed(registry, roots, k) ==> !OnCycle(References(registry), k) {
        AcyclicOrder(References(registry), keys);
      }
    }
  }

  /** Depth-first collection of resources, each stored before the ones it references. */
  class ResourceCollector<K(==,!new)> {
    const registry: Registry<K>
    var resources: map<K, string>
    ghost var fetched: seq<K>

    constructor (registry: Registry<K>)
      ensures this.registry == registry && resources == map[] && fetched == []
    {
      this.registry := registry;
      resources, fetched := map[], [];
    }

    /** `open` holds the keys whose references are still being collected. */
    ghost predicate Valid(open: set<K>)
      reads this
    {
      && Distinct(fetched)
      && (forall k :: k in fetched <==> k in resources)
      && (forall k :: k in resources ==> k in registry && resources[k] == registry[k].content)
      && (forall k, d :: k in resources && k !in open && d in Next(References(registry), k) ==> d in resources)
    }

    method Collect(references: seq<K>, ghost open: set<K>) returns (ok: bool)
      requires Valid(open)
      modifies this
      ensures ok ==> Valid(open) && old(resources.Keys) <= resources.Keys
      ensures ok ==> forall r :: r in references ==> r in resources
      ensures ok ==> forall k :: k in resources && k !in old(resources) ==> Needed(registry, references, k)
      ensures !ok ==> !AllNeededKnown(registry, references)
      decreases registry.Keys - resources.Keys
    {
      hide Needed, Reaches;
      for i := 0 to |references|
        invariant Valid(open) && old(resources.Keys) <= resources.Keys
        invariant forall r :: r in references[..i] ==> r in resources
        invariant forall k :: k in resources && k !in old(resources) ==> Needed(registry, references, k)
      {
        var key := references[i];
        if key in resources {
          continue;
        }
        RootIsNeeded(registry, references, i);
        if key !in registry {
          return false;
        }
        Store(key, open);
        ok := Collect(registry[key].references, open + {key});
        forall m | Needed(registry, registry[key].references, m)
          ensures Needed(registry, references, m)
        {
          NeededThrough(registry, references, key, m);
        }
        if !ok {
          return;
        }
      }
      ok := true;
    }

    method Store(key: K, ghost open: set<K>)
      requires Valid(open) && key in registry && key !in resources
      modifies this
      ensures Valid(open + {key})
      ensures resources == old(resources)[key := registry[key].content] && fetched == old(fetched) + [key]
    {
      resources := resources[key := registry[key].content];
      fetched := fetched + [key];
    }
  }

  /** Succeeds exactly when every needed document is known; the resources are then the needed
      documents with their contents, each fetched once, on cyclic graphs too. */
  method CollectResources<K(==,!new)>(registry: Registry<K>, roots: seq<K>)
      returns (ok: bool, resources: map<K, string>, ghost fetched: seq<K>)
    ensures ok <==> AllNeededKnown(registry, roots)
    ensures ok ==> forall k :: k in resources <==> Needed(registry, roots, k)
    ensures ok ==> forall k :: k in resources ==> k in registry && resources[k] == registry[k].content
    ensures ok ==> Distinct(fetched) && Members(fetched) == resources.Keys
  {
    var collector := new ResourceCollector(registry);
    ok := collector.Collect(roots, {});
    resources, fetched := collector.resources, collector.fetched;
    if ok {
      forall k | Needed(registry, roots, k)
        ensures k in resources
      {
        ClosedHoldsNeeded(registry, roots, resources.Keys, k);
      }
    }
  }

  /** The relative documents a JSON Schema references: each URI kept at its first occurrence,
      without empty ones (fragments of the document itself) and those with a scheme. */
  method LocalReferences(resolved: seq<string>, remote: set<string>) returns (uris: seq<string>, ghost at: seq<nat>)
    ensures Distinct(uris)
    ensures forall u :: u in uris <==> u in resolved && u != "" && u !in remote
    ensures |at| == |uris| && forall i, j :: 0 <= i < j < |at| ==> at[i] < at[j]
    ensures forall i :: 0 <= i < |at| ==>
              at[i] < |resolved| && resolved[at[i]] == uris[i] && uris[i] !in resolved[..at[i]]
  {
    uris, at := [], [];
    for k := 0 to |resolved|
      invariant Distinct(uris)
      invariant forall u :: u in uris <==> u in resolved[..k] && u != "" && u !in remote
      invariant |at| == |uris| && forall i, j :: 0 <= i < j < |at| ==> at[i] < at[j]
      invariant forall i :: 0 <= i < |at| ==> at[i] < k && resolved[at[i]] == uris[i] && uris[i] !in resolved[..at[i]]
    {
      var uri := resolved[k];
      if uri != "" && uri !in uris && uri !in remote {
        uris := uris + [uri];
        at := at + [k];
      }
    }
  }
}
