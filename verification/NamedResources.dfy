/** Gathering the resources a Confluent schema references: visited and stored by reference name,
    although a reference is fetched by its subject and version. */
module NamedResources {
  import opened Graphs
  import opened NamedSources
  import Collectors

  /** The names are among `names`, for the given references and all those in the registry. */
  ghost predicate Within<K(!new)>(registry: Registry<K>, references: seq<Reference<K>>, names: set<string>) {
    && (forall r :: r in references ==> r.name in names)
    && forall k, r :: k in registry && r in registry[k].references ==> r.name in names
  }

  /** The key each name gets, every reference met, and the names in the order they are finished. */
  datatype Tour<K> = Tour(chosen: map<string, K>, met: seq<Reference<K>>, done: seq<string>)

  /** A collection that fails nowhere. A reference is followed if its name is new, and its name is
      finished after those it leads to; an unknown reference leads nowhere. */
  ghost function Visit<K(!new)>(registry: Registry<K>, references: seq<Reference<K>>, chosen: map<string, K>,
                                names: set<string>): (tour: Tour<K>)
    requires Within(registry, references, names)
    ensures chosen.Keys <= tour.chosen.Keys
    decreases names - chosen.Keys, |references|
  {
    if references == [] then Tour(chosen, [], [])
    else
      var r := references[0];
      assert r.name in names && r.name !in names - chosen[r.name := r.key].Keys;
      var follow := r.key in registry && r.name !in chosen;
      var inner := if follow then Visit(registry, registry[r.key].references, chosen[r.name := r.key], names)
                   else Tour(chosen, [], []);
      var rest := Visit(registry, references[1..], inner.chosen, names);
      Tour(rest.chosen, [r] + inner.met + rest.met, inner.done + (if follow then [r.name] else []) + rest.done)
  }

  ghost predicate AllKnown<K>(registry: Registry<K>, references: seq<Reference<K>>) {
    forall r :: r in references ==> r.key in registry
  }

  /** The references are all known, and their names are there. */
  ghost predicate Covers<K>(registry: Registry<K>, references: seq<Reference<K>>, names: set<string>) {
    forall r :: r in references ==> r.name in names && r.key in registry
  }

  ghost predicate Extends<K>(all: map<string, K>, chosen: map<string, K>) {
    forall n :: n in chosen ==> n in all && all[n] == chosen[n]
  }

  lemma NeededByMore<K(!new)>(registry: Registry<K>, references: seq<Reference<K>>)
    requires references != []
    ensures forall r :: NeededReference(registry, references[1..], r) ==> NeededReference(registry, references, r)
  {
    forall k | NeededKey(registry, references[1..], k)
      ensures NeededKey(registry, references, k)
    {
      assert KeysOf(references)[1..] == KeysOf(references[1..]);
    }
  }

  /** What is met or newly chosen when one starts from `chosen` is needed for the references. */
  ghost predicate Needs<K(!new)>(registry: Registry<K>, references: seq<Reference<K>>, chosen: map<string, K>,
                                 after: map<string, K>, met: seq<Reference<K>>) {
    && Extends(after, chosen)
    && (forall m :: m in met ==> NeededReference(registry, references, m))
    && forall n :: n in after && n !in chosen ==> NeededReference(registry, references, Reference(n, after[n]))
  }

  /** First what a new name leads to, then what the other references do. */
  lemma NeedsStep<K(!new)>(registry: Registry<K>, references: seq<Reference<K>>, chosen: map<string, K>,
                           inner: Tour<K>, rest: Tour<K>)
    requires references != []
    requires var r := references[0];
             if r.key in registry && r.name !in chosen
             then Needs(registry, registry[r.key].references, chosen[r.name := r.key], inner.chosen, inner.met)
             else inner.chosen == chosen && inner.met == []
    requires Needs(registry, references[1..], inner.chosen, rest.chosen, rest.met)
    ensures Needs(registry, references, chosen, rest.chosen, [references[0]] + inner.met + rest.met)
  {
    var r := references[0];
    assert r in references && NeededReference(registry, references, r);
    NeededByMore(registry, references);
    hide NeededReference;
    if r.key in registry && r.name !in chosen {
      NeededThrough(registry, references, 0);
      assert Reference(r.name, inner.chosen[r.name]) == r;
    }
  }

  /** Only needed references are met, and each new name gets a key it is needed for. */
  lemma {:induction false} TourIsNeeded<K(!new)>(registry: Registry<K>, references: seq<Reference<K>>,
                                                 chosen: map<string, K>, names: set<string>)
    requires Within(registry, references, names)
    ensures var tour := Visit(registry, references, chosen, names);
            Needs(registry, references, chosen, tour.chosen, tour.met)
    decreases names - chosen.Keys, |references|
  {
    if references != [] {
      var r := references[0];
      var inner := Tour(chosen, [], []);
      hide Needs;
      if r.key in registry && r.name !in chosen {
        assert r in references && r.name in names && r.name !in names - chosen[r.name := r.key].Keys;
        TourIsNeeded(registry, registry[r.key].references, chosen[r.name := r.key], names);
        inner := Visit(registry, registry[r.key].references, chosen[r.name := r.key], names);
      }
      TourIsNeeded(registry, references[1..], inner.chosen, names);
      NeedsStep(registry, references, chosen, inner, Visit(registry, references[1..], inner.chosen, names));
    }
  }

  /** The first reference's part of a tour: everything under it is known and stays chosen. */
  lemma FirstOfTour<K(!new)>(registry: Registry<K>, references: seq<Reference<K>>, chosen: map<string, K>,
                             names: set<string>, all: map<string, K>) returns (inner: Tour<K>)
    requires Within(registry, references, names) && references != []
    requires var tour := Visit(registry, references, chosen, names);
             AllKnown(registry, tour.met) && Extends(all, tour.chosen)
    ensures var r := references[0];
            && r.key in registry && r.name in names
            && Within(registry, registry[r.key].references, names) && Within(registry, references[1..], names)
            && inner == (if r.name in chosen then Tour(chosen, [], [])
                         else Visit(registry, registry[r.key].references, chosen[r.name := r.key], names))
            && AllKnown(registry, inner.met) && Extends(all, inner.chosen) && Extends(inner.chosen, chosen)
    ensures var rest := Visit(registry, references[1..], inner.chosen, names);
            var tour := Visit(registry, references, chosen, names);
            && AllKnown(registry, rest.met) && tour.chosen == rest.chosen
            && tour.done == if references[0].name in chosen then rest.done
                            else inner.done + [references[0].name] + rest.done
  {
    var r := references[0];
    var tour := Visit(registry, references, chosen, names);
    assert r in references && r in tour.met;
    inner := Tour(chosen, [], []);
    if r.name !in chosen {
      inner := Visit(registry, registry[r.key].references, chosen[r.name := r.key], names);
      TourIsNeeded(registry, registry[r.key].references, chosen[r.name := r.key], names);
      assert forall m :: m in inner.met ==> m in tour.met;
    }
    TourIsNeeded(registry, references[1..], inner.chosen, names);
    assert forall m :: m in Visit(registry, references[1..], inner.chosen, names).met ==> m in tour.met;
  }

  /** If everything met is known, the names of the references, and of those of each new schema,
      are all there. */
  lemma {:induction false} TourCovers<K(!new)>(registry: Registry<K>, references: seq<Reference<K>>,
                                               chosen: map<string, K>, names: set<string>)
    requires Within(registry, references, names) && AllKnown(registry, Visit(registry, references, chosen, names).met)
    ensures var tour := Visit(registry, references, chosen, names);
            && Extends(tour.chosen, chosen)
            && Covers(registry, references, tour.chosen.Keys)
            && forall n :: n in tour.chosen && n !in chosen ==>
                 tour.chosen[n] in registry && Covers(registry, registry[tour.chosen[n]].references, tour.chosen.Keys)
    decreases names - chosen.Keys, |references|
  {
    if references != [] {
      var r, tour := references[0], Visit(registry, references, chosen, names);
      var inner := FirstOfTour(registry, references, chosen, names, tour.chosen);
      hide Visit, Within, AllKnown;
      if r.name !in chosen {
        assert r.name !in names - chosen[r.name := r.key].Keys;
        TourCovers(registry, registry[r.key].references, chosen[r.name := r.key], names);
      }
      TourCovers(registry, references[1..], inner.chosen, names);
    }
  }

  // ---- the collection as the source runs it

  /** Collecting `references` from `start` goes on as collecting `rest` from `chosen` does. */
  ghost predicate GoesOn<K(!new)>(registry: Registry<K>, references: seq<Reference<K>>, start: map<string, K>,
                                  rest: seq<Reference<K>>, chosen: map<string, K>, names: set<string>)
    requires Within(registry, references, names) && Within(registry, rest, names)
  {
    var whole, last := Visit(registry, references, start, names), Visit(registry, rest, chosen, names);
    && whole.chosen == last.chosen
    && (AllKnown(registry, whole.met) <==> AllKnown(registry, last.met))
  }

  /** One reference further: it must be known, and so must all that is met through a new name. */
  lemma GoesOnNext<K(!new)>(registry: Registry<K>, references: seq<Reference<K>>, start: map<string, K>, i: nat,
                            chosen: map<string, K>, after: map<string, K>, ok: bool, names: set<string>)
    requires Within(registry, references, names) && i < |references|
    requires GoesOn(registry, references, start, references[i..], chosen, names)
    requires var r := references[i];
             if r.key !in registry then !ok
             else if r.name in chosen then ok && after == chosen
             else
               var inner := Visit(registry, registry[r.key].references, chosen[r.name := r.key], names);
               (ok <==> AllKnown(registry, inner.met)) && (ok ==> after == inner.chosen)
    ensures !ok ==> !AllKnown(registry, Visit(registry, references, start, names).met)
    ensures ok ==> GoesOn(registry, references, start, references[i + 1..], after, names)
  {
    var r := references[i];
    assert references[i..][0] == r && references[i..][1..] == references[i + 1..];
    var tour := Visit(registry, references[i..], chosen, names);
    assert r in tour.met;
    if r.key in registry && r.name !in chosen {
      var inner := Visit(registry, registry[r.key].references, chosen[r.name := r.key], names);
      assert forall m :: m in inner.met ==> m in tour.met;
    }
  }

  /** Depth-first collection; the first schema that carries a name keeps it. */
  class ResourceCollector<K(==,!new)> {
    const registry: Registry<K>
    var resources: map<string, string>
    ghost var chosen: map<string, K>

    constructor (registry: Registry<K>)
      ensures this.registry == registry && Valid() && chosen == map[]
    {
      this.registry := registry;
      resources, chosen := map[], map[];
    }

    /** Each name holds the content of the key chosen for it. */
    ghost predicate Valid()
      reads this
    {
      && chosen.Keys == resources.Keys
      && forall n :: n in resources ==> chosen[n] in registry && resources[n] == registry[chosen[n]].content
    }

    method Collect(references: seq<Reference<K>>, ghost names: set<string>) returns (ok: bool)
      requires Valid() && Within(registry, references, names)
      modifies this
      ensures Valid()
      ensures var tour := Visit(registry, references, old(chosen), names);
              (ok <==> AllKnown(registry, tour.met)) && (ok ==> chosen == tour.chosen)
      decreases names - resources.Keys
    {
      hide GoesOn, AllKnown, Visit;
      GoesOnStarts(registry, references, chosen, names);
      for i := 0 to |references|
        invariant Valid() && old(resources.Keys) <= resources.Keys
        invariant GoesOn(registry, references, old(chosen), references[i..], chosen, names)
      {
        var reference := references[i];
        assert reference in references;
        // a reference is fetched before its name is looked at
        if reference.key !in registry {
          GoesOnNext(registry, references, old(chosen), i, chosen, chosen, false, names);
          return false;
        }
        if reference.name in resources {
          GoesOnNext(registry, references, old(chosen), i, chosen, chosen, true, names);
          continue;
        }
        ghost var before := chosen;
        resources := resources[reference.name := registry[reference.key].content];
        chosen := chosen[reference.name := reference.key];
        assert reference.name in names && reference.name !in before.Keys && before.Keys < resources.Keys;
        ok := Collect(registry[reference.key].references, names);
        GoesOnNext(registry, references, old(chosen), i, before, chosen, ok, names);
        if !ok {
          return;
        }
      }
      GoesOnEnds(registry, references, old(chosen), references[|references|..], chosen, names);
      ok := true;
    }
  }

  lemma GoesOnStarts<K(!new)>(registry: Registry<K>, references: seq<Reference<K>>, start: map<string, K>,
                              names: set<string>)
    requires Within(registry, references, names)
    ensures GoesOn(registry, references, start, references[0..], start, names)
  {
    assert references[0..] == references;
  }

  lemma GoesOnEnds<K(!new)>(registry: Registry<K>, references: seq<Reference<K>>, start: map<string, K>,
                            rest: seq<Reference<K>>, chosen: map<string, K>, names: set<string>)
    requires Within(registry, references, names) && rest == []
    requires GoesOn(registry, references, start, rest, chosen, names)
    ensures var tour := Visit(registry, references, start, names);
            AllKnown(registry, tour.met) && chosen == tour.chosen
  {
  }

  /** A finished collection: every name holds the content of one key it is needed for, and every
      name met on the way is there. */
  ghost predicate Gathered<K(!new)>(registry: Registry<K>, roots: seq<Reference<K>>,
                                    resources: map<string, string>, chosen: map<string, K>) {
    && chosen.Keys == resources.Keys
    && (forall n :: n in resources ==>
          && chosen[n] in registry && resources[n] == registry[chosen[n]].content
          && NeededReference(registry, roots, Reference(n, chosen[n])))
    && Covers(registry, roots, resources.Keys)
    && forall n :: n in resources ==> Covers(registry, registry[chosen[n]].references, resources.Keys)
  }

  ghost function Names<K>(registry: Registry<K>, roots: seq<Reference<K>>): set<string> {
    (set k, r | k in registry && r in registry[k].references :: r.name) + (set r | r in roots :: r.name)
  }

  /** Every reference that a collection meets is known. */
  ghost predicate MetKnown<K(!new)>(registry: Registry<K>, roots: seq<Reference<K>>) {
    AllKnown(registry, Visit(registry, roots, map[], Names(registry, roots)).met)
  }

  /** Collection succeeds exactly when every reference it meets is known; if a name always means the
      same schema, that is when everything needed is. */
  method CollectResources<K(==,!new)>(registry: Registry<K>, roots: seq<Reference<K>>)
      returns (ok: bool, resources: map<string, string>, ghost chosen: map<string, K>)
    ensures ok <==> MetKnown(registry, roots)
    ensures NeededKnown(registry, roots) ==> ok
    ensures NamesChooseKeys(registry, roots) && ok ==> NeededKnown(registry, roots)
    ensures ok ==> Gathered(registry, roots, resources, chosen)
  {
    var collector := new ResourceCollector(registry);
    ghost var names := Names(registry, roots);
    ok := collector.Collect(roots, names);
    resources, chosen := collector.resources, collector.chosen;
    TourIsNeeded(registry, roots, map[], names);
    if !ok {
      ghost var r :| r in Visit(registry, roots, map[], names).met && r.key !in registry;
      ReferenceNeedsKey(registry, roots, r);
      return;
    }
    TourCovers(registry, roots, map[], names);
    if NamesChooseKeys(registry, roots) {
      forall k | NeededKey(registry, roots, k)
        ensures k in registry
      {
        NeededKeyIsChosen(registry, roots, resources, chosen, k);
      }
    }
  }

  /** Every needed reference finds the content it means under its name. */
  ghost predicate Faithful<K(!new)>(registry: Registry<K>, roots: seq<Reference<K>>, resources: map<string, string>) {
    forall r :: NeededReference(registry, roots, r) ==>
      r.key in registry && r.name in resources && resources[r.name] == registry[r.key].content
  }

  ghost predicate NamesChooseKeys<K(!new)>(registry: Registry<K>, roots: seq<Reference<K>>) {
    forall r, s :: NeededReference(registry, roots, r) && NeededReference(registry, roots, s) && r.name == s.name ==>
      r.key == s.key
  }

  /** A reference of a chosen schema is needed itself, so its own name chose its key. */
  lemma ChosenReference<K(!new)>(registry: Registry<K>, roots: seq<Reference<K>>, resources: map<string, string>,
                                 chosen: map<string, K>, n: string, i: nat)
    requires Gathered(registry, roots, resources, chosen) && NamesChooseKeys(registry, roots)
    requires n in chosen && i < |registry[chosen[n]].references|
    ensures var r := registry[chosen[n]].references[i]; r.name in chosen && chosen[r.name] == r.key
  {
    var r := registry[chosen[n]].references[i];
    assert r in registry[chosen[n]].references;
    ReferenceNeedsKey(registry, roots, Reference(n, chosen[n]));
    assert NeededReference(registry, roots, r);
    assert NeededReference(registry, roots, Reference(r.name, chosen[r.name]));
  }

  lemma NeededKeyIsChosen<K(!new)>(registry: Registry<K>, roots: seq<Reference<K>>, resources: map<string, string>,
                                   chosen: map<string, K>, k: K)
    requires Gathered(registry, roots, resources, chosen) && NamesChooseKeys(registry, roots)
    requires NeededKey(registry, roots, k)
    ensures exists n :: n in chosen && chosen[n] == k
  {
    var keys := set n | n in chosen :: chosen[n];
    forall x, y | x in keys && y in Next(Collectors.References(Plain(registry)), x)
      ensures y in keys
    {
      var n :| n in chosen && chosen[n] == x;
      var i :| 0 <= i < |registry[x].references| && registry[x].references[i].key == y;
      ChosenReference(registry, roots, resources, chosen, n, i);
    }
    forall y | y in KeysOf(roots)
      ensures y in keys
    {
      var i :| 0 <= i < |roots| && roots[i].key == y;
      RootIsChosen(registry, roots, resources, chosen, i);
    }
    Collectors.ClosedHoldsNeeded(Plain(registry), KeysOf(roots), keys, k);
  }

  lemma RootIsChosen<K(!new)>(registry: Registry<K>, roots: seq<Reference<K>>, resources: map<string, string>,
                              chosen: map<string, K>, i: nat)
    requires Gathered(registry, roots, resources, chosen) && NamesChooseKeys(registry, roots) && i < |roots|
    ensures roots[i].name in chosen && chosen[roots[i].name] == roots[i].key
  {
    assert roots[i] in roots && NeededReference(registry, roots, roots[i]);
    assert NeededReference(registry, roots, Reference(roots[i].name, chosen[roots[i].name]));
  }

  /** If a name always means the same schema, whatever is needed was chosen under its name. */
  lemma NeededIsChosen<K(!new)>(registry: Registry<K>, roots: seq<Reference<K>>, resources: map<string, string>,
                                chosen: map<string, K>, r: Reference<K>)
    requires Gathered(registry, roots, resources, chosen) && NamesChooseKeys(registry, roots)
    requires NeededReference(registry, roots, r)
    ensures r.key in registry && r.name in resources && chosen[r.name] == r.key
  {
    if r in roots {
      var i :| 0 <= i < |roots| && roots[i] == r;
      RootIsChosen(registry, roots, resources, chosen, i);
    } else {
      var k :| k in registry && NeededKey(registry, roots, k) && r in registry[k].references;
      NeededKeyIsChosen(registry, roots, resources, chosen, k);
      var n :| n in chosen && chosen[n] == k;
      var i :| 0 <= i < |registry[k].references| && registry[k].references[i] == r;
      ChosenReference(registry, roots, resources, chosen, n, i);
    }
  }

  /** Distinct contents show that a name was needed for two schemas. */
  lemma FaithfulNamesChoose<K(!new)>(registry: Registry<K>, roots: seq<Reference<K>>, resources: map<string, string>)
    requires Faithful(registry, roots, resources) && DistinctContents(registry, roots)
    ensures NamesChooseKeys(registry, roots)
  {
    forall r, s | NeededReference(registry, roots, r) && NeededReference(registry, roots, s) && r.name == s.name
      ensures r.key == s.key
    {
      ReferenceNeedsKey(registry, roots, r);
      ReferenceNeedsKey(registry, roots, s);
      assert registry[r.key].content == resources[r.name] == registry[s.key].content;
    }
  }

  /** Whatever the schemas contain, a finished collection holds what every reference means. */
  ghost predicate AlwaysFaithful<K(!new)>(registry: Registry<K>, roots: seq<Reference<K>>) {
    forall other: Registry<K>, resources, chosen ::
      SameReferences(registry, other) && Gathered(other, roots, resources, chosen) ==> Faithful(other, roots, resources)
  }

  /** No resources at all hold what every reference means under its name. */
  ghost predicate NeverFaithful<K(!new)>(registry: Registry<K>, roots: seq<Reference<K>>) {
    forall resources :: !Faithful(registry, roots, resources)
  }

  /** Contents do not change what a collection meets and chooses. */
  lemma {:induction false} SameVisit<K(!new)>(registry: Registry<K>, other: Registry<K>, references: seq<Reference<K>>,
                                              chosen: map<string, K>, names: set<string>)
    requires SameReferences(registry, other) && Within(registry, references, names)
    ensures Within(other, references, names)
    ensures Visit(other, references, chosen, names) == Visit(registry, references, chosen, names)
    decreases names - chosen.Keys, |references|
  {
    if references != [] {
      var r := references[0];
      var inner := Tour(chosen, [], []);
      if r.key in registry && r.name !in chosen {
        assert r in references && r.name in names && r.name !in names - chosen[r.name := r.key].Keys;
        SameVisit(registry, other, registry[r.key].references, chosen[r.name := r.key], names);
        inner := Visit(registry, registry[r.key].references, chosen[r.name := r.key], names);
      }
      SameVisit(registry, other, references[1..], inner.chosen, names);
    }
  }

  lemma SameMetKnown<K(!new)>(registry: Registry<K>, other: Registry<K>, roots: seq<Reference<K>>)
    requires SameReferences(registry, other) && MetKnown(registry, roots)
    ensures MetKnown(other, roots)
  {
    assert Names(other, roots) == Names(registry, roots);
    SameVisit(registry, other, roots, map[], Names(registry, roots));
  }

  /** If all that is met is known, there is a finished collection: the one the visit chooses. */
  lemma SomeCollection<K(!new)>(registry: Registry<K>, roots: seq<Reference<K>>)
      returns (resources: map<string, string>, chosen: map<string, K>)
    requires MetKnown(registry, roots)
    ensures Gathered(registry, roots, resources, chosen)
  {
    var names := Names(registry, roots);
    TourIsNeeded(registry, roots, map[], names);
    TourCovers(registry, roots, map[], names);
    chosen := Visit(registry, roots, map[], names).chosen;
    resources := map n | n in chosen :: registry[chosen[n]].content;
  }

  lemma ChoiceIsFaithful<K(!new)>(registry: Registry<K>, roots: seq<Reference<K>>)
    requires NamesChooseKeys(registry, roots)
    ensures AlwaysFaithful(registry, roots)
  {
    forall other: Registry<K>, resources, chosen
      | SameReferences(registry, other) && Gathered(other, roots, resources, chosen)
      ensures Faithful(other, roots, resources)
    {
      SameNeeds(registry, other, roots);
      forall r | NeededReference(other, roots, r)
        ensures r.key in other && r.name in resources && resources[r.name] == other[r.key].content
      {
        NeededIsChosen(other, roots, resources, chosen, r);
      }
    }
  }

  lemma ClashHasContents<K(!new)>(registry: Registry<K>, roots: seq<Reference<K>>) returns (other: Registry<K>)
    requires !NamesChooseKeys(registry, roots)
    ensures SameReferences(registry, other) && NeverFaithful(other, roots)
  {
    other := Told(registry);
    SameNeeds(registry, other, roots);
    forall resources | Faithful(other, roots, resources)
      ensures false
    {
      FaithfulNamesChoose(other, roots, resources);
    }
  }

  /** If all that is met is known, collections hold what every reference means, whatever the schemas
      contain, exactly when no name is needed for two of them. If one is, there are contents for
      which nothing could. */
  lemma FaithfulByNameExact<K(!new)>(registry: Registry<K>, roots: seq<Reference<K>>)
    ensures MetKnown(registry, roots) ==> (NamesChooseKeys(registry, roots) <==> AlwaysFaithful(registry, roots))
    ensures NamesChooseKeys(registry, roots) ==> AlwaysFaithful(registry, roots)
    ensures !NamesChooseKeys(registry, roots) ==>
              exists other: Registry<K> :: SameReferences(registry, other) && NeverFaithful(other, roots)
  {
    if NamesChooseKeys(registry, roots) {
      ChoiceIsFaithful(registry, roots);
    } else {
      var other := ClashHasContents(registry, roots);
      if MetKnown(registry, roots) {
        SameMetKnown(registry, other, roots);
        var resources, chosen := SomeCollection(other, roots);
      }
    }
  }

  /** Two versions of one schema under one name: the first is kept for both, and what only the
      second references is never looked at, even if it is unknown. */
  const TWO_VERSIONS: Registry<nat> := map[1 := Artifact("v1", []), 2 := Artifact("v2", [Reference("gone.json", 3)])]
  const TWO_USES: seq<Reference<nat>> := [Reference("order.json", 1), Reference("order.json", 2)]

  lemma TwoVersionsNeeded()
    ensures NeededReference(TWO_VERSIONS, TWO_USES, TWO_USES[0]) && NeededReference(TWO_VERSIONS, TWO_USES, TWO_USES[1])
    ensures NeededKey(TWO_VERSIONS, TWO_USES, 3)
  {
    assert TWO_USES[0] in TWO_USES && TWO_USES[1] in TWO_USES;
    ReferenceNeedsKey(TWO_VERSIONS, TWO_USES, TWO_USES[1]);
    hide NeededKey;
    var gone := TWO_VERSIONS[2].references[0];
    assert NeededReference(TWO_VERSIONS, TWO_USES, gone);
    ReferenceNeedsKey(TWO_VERSIONS, TWO_USES, gone);
  }

  lemma SecondVersionIsLost()
    ensures Gathered(TWO_VERSIONS, TWO_USES, map["order.json" := "v1"], map["order.json" := 1])
    ensures NeededKey(TWO_VERSIONS, TWO_USES, 3) && 3 !in TWO_VERSIONS
    ensures NeverFaithful(TWO_VERSIONS, TWO_USES)
  {
    TwoVersionsNeeded();
    hide NeededKey, NeededReference;
  }
}
