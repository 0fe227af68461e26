/** Gathering the contents a Confluent schema references, one for each reference name, each after
    the contents it references itself. */
module NamedContents {
  import opened Graphs
  import opened NamedSources
  import opened NamedResources
  import Collectors

  function NamesOf<K>(references: seq<Reference<K>>): seq<string> {
    seq(|references|, i requires 0 <= i < |references| => references[i].name)
  }

  /** Each name refers to the names its chosen schema references. */
  ghost function NameGraph<K>(registry: Registry<K>, chosen: map<string, K>): Graph<string> {
    map n | n in chosen && chosen[n] in registry :: NamesOf(registry[chosen[n]].references)
  }

  /** The chosen names are those in `order`, whose references come first, and those on the path. */
  ghost predicate Ordered<K(!new)>(g: Graph<string>, order: seq<string>, path: seq<string>, chosen: map<string, K>) {
    && Distinct(order)
    && (forall n :: n in chosen <==> n in order || n in path)
    && (forall n :: n in order ==> n !in path)
    && Collectors.DependenciesFirstUpToCycles(g, order)
  }

  /** A finished name leaves the path and follows the names its schema references. */
  lemma NameOrdered<K(!new)>(registry: Registry<K>, all: map<string, K>, order: seq<string>, path: seq<string>,
                             chosen: map<string, K>, r: Reference<K>)
    requires r.key in registry && Extends(all, chosen) && r.name in chosen && chosen[r.name] == r.key
    requires r.name !in path && Walk(NameGraph(registry, all), path + [r.name])
    requires Ordered(NameGraph(registry, all), order, path + [r.name], chosen)
    requires Covers(registry, registry[r.key].references, chosen.Keys)
    ensures Ordered(NameGraph(registry, all), order + [r.name], path, chosen)
  {
    var g := NameGraph(registry, all);
    assert r.name in path + [r.name];
    forall d | d in Next(g, r.name) && d !in order
      ensures Reaches(g, d, r.name)
    {
      assert d in chosen;
      WalkReachesLast(g, path + [r.name], d);
    }
    Collectors.OrderExtends(g, order, r.name);
  }

  lemma NestedNames<K>(registry: Registry<K>, all: map<string, K>, r: Reference<K>)
    requires r.name in all && all[r.name] == r.key && r.key in registry
    ensures forall s :: s in registry[r.key].references ==> s.name in Next(NameGraph(registry, all), r.name)
  {
    forall s | s in registry[r.key].references
      ensures s.name in NamesOf(registry[r.key].references)
    {
      var i :| 0 <= i < |registry[r.key].references| && registry[r.key].references[i] == s;
      assert NamesOf(registry[r.key].references)[i] == s.name;
    }
  }

  lemma NameOpened<K(!new)>(g: Graph<string>, order: seq<string>, path: seq<string>, chosen: map<string, K>,
                            r: Reference<K>)
    requires Ordered(g, order, path, chosen) && r.name !in chosen
    requires path != [] ==> Walk(g, path) && r.name in Next(g, path[|path| - 1])
    ensures Ordered(g, order, path + [r.name], chosen[r.name := r.key]) && Walk(g, path + [r.name])
    ensures r.name !in path
  {
    WalkExtends(g, path, r.name);
  }

  lemma Regrouped<T>(a: seq<T>, b: seq<T>, c: seq<T>, d: seq<T>)
    ensures a + (b + c + d) == a + b + c + d
  {
  }

  lemma {:induction false} TourOrdered<K(!new)>(registry: Registry<K>, references: seq<Reference<K>>,
                                                chosen: map<string, K>, names: set<string>, all: map<string, K>,
                                                order: seq<string>, path: seq<string>)
    requires Within(registry, references, names)
    requires var tour := Visit(registry, references, chosen, names);
             AllKnown(registry, tour.met) && Extends(all, tour.chosen)
    requires Ordered(NameGraph(registry, all), order, path, chosen)
    requires path != [] ==>
               && Walk(NameGraph(registry, all), path)
               && forall r :: r in references ==> r.name in Next(NameGraph(registry, all), path[|path| - 1])
    ensures var tour := Visit(registry, references, chosen, names);
            Ordered(NameGraph(registry, all), order + tour.done, path, tour.chosen)
    decreases names - chosen.Keys, |references|, 1
  {
    if references == [] {
      assert order + [] == order;
    } else {
      var r := references[0];
      var inner := FirstOfTour(registry, references, chosen, names, all);
      hide Visit, Ordered, NameGraph, Within, Extends, AllKnown, Walk;
      var rest := Visit(registry, references[1..], inner.chosen, names);
      if r.name in chosen {
        TourOrdered(registry, references[1..], chosen, names, all, order, path);
      } else {
        assert r in references;
        NameFinished(registry, r, chosen, names, all, order, path);
        TourOrdered(registry, references[1..], inner.chosen, names, all, order + inner.done + [r.name], path);
        Regrouped(order, inner.done, [r.name], rest.done);
      }
    }
  }

  /** What a new name leads to is finished before the name itself. */
  lemma {:induction false} NameFinished<K(!new)>(registry: Registry<K>, r: Reference<K>, chosen: map<string, K>,
                                                 names: set<string>, all: map<string, K>,
                                                 order: seq<string>, path: seq<string>)
    requires r.key in registry && Within(registry, registry[r.key].references, names)
    requires r.name in names && r.name !in chosen
    requires var tour := Visit(registry, registry[r.key].references, chosen[r.name := r.key], names);
             AllKnown(registry, tour.met) && Extends(all, tour.chosen)
    requires Ordered(NameGraph(registry, all), order, path, chosen)
    requires path != [] ==>
               Walk(NameGraph(registry, all), path) && r.name in Next(NameGraph(registry, all), path[|path| - 1])
    ensures var tour := Visit(registry, registry[r.key].references, chosen[r.name := r.key], names);
            Ordered(NameGraph(registry, all), order + tour.done + [r.name], path, tour.chosen)
    decreases names - chosen.Keys, 0, 0
  {
    var nested, entered := registry[r.key].references, chosen[r.name := r.key];
    var tour := Visit(registry, nested, entered, names);
    NameOpened(NameGraph(registry, all), order, path, chosen, r);
    assert r.name !in names - entered.Keys;
    TourCovers(registry, nested, entered, names);
    assert tour.chosen[r.name] == entered[r.name];
    NestedNames(registry, all, r);
    hide Visit, Walk, Ordered, NameGraph, Within, AllKnown;
    TourOrdered(registry, nested, entered, names, all, order, path + [r.name]);
    NameOrdered(registry, all, order + tour.done, path, tour.chosen, r);
  }

  // ---- the collection as the source runs it

  /** The names finished so far, and those the rest of the references will finish, are the tour's. */
  ghost predicate Remains<K(!new)>(registry: Registry<K>, references: seq<Reference<K>>, start: map<string, K>,
                                   before: seq<string>, rest: seq<Reference<K>>, chosen: map<string, K>,
                                   done: seq<string>, names: set<string>)
    requires Within(registry, references, names) && Within(registry, rest, names)
  {
    before + Visit(registry, references, start, names).done == done + Visit(registry, rest, chosen, names).done
  }

  lemma RemainsNext<K(!new)>(registry: Registry<K>, references: seq<Reference<K>>, start: map<string, K>,
                             before: seq<string>, i: nat, chosen: map<string, K>, done: seq<string>,
                             names: set<string>)
    requires Within(registry, references, names) && i < |references|
    requires Remains(registry, references, start, before, references[i..], chosen, done, names)
    ensures var r := references[i];
            if r.key in registry && r.name !in chosen then
              var inner := Visit(registry, registry[r.key].references, chosen[r.name := r.key], names);
              Remains(registry, references, start, before, references[i + 1..], inner.chosen,
                      done + inner.done + [r.name], names)
            else Remains(registry, references, start, before, references[i + 1..], chosen, done, names)
  {
    var r := references[i];
    assert references[i..][0] == r && references[i..][1..] == references[i + 1..];
    if r.key in registry && r.name !in chosen {
      var inner := Visit(registry, registry[r.key].references, chosen[r.name := r.key], names);
      Regrouped(done, inner.done, [r.name], Visit(registry, references[i + 1..], inner.chosen, names).done);
    } else {
      var rest := Visit(registry, references[i + 1..], chosen, names).done;
      assert [] + [] + rest == rest;
    }
  }

  /** Each content is that of the key its name got. */
  ghost predicate ContentsOf<K>(registry: Registry<K>, chosen: map<string, K>, done: seq<string>,
                                contents: seq<string>) {
    && |contents| == |done|
    && forall i :: 0 <= i < |done| ==>
         done[i] in chosen && chosen[done[i]] in registry && contents[i] == registry[chosen[done[i]]].content
  }

  class ContentCollector<K(==,!new)> {
    const registry: Registry<K>
    var visited: set<string>
    var contents: seq<string>
    ghost var chosen: map<string, K>
    ghost var done: seq<string>

    constructor (registry: Registry<K>)
      ensures this.registry == registry && Valid() && chosen == map[] && done == []
    {
      this.registry := registry;
      visited, contents, chosen, done := {}, [], map[], [];
    }

    ghost predicate Valid()
      reads this
    {
      visited == chosen.Keys && ContentsOf(registry, chosen, done, contents)
    }

    method Collect(references: seq<Reference<K>>, ghost names: set<string>) returns (ok: bool)
      requires Valid() && Within(registry, references, names)
      modifies this
      ensures Valid()
      ensures var tour := Visit(registry, references, old(chosen), names);
              && (ok <==> AllKnown(registry, tour.met))
              && (ok ==> chosen == tour.chosen && done == old(done) + tour.done)
      ensures Extends(chosen, old(chosen))
      decreases names - visited
    {
      hide GoesOn, Remains, AllKnown, Visit;
      GoesOnStarts(registry, references, chosen, names);
      RemainsStarts(registry, references, chosen, done, names);
      for i := 0 to |references|
        invariant Valid() && Extends(chosen, old(chosen))
        invariant GoesOn(registry, references, old(chosen), references[i..], chosen, names)
        invariant Remains(registry, references, old(chosen), old(done), references[i..], chosen, done, names)
      {
        var reference := references[i];
        assert reference in references;
        RemainsNext(registry, references, old(chosen), old(done), i, chosen, done, names);
        // a reference is fetched before its name is looked at
        if reference.key !in registry {
          GoesOnNext(registry, references, old(chosen), i, chosen, chosen, false, names);
          return false;
        }
        if reference.name in visited {
          GoesOnNext(registry, references, old(chosen), i, chosen, chosen, true, names);
          continue;
        }
        ghost var before := chosen;
        visited := visited + {reference.name};
        chosen := chosen[reference.name := reference.key];
        assert reference.name in names && reference.name !in before.Keys && before.Keys < visited;
        ok := Collect(registry[reference.key].references, names);
        GoesOnNext(registry, references, old(chosen), i, before, chosen, ok, names);
        if !ok {
          return;
        }
        contents := contents + [registry[reference.key].content];
        done := done + [reference.name];
      }
      GoesOnEnds(registry, references, old(chosen), references[|references|..], chosen, names);
      RemainsEnds(registry, references, old(chosen), old(done), references[|references|..], chosen, done, names);
      ok := true;
    }
  }

  lemma RemainsStarts<K(!new)>(registry: Registry<K>, references: seq<Reference<K>>, start: map<string, K>,
                               before: seq<string>, names: set<string>)
    requires Within(registry, references, names)
    ensures Remains(registry, references, start, before, references[0..], start, before, names)
  {
    assert references[0..] == references;
  }

  lemma RemainsEnds<K(!new)>(registry: Registry<K>, references: seq<Reference<K>>, start: map<string, K>,
                             before: seq<string>, rest: seq<Reference<K>>, chosen: map<string, K>,
                             done: seq<string>, names: set<string>)
    requires Within(registry, references, names) && rest == []
    requires Remains(registry, references, start, before, rest, chosen, done, names)
    ensures done == before + Visit(registry, references, start, names).done
  {
    assert done + [] == done;
  }

  /** Collection succeeds exactly when every reference it meets is known. It then returns one content
      for each name, that of one schema it is needed for, after the contents of the names which that
      schema references, unless they lead back to it. */
  method CollectContents<K(==,!new)>(registry: Registry<K>, roots: seq<Reference<K>>)
      returns (ok: bool, contents: seq<string>, ghost chosen: map<string, K>, ghost order: seq<string>)
    ensures ok <==> MetKnown(registry, roots)
    ensures ok ==> ContentsOf(registry, chosen, order, contents)
    ensures ok ==> Distinct(order) && Members(order) == chosen.Keys
    ensures ok ==> Collectors.DependenciesFirstUpToCycles(NameGraph(registry, chosen), order)
    ensures ok ==> forall n :: n in chosen ==> NeededReference(registry, roots, Reference(n, chosen[n]))
    ensures ok ==> Covers(registry, roots, chosen.Keys)
    ensures ok ==> forall n :: n in chosen ==>
              chosen[n] in registry && Covers(registry, registry[chosen[n]].references, chosen.Keys)
  {
    var collector := new ContentCollector(registry);
    ghost var names := Names(registry, roots);
    ok := collector.Collect(roots, names);
    contents, chosen, order := collector.contents, collector.chosen, collector.done;
    if ok {
      TourIsNeeded(registry, roots, map[], names);
      TourCovers(registry, roots, map[], names);
      TourOrdered(registry, roots, map[], names, chosen, [], []);
    }
  }
}
