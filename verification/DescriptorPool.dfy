/** Building a Protobuf descriptor pool: imports are added before the files that import them. */
module DescriptorPool {
  import opened Graphs

  /** Every import of a bundled file is bundled too, with a lower rank. */
  ghost predicate Ranked(bundled: Graph<string>, rank: map<string, nat>) {
    forall n, d :: n in bundled && d in bundled[n] ==>
      d in bundled && n in rank && d in rank && rank[d] < rank[n]
  }

  /** The descriptors handed to the builder, keyed by their own names, the imports of the
      files bundled with protobuf, a rank witnessing that the bundle loads in import order,
      and the names whose descriptors the pool accepts once their imports are in it. */
  datatype Sources = Sources(
    files: map<string, seq<string>>,
    bundled: map<string, seq<string>>,
    rank: map<string, nat>,
    valid: set<string>)
  {
    ghost predicate BundleLoads() {
      Ranked(bundled, rank)
    }

    /** A name given explicitly wins over the bundled file of that name. */
    ghost function Imports(): Graph<string> {
      bundled + files
    }

    /** The bundled file `n`, not given itself, imports the given name `d`. */
    ghost predicate Clash(n: string, d: string) {
      n in bundled && n !in files && d in bundled[n] && d in files
    }

    /** No bundled file imports a name that was given explicitly. */
    ghost predicate NoClash() {
      forall n, d :: !Clash(n, d)
    }

    /** No bundled file that the root reaches does. */
    ghost predicate NoClashFrom(root: string) {
      forall n, d :: Clash(n, d) ==> !Reaches(Imports(), root, n)
    }
  }

  datatype Outcome = Done | Cyclic | Missing(name: string) | Invalid(name: string)

  datatype State = State(added: set<string>, visiting: set<string>, pool: seq<string>)

  datatype Step = Step(outcome: Outcome, state: State)

  const EMPTY := State({}, {}, [])

  /** The pool takes a descriptor it has no file of that name for, after all its imports. */
  predicate PoolAccepts(s: Sources, name: string, pool: seq<string>)
    requires name in s.files
  {
    && name in s.valid
    && name !in pool
    && forall d :: d in s.files[name] ==> d in pool
  }

  function InsertFile(s: Sources, name: string, st: State): (r: Step)
    requires s.BundleLoads() && name in s.files
    ensures r.outcome.Done? ==> r.state.visiting == st.visiting
    decreases s.files.Keys - st.visiting, 0, 0
  {
    if name in st.added then Step(Done, st)
    else if name in st.visiting then Step(Cyclic, st)
    else
      var deps := InsertImports(s, s.files[name], st.(visiting := st.visiting + {name}));
      if !deps.outcome.Done? then deps
      else if !PoolAccepts(s, name, deps.state.pool) then Step(Invalid(name), deps.state)
      else Step(Done, State(deps.state.added + {name}, deps.state.visiting - {name}, deps.state.pool + [name]))
  }

  function InsertImports(s: Sources, names: seq<string>, st: State): (r: Step)
    requires s.BundleLoads()
    ensures r.outcome.Done? ==> r.state.visiting == st.visiting
    decreases s.files.Keys - st.visiting, 1, |names|
  {
    if names == [] then Step(Done, st)
    else
      var first := if names[0] in s.files then InsertFile(s, names[0], st) else InsertBundled(s, names[0], st);
      if first.outcome.Done? then InsertImports(s, names[1..], first.state) else first
  }

  function InsertBundled(s: Sources, name: string, st: State): (r: Step)
    requires s.BundleLoads()
    ensures r.outcome.Done? ==> r.state.visiting == st.visiting
    decreases if name in s.rank then s.rank[name] else 0, 1, 0
  {
    if name in st.added then Step(Done, st)
    else if name !in s.bundled then Step(Missing(name), st)
    else
      var deps := InsertBundledImports(s, name, s.bundled[name], st);
      if !deps.outcome.Done? then deps
      else Step(Done, State(deps.state.added + {name}, deps.state.visiting, deps.state.pool + [name]))
  }

  function InsertBundledImports(s: Sources, parent: string, names: seq<string>, st: State): (r: Step)
    requires s.BundleLoads()
    requires parent in s.bundled && forall d :: d in names ==> d in s.bundled[parent]
    ensures r.outcome.Done? ==> r.state.visiting == st.visiting
    decreases if parent in s.rank then s.rank[parent] else 0, 0, |names|
  {
    if names == [] then Step(Done, st)
    else
      var first := InsertBundled(s, names[0], st);
      if first.outcome.Done? then InsertBundledImports(s, parent, names[1..], first.state) else first
  }

  /** Bundled files always load: a missing one, or one in a cycle, would not be in the bundle. */
  lemma {:induction false} BundledIsAdded(s: Sources, name: string, st: State)
    requires s.BundleLoads() && name in s.bundled
    ensures InsertBundled(s, name, st).outcome.Done?
    ensures var after := InsertBundled(s, name, st).state.added;
            && st.added <= after && name in after
            && (name !in st.added ==> forall d :: d in s.bundled[name] ==> d in after)
    decreases if name in s.rank then s.rank[name] else 0, 1, 0
  {
    if name !in st.added {
      BundledImportsAreAdded(s, name, s.bundled[name], st);
    }
  }

  lemma {:induction false} BundledImportsAreAdded(s: Sources, parent: string, names: seq<string>, st: State)
    requires s.BundleLoads() && parent in s.bundled && forall d :: d in names ==> d in s.bundled[parent]
    ensures InsertBundledImports(s, parent, names, st).outcome.Done?
    ensures var after := InsertBundledImports(s, parent, names, st).state.added;
            st.added <= after && forall d :: d in names ==> d in after
    decreases if parent in s.rank then s.rank[parent] else 0, 0, |names|
  {
    if names != [] {
      BundledIsAdded(s, names[0], st);
      BundledImportsAreAdded(s, parent, names[1..], InsertBundled(s, names[0], st).state);
    }
  }

  /** What holds between any two calls: the pool is a dependencies-first list of the added
      names, and no file on the recursion path is in it yet. */
  ghost predicate Consistent(s: Sources, st: State) {
    && Distinct(st.pool)
    && DependenciesFirst(s.Imports(), st.pool)
    && (forall n :: n in st.added <==> n in st.pool)
    && st.added !! st.visiting && st.visiting <= s.files.Keys
    && (forall n :: n in st.pool ==> n in s.Imports() && (n in s.files ==> n in s.valid))
  }

  /** A cycle or a missing name is reported only if the files `n` reaches have it. */
  ghost predicate ReportIsTrue(s: Sources, n: string, outcome: Outcome) {
    match outcome
    case Cyclic => CycleFrom(s.Imports(), n)
    case Missing(m) => Reaches(s.Imports(), n, m) && m !in s.Imports()
    case _ => true
  }

  /** Reports are true whatever the bundle imports; `path` is the way to the file being added. */
  lemma {:induction false} InsertFileReports(s: Sources, name: string, st: State, path: seq<string>)
    requires s.BundleLoads() && name in s.files
    requires Walk(s.Imports(), path + [name]) && forall x :: x in st.visiting <==> x in path
    ensures ReportIsTrue(s, name, InsertFile(s, name, st).outcome)
    decreases s.files.Keys - st.visiting, 0, 0
  {
    if name in st.added {
    } else if name in st.visiting {
      ReachesSelf(s.Imports(), name);
      WalkClosesCycle(s.Imports(), path, name);
    } else {
      InsertImportsReports(s, name, s.files[name], st.(visiting := st.visiting + {name}), path + [name]);
    }
  }

  lemma {:induction false} InsertImportsReports(
      s: Sources, parent: string, names: seq<string>, st: State, path: seq<string>)
    requires s.BundleLoads() && forall d :: d in names ==> d in Next(s.Imports(), parent)
    requires Walk(s.Imports(), path) && path[|path| - 1] == parent && forall x :: x in st.visiting <==> x in path
    ensures ReportIsTrue(s, parent, InsertImports(s, names, st).outcome)
    decreases s.files.Keys - st.visiting, 1, |names|
  {
    if names != [] {
      var g, n := s.Imports(), names[0];
      var first := if n in s.files then InsertFile(s, n, st) else InsertBundled(s, n, st);
      if n in s.files {
        InsertFileReports(s, n, st, path);
      } else if n in s.bundled {
        BundledIsAdded(s, n, st);
      }
      match first.outcome {
        case Done => InsertImportsReports(s, parent, names[1..], first.state, path);
        case Cyclic => CycleFromNext(g, parent, n);
        case Missing(m) =>
          ReachesSelf(g, n);
          ReachesNext(g, parent, n);
          ReachesTransitive(g, parent, n, m);
        case Invalid(_) =>
      }
    }
  }

  /** What a step adds, or finds unacceptable, is what `n` reaches. */
  ghost predicate Justified(s: Sources, n: string, st: State, r: Step) {
    match r.outcome
    case Done =>
      && Consistent(s, r.state)
      && st.pool <= r.state.pool
      && (forall m :: m in r.state.pool && m !in st.pool ==> Reaches(s.Imports(), n, m))
    case Invalid(m) => Reaches(s.Imports(), n, m) && m in s.files && m !in s.valid
    case _ => true
  }

  lemma JustifiedFromImport(s: Sources, parent: string, n: string, st: State, r: Step)
    requires n in Next(s.Imports(), parent) && Justified(s, n, st, r)
    ensures Justified(s, parent, st, r)
  {
    var g := s.Imports();
    ReachesNext(g, parent, n);
    forall m | Reaches(g, n, m)
      ensures Reaches(g, parent, m)
    {
      ReachesTransitive(g, parent, n, m);
    }
  }

  /** Appending a name after its imports keeps the pool consistent. */
  lemma AppendKeepsConsistent(s: Sources, name: string, st: State, after: State)
    requires Consistent(s, st) && name !in st.added && name in s.Imports()
    requires name in s.files ==> name in s.valid
    requires forall d :: d in Next(s.Imports(), name) ==> d in st.pool
    requires after == State(st.added + {name}, st.visiting - {name}, st.pool + [name])
    ensures Consistent(s, after)
  {
    forall i, m | 0 <= i < |after.pool| && m in Next(s.Imports(), after.pool[i])
      ensures m in after.pool[..i]
    {
      if i == |st.pool| {
        assert after.pool[..i] == st.pool;
      } else {
        assert after.pool[..i] == st.pool[..i];
      }
    }
  }

  ghost predicate RankBelow(s: Sources, m: string, n: string) {
    m in s.rank && n in s.rank && s.rank[m] < s.rank[n]
  }

  lemma {:induction false} InsertFileJustified(s: Sources, root: string, name: string, st: State)
    requires s.BundleLoads() && s.NoClashFrom(root) && Consistent(s, st) && name in s.files
    requires Reaches(s.Imports(), root, name)
    ensures Justified(s, name, st, InsertFile(s, name, st))
    ensures InsertFile(s, name, st).outcome.Done? ==> name in InsertFile(s, name, st).state.pool
    decreases s.files.Keys - st.visiting, 0, 0
  {
    ReachesSelf(s.Imports(), name);
    if name !in st.added && name !in st.visiting {
      var inside := st.(visiting := st.visiting + {name});
      InsertImportsJustified(s, root, name, s.files[name], inside);
      var deps := InsertImports(s, s.files[name], inside);
      if deps.outcome.Done? {
        assert PoolAccepts(s, name, deps.state.pool) <==> name in s.valid;
        if name in s.valid {
          AppendKeepsConsistent(s, name, deps.state, InsertFile(s, name, st).state);
        }
      }
    }
  }

  lemma {:induction false} InsertImportsJustified(
      s: Sources, root: string, parent: string, names: seq<string>, st: State)
    requires s.BundleLoads() && s.NoClashFrom(root) && Consistent(s, st)
    requires Reaches(s.Imports(), root, parent) && forall d :: d in names ==> d in Next(s.Imports(), parent)
    ensures Justified(s, parent, st, InsertImports(s, names, st))
    ensures InsertImports(s, names, st).outcome.Done? ==>
              forall d :: d in names ==> d in InsertImports(s, names, st).state.pool
    decreases s.files.Keys - st.visiting, 1, |names|
  {
    if names != [] {
      var n := names[0];
      ReachesStep(s.Imports(), root, parent, n);
      if n in s.files {
        InsertFileJustified(s, root, n, st);
      } else {
        InsertBundledJustified(s, root, n, st);
      }
      var first := if n in s.files then InsertFile(s, n, st) else InsertBundled(s, n, st);
      JustifiedFromImport(s, parent, n, st, first);
      if first.outcome.Done? {
        InsertImportsJustified(s, root, parent, names[1..], first.state);
      }
    }
  }

  // The rank keeps a bundled file out of the pool until its own imports are in.
  lemma {:induction false} InsertBundledJustified(s: Sources, root: string, name: string, st: State)
    requires s.BundleLoads() && s.NoClashFrom(root) && Consistent(s, st) && name !in s.files
    requires Reaches(s.Imports(), root, name)
    ensures Justified(s, name, st, InsertBundled(s, name, st))
    ensures InsertBundled(s, name, st).outcome.Done? ==> name in InsertBundled(s, name, st).state.pool
    ensures forall m :: m in InsertBundled(s, name, st).state.added && m !in st.added ==>
              RankBelow(s, m, name) || m == name
    decreases if name in s.rank then s.rank[name] else 0, 1, 0
  {
    ReachesSelf(s.Imports(), name);
    if name !in st.added && name in s.bundled {
      InsertBundledImportsJustified(s, root, name, s.bundled[name], st);
      var deps := InsertBundledImports(s, name, s.bundled[name], st);
      if deps.outcome.Done? {
        AppendKeepsConsistent(s, name, deps.state, InsertBundled(s, name, st).state);
      }
    }
  }

  lemma {:induction false} InsertBundledImportsJustified(
      s: Sources, root: string, parent: string, names: seq<string>, st: State)
    requires s.BundleLoads() && s.NoClashFrom(root) && Consistent(s, st)
    requires parent in s.bundled && parent !in s.files && forall d :: d in names ==> d in s.bundled[parent]
    requires Reaches(s.Imports(), root, parent)
    ensures Justified(s, parent, st, InsertBundledImports(s, parent, names, st))
    ensures InsertBundledImports(s, parent, names, st).outcome.Done? ==>
              forall d :: d in names ==> d in InsertBundledImports(s, parent, names, st).state.pool
    ensures forall m :: m in InsertBundledImports(s, parent, names, st).state.added && m !in st.added ==>
              RankBelow(s, m, parent)
    decreases if parent in s.rank then s.rank[parent] else 0, 0, |names|
  {
    if names != [] {
      var n := names[0];
      assert !s.Clash(parent, n);
      ReachesStep(s.Imports(), root, parent, n);
      InsertBundledJustified(s, root, n, st);
      var first := InsertBundled(s, n, st);
      JustifiedFromImport(s, parent, n, st, first);
      if first.outcome.Done? {
        InsertBundledImportsJustified(s, root, parent, names[1..], first.state);
      }
    }
  }

  ghost predicate AllKnown(s: Sources, root: string) {
    forall m :: Reaches(s.Imports(), root, m) ==> m in s.Imports()
  }

  ghost predicate AllValid(s: Sources, root: string) {
    forall m :: Reaches(s.Imports(), root, m) && m in s.files ==> m in s.valid
  }

  function Build(s: Sources, root: string): Step
    requires s.BundleLoads() && root in s.files
  {
    InsertFile(s, root, EMPTY)
  }

  /** A pool is built exactly when every reachable file is known, valid and on no cycle; it then
      holds the reachable files, each once and after its imports. */
  ghost predicate BuildsExactly(s: Sources, root: string)
    requires s.BundleLoads() && root in s.files
  {
    var Step(outcome, after) := Build(s, root);
    && (outcome.Done? <==> !CycleFrom(s.Imports(), root) && AllKnown(s, root) && AllValid(s, root))
    && (outcome.Done? ==>
          && Distinct(after.pool)
          && DependenciesFirst(s.Imports(), after.pool)
          && forall m :: m in after.pool <==> Reaches(s.Imports(), root, m))
  }

  lemma BuildExactApart(s: Sources, root: string)
    requires s.BundleLoads() && s.NoClashFrom(root) && root in s.files
    ensures BuildsExactly(s, root)
  {
    var g := s.Imports();
    ReachesSelf(g, root);
    InsertFileReports(s, root, EMPTY, []);
    InsertFileJustified(s, root, root, EMPTY);
    var r := Build(s, root);
    if r.outcome.Done? {
      forall m | Reaches(g, root, m)
        ensures m in r.state.pool && !OnCycle(g, m)
      {
        OrderHoldsReachable(g, r.state.pool, root, m);
        OrderHasNoCycle(g, r.state.pool, m);
      }
    }
  }

  /** When every reachable file is known and acceptable, a cycle is reported exactly when the
      root reaches one. */
  ghost predicate ReportsCycles(s: Sources, root: string)
    requires s.BundleLoads() && root in s.files
  {
    AllKnown(s, root) && AllValid(s, root) ==> (Build(s, root).outcome == Cyclic <==> CycleFrom(s.Imports(), root))
  }

  lemma CyclicExact(s: Sources, root: string)
    requires s.BundleLoads() && s.NoClashFrom(root) && root in s.files
    ensures ReportsCycles(s, root)
  {
    BuildExactApart(s, root);
    ReachesSelf(s.Imports(), root);
    InsertFileReports(s, root, EMPTY, []);
    InsertFileJustified(s, root, root, EMPTY);
  }

  /** The builder as the source runs it: two sets and a pool changed during the recursion. */
  class PoolBuilder {
    const sources: Sources
    var added: set<string>
    var visiting: set<string>
    var pool: seq<string>

    constructor (s: Sources)
      ensures sources == s && Value() == EMPTY
    {
      sources := s;
      added, visiting, pool := {}, {}, [];
    }

    ghost function Value(): State
      reads this
    {
      State(added, visiting, pool)
    }

    method AddDescriptor(name: string) returns (outcome: Outcome)
      requires sources.BundleLoads() && name in sources.files
      modifies this
      ensures Step(outcome, Value()) == InsertFile(sources, name, old(Value()))
      decreases sources.files.Keys - visiting
    {
      if name in added {
        return Done;
      }
      if name in visiting {
        return Cyclic;
      }
      visiting := visiting + {name};
      ghost var inside := Value();
      var names := sources.files[name];
      for i := 0 to |names|
        invariant visiting == old(visiting) + {name}
        invariant InsertImports(sources, names, inside) == InsertImports(sources, names[i..], Value())
      {
        if names[i] in sources.files {
          outcome := AddDescriptor(names[i]);
        } else {
          outcome := AddDefault(names[i]);
        }
        if outcome != Done {
          return;
        }
        assert names[i..][1..] == names[i + 1..];
      }
      if !PoolAccepts(sources, name, pool) {
        return Invalid(name);
      }
      pool := pool + [name];
      visiting := visiting - {name};
      added := added + {name};
      return Done;
    }

    method AddDefault(name: string) returns (outcome: Outcome)
      requires sources.BundleLoads()
      modifies this
      ensures Step(outcome, Value()) == InsertBundled(sources, name, old(Value()))
      decreases if name in sources.rank then sources.rank[name] else 0
    {
      if name in added {
        return Done;
      }
      if name !in sources.bundled {
        return Missing(name);
      }
      var names := sources.bundled[name];
      for i := 0 to |names|
        invariant visiting == old(visiting)
        invariant InsertBundledImports(sources, name, names, old(Value()))
               == InsertBundledImports(sources, name, names[i..], Value())
      {
        outcome := AddDefault(names[i]);
        if outcome != Done {
          return;
        }
        assert names[i..][1..] == names[i + 1..];
      }
      pool := pool + [name];
      added := added + {name};
      return Done;
    }
  }
}
