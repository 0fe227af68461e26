/** When bundled files import names that were given explicitly: what is still built as the root
    means it, and which cycles go unreported. */
module PoolClashes {
  import opened Graphs
  import opened DescriptorPool

  /** The same names given, and the same bundle; the given files may import anything. */
  ghost predicate SameNames(s: Sources, t: Sources) {
    t.files.Keys == s.files.Keys && t.bundled == s.bundled && t.BundleLoads()
  }

  // ---- what is added together with a bundled file

  /** The bundled files that were not given; a given name ends the way. */
  ghost function BundleApart(s: Sources): Graph<string> {
    map n | n in s.bundled && n !in s.files :: s.bundled[n]
  }

  /** The pool holds the added names; a bundled file that was not given comes with its imports. */
  ghost predicate Tidy(s: Sources, st: State) {
    && (forall m :: m in st.added <==> m in st.pool)
    && forall m, d :: m in st.added && d in Next(BundleApart(s), m) ==> d in st.added
  }

  lemma {:induction false} BundledKeepsTidy(s: Sources, name: string, st: State)
    requires s.BundleLoads() && name in s.bundled && Tidy(s, st)
    ensures Tidy(s, InsertBundled(s, name, st).state)
    decreases if name in s.rank then s.rank[name] else 0, 1, 0
  {
    if name !in st.added {
      BundledImportsKeepTidy(s, name, s.bundled[name], st);
      BundledImportsAreAdded(s, name, s.bundled[name], st);
    }
  }

  lemma {:induction false} BundledImportsKeepTidy(s: Sources, parent: string, names: seq<string>, st: State)
    requires s.BundleLoads() && parent in s.bundled && forall d :: d in names ==> d in s.bundled[parent]
    requires Tidy(s, st)
    ensures Tidy(s, InsertBundledImports(s, parent, names, st).state)
    decreases if parent in s.rank then s.rank[parent] else 0, 0, |names|
  {
    if names != [] {
      BundledIsAdded(s, names[0], st);
      BundledKeepsTidy(s, names[0], st);
      BundledImportsKeepTidy(s, parent, names[1..], InsertBundled(s, names[0], st).state);
    }
  }

  /** Adding a bundled file depends on the bundle only. */
  lemma {:induction false} SameBundled(s: Sources, t: Sources, name: string, st: State)
    requires s.BundleLoads() && SameNames(s, t) && name in s.bundled
    ensures InsertBundled(s, name, st) == InsertBundled(t, name, st)
    decreases if name in s.rank then s.rank[name] else 0, 1, 0
  {
    if name !in st.added {
      SameBundledImports(s, t, name, s.bundled[name], st);
    }
  }

  lemma {:induction false} SameBundledImports(s: Sources, t: Sources, parent: string, names: seq<string>, st: State)
    requires s.BundleLoads() && SameNames(s, t)
    requires parent in s.bundled && forall d :: d in names ==> d in s.bundled[parent]
    ensures InsertBundledImports(s, parent, names, st) == InsertBundledImports(t, parent, names, st)
    decreases if parent in s.rank then s.rank[parent] else 0, 0, |names|
  {
    if names != [] {
      SameBundled(s, t, names[0], st);
      BundledIsAdded(s, names[0], st);
      SameBundledImports(s, t, parent, names[1..], InsertBundled(s, names[0], st).state);
    }
  }

  // ---- clashes that make every pool of the root fail

  /** The bundled file `n` leads to the root, so its bundled version is in the pool first. */
  ghost predicate LeadsToRoot(s: Sources, n: string, root: string) {
    Reaches(BundleApart(s), n, root)
  }

  /** The clashes within reach are all in bundled files that lead to the root. */
  ghost predicate OnlyRootClashes(s: Sources, root: string) {
    forall n, d :: s.Clash(n, d) && Reaches(s.Imports(), root, n) ==> LeadsToRoot(s, n, root)
  }

  lemma RootIsAdded(s: Sources, n: string, root: string, st: State)
    requires Tidy(s, st) && n in st.added && LeadsToRoot(s, n, root)
    ensures root in st.added
  {
    ClosedHoldsReachable(BundleApart(s), st.added, n, root);
  }

  /** Bundled files bring in no given name, or else the root's own. */
  lemma {:induction false} BundledStaysApart(s: Sources, root: string, name: string, st: State)
    requires s.BundleLoads() && OnlyRootClashes(s, root) && Tidy(s, st)
    requires name in s.bundled && name !in s.files && Reaches(s.Imports(), root, name)
    ensures var after := InsertBundled(s, name, st).state;
            root in after.added || forall m :: m in after.added && m !in st.added ==> m !in s.files
    decreases if name in s.rank then s.rank[name] else 0, 1, 0
  {
    var after := InsertBundled(s, name, st).state;
    BundledIsAdded(s, name, st);
    BundledKeepsTidy(s, name, st);
    if d :| s.Clash(name, d) {
      RootIsAdded(s, name, root, after);
    } else if name !in st.added {
      assert forall d :: d in s.bundled[name] ==> !s.Clash(name, d);
      BundledImportsStayApart(s, root, name, s.bundled[name], st);
    }
  }

  lemma {:induction false} BundledImportsStayApart(
      s: Sources, root: string, parent: string, names: seq<string>, st: State)
    requires s.BundleLoads() && OnlyRootClashes(s, root) && Tidy(s, st)
    requires parent in s.bundled && parent !in s.files && Reaches(s.Imports(), root, parent)
    requires forall d :: d in names ==> d in s.bundled[parent] && d !in s.files
    ensures var after := InsertBundledImports(s, parent, names, st).state;
            root in after.added || forall m :: m in after.added && m !in st.added ==> m !in s.files
    decreases if parent in s.rank then s.rank[parent] else 0, 0, |names|
  {
    if names != [] {
      var first := InsertBundled(s, names[0], st).state;
      ReachesStep(s.Imports(), root, parent, names[0]);
      BundledStaysApart(s, root, names[0], st);
      BundledIsAdded(s, names[0], st);
      BundledKeepsTidy(s, names[0], st);
      BundledImportsStayApart(s, root, parent, names[1..], first);
      BundledImportsAreAdded(s, parent, names[1..], first);
    }
  }

  /** Unless the root itself was added, a given file is added with its own imports. */
  ghost predicate GivenComplete(s: Sources, root: string, st: State) {
    root in st.added || forall m, d :: m in st.added && m in s.files && d in s.files[m] ==> d in st.added
  }

  ghost predicate Kept(s: Sources, root: string, st: State, r: Step) {
    r.outcome.Done? ==> Tidy(s, r.state) && GivenComplete(s, root, r.state) && st.added <= r.state.added
  }

  lemma {:induction false} FileKeeps(s: Sources, root: string, name: string, st: State)
    requires s.BundleLoads() && OnlyRootClashes(s, root) && Tidy(s, st) && GivenComplete(s, root, st)
    requires name in s.files && Reaches(s.Imports(), root, name)
    ensures Kept(s, root, st, InsertFile(s, name, st))
    ensures InsertFile(s, name, st).outcome.Done? ==> name in InsertFile(s, name, st).state.added
    decreases s.files.Keys - st.visiting, 0, 0
  {
    if name !in st.added && name !in st.visiting {
      ImportsKeep(s, root, name, s.files[name], st.(visiting := st.visiting + {name}));
    }
  }

  lemma {:induction false} ImportsKeep(s: Sources, root: string, parent: string, names: seq<string>, st: State)
    requires s.BundleLoads() && OnlyRootClashes(s, root) && Tidy(s, st) && GivenComplete(s, root, st)
    requires Reaches(s.Imports(), root, parent) && forall d :: d in names ==> d in Next(s.Imports(), parent)
    ensures Kept(s, root, st, InsertImports(s, names, st))
    ensures InsertImports(s, names, st).outcome.Done? ==>
              forall d :: d in names ==> d in InsertImports(s, names, st).state.added
    decreases s.files.Keys - st.visiting, 1, |names|
  {
    if names != [] {
      var n := names[0];
      var first := if n in s.files then InsertFile(s, n, st) else InsertBundled(s, n, st);
      ReachesStep(s.Imports(), root, parent, n);
      if n in s.files {
        FileKeeps(s, root, n, st);
      } else if n in s.bundled {
        BundledIsAdded(s, n, st);
        BundledKeepsTidy(s, n, st);
        BundledStaysApart(s, root, n, st);
      }
      if first.outcome.Done? {
        ImportsKeep(s, root, parent, names[1..], first.state);
      }
    }
  }

  /** All that the root's imports lead to has been added, among it the root if a clash was met. */
  lemma ClashAddsRoot(s: Sources, root: string, n: string, d: string, st: State)
    requires s.BundleLoads() && Tidy(s, st) && GivenComplete(s, root, st) && root in s.files
    requires forall m :: m in s.files[root] ==> m in st.added
    requires s.Clash(n, d) && Reaches(s.Imports(), root, n) && LeadsToRoot(s, n, root)
    ensures root in st.added
  {
    if root !in st.added {
      var g := s.Imports();
      forall m, x | m in st.added + {root} && x in Next(g, m)
        ensures x in st.added + {root}
      {
        assert m !in s.files ==> Next(g, m) == Next(BundleApart(s), m);
      }
      ClosedHoldsReachable(g, st.added + {root}, root, n);
      RootIsAdded(s, n, root, st);
    }
  }

  lemma BundleReaches(s: Sources, a: string, b: string)
    requires Reaches(BundleApart(s), a, b)
    ensures Reaches(s.Imports(), a, b)
  {
    var p :| WalkBetween(BundleApart(s), a, b, p);
    assert WalkBetween(s.Imports(), a, b, p);
  }

  /** A clash in a file that leads back to the root closes a cycle, and the pool is refused. */
  lemma RootClashFails(s: Sources, root: string, n: string, d: string)
    requires s.BundleLoads() && OnlyRootClashes(s, root) && root in s.files
    requires s.Clash(n, d) && Reaches(s.Imports(), root, n)
    ensures CycleFrom(s.Imports(), root) && !Build(s, root).outcome.Done?
  {
    BundleReaches(s, n, root);
    ReachesSelf(s.Imports(), root);
    ThereAndBack(s.Imports(), root, n);
    hide CycleFrom, Reaches;
    var inside := EMPTY.(visiting := EMPTY.visiting + {root});
    ImportsKeep(s, root, root, s.files[root], inside);
    var deps := InsertImports(s, s.files[root], inside);
    if deps.outcome.Done? {
      ClashAddsRoot(s, root, n, d, deps.state);
    }
  }

  /** A pool is built exactly as the root means it unless a bundled file within reach imports a given
      name without leading to the root; one that leads to the root only closes a cycle. */
  lemma BuildExact(s: Sources, root: string)
    requires s.BundleLoads() && OnlyRootClashes(s, root) && root in s.files
    ensures BuildsExactly(s, root)
  {
    if n, d :| s.Clash(n, d) && Reaches(s.Imports(), root, n) {
      RootClashFails(s, root, n, d);
    } else {
      BuildExactApart(s, root);
    }
  }

  /** Builds the pool for `root`; a refused root leaves no pool. */
  method DescriptorPoolFor(s: Sources, root: string) returns (outcome: Outcome, pool: seq<string>)
    requires s.BundleLoads() && root in s.files
    ensures ReportIsTrue(s, root, outcome)
    ensures OnlyRootClashes(s, root) ==>
              (outcome == Done <==> !CycleFrom(s.Imports(), root) && AllKnown(s, root) && AllValid(s, root))
    ensures OnlyRootClashes(s, root) && outcome == Done ==>
              Distinct(pool) && DependenciesFirst(s.Imports(), pool) &&
              forall m :: m in pool <==> Reaches(s.Imports(), root, m)
  {
    var builder := new PoolBuilder(s);
    outcome := builder.AddDescriptor(root);
    pool := builder.pool;
    InsertFileReports(s, root, EMPTY, []);
    if OnlyRootClashes(s, root) {
      BuildExact(s, root);
    }
  }

  // ---- clashes that break it

  /** The given names of `s` importing so that `d` is on a cycle, after the bundled `n` of the clash. */
  ghost function Hiding(s: Sources, root: string, n: string, d: string): Sources {
    s.(files := map f | f in s.files ::
         if f == root then (if d == root then [n] else [n, d]) else if f == d then [root] else [],
       valid := s.files.Keys)
  }

  lemma HidingIsKnown(s: Sources, root: string, n: string, d: string)
    requires s.BundleLoads() && s.Clash(n, d) && root in s.files
    ensures AllKnown(Hiding(s, root, n, d), root) && AllValid(Hiding(s, root, n, d), root)
  {
    var g := Hiding(s, root, n, d).Imports();
    forall m | Reaches(g, root, m)
      ensures m in g
    {
      hide Reaches;
      ClosedHoldsReachable(g, g.Keys, root, m);
    }
  }

  lemma HidingReachesCycle(s: Sources, root: string, n: string, d: string)
    requires s.BundleLoads() && s.Clash(n, d) && root in s.files
    ensures CycleFrom(Hiding(s, root, n, d).Imports(), root)
  {
    hide Reaches;
    var g := Hiding(s, root, n, d).Imports();
    var back := if d == root then n else d;
    assert back in Next(g, root) && root in Next(g, back);
    ReachesSelf(g, root);
    ReachesNext(g, back, root);
    assert OnCycle(g, root);
  }

  /** The bundled file brings in the bundled version of `d`, so the given one is skipped. */
  lemma HidingImports(s: Sources, root: string, n: string, d: string)
    requires s.BundleLoads() && s.Clash(n, d) && root in s.files
    ensures var t := Hiding(s, root, n, d);
            var inside := EMPTY.(visiting := {root});
            InsertBundled(t, n, inside).outcome.Done?
            && InsertImports(t, t.files[root], inside) == InsertBundled(t, n, inside)
  {
    var t := Hiding(s, root, n, d);
    var inside := EMPTY.(visiting := {root});
    BundledIsAdded(t, n, inside);
    var first := InsertBundled(t, n, inside);
    if d == root {
      assert [n][1..] == [];
    } else {
      assert [n, d][1..] == [d] && [d][1..] == [];
      assert InsertFile(t, d, first.state) == Step(Done, first.state);
      assert InsertImports(t, [d], first.state) == Step(Done, first.state);
    }
  }

  lemma HidingIsNotReported(s: Sources, root: string, n: string, d: string)
    requires s.BundleLoads() && s.Clash(n, d) && root in s.files
    ensures Build(Hiding(s, root, n, d), root).outcome != Cyclic
  {
    HidingImports(s, root, n, d);
    assert EMPTY.visiting + {root} == {root};
  }

  lemma ClashBreaksReport(s: Sources, root: string, n: string, d: string)
    requires s.BundleLoads() && s.Clash(n, d) && root in s.files
    ensures SameNames(s, Hiding(s, root, n, d))
    ensures !ReportsCycles(Hiding(s, root, n, d), root)
  {
    assert SameNames(s, Hiding(s, root, n, d));
    HidingIsKnown(s, root, n, d);
    HidingReachesCycle(s, root, n, d);
    HidingIsNotReported(s, root, n, d);
    hide AllKnown, AllValid, CycleFrom, Build;
  }

  lemma NoClashReports(s: Sources, t: Sources, root: string)
    requires s.NoClash() && SameNames(s, t) && root in t.files
    ensures ReportsCycles(t, root)
  {
    assert forall n, d :: t.Clash(n, d) ==> s.Clash(n, d);
    hide ReportsCycles, Sources.BundleLoads;
    CyclicExact(t, root);
  }

  /** Cycles are reported exactly, however the given files import each other, if and only if no
      bundled file imports a given name. */
  lemma NoClashExact(s: Sources, root: string)
    requires s.BundleLoads() && root in s.files
    ensures s.NoClash() <==> forall t: Sources :: SameNames(s, t) ==> ReportsCycles(t, root)
  {
    hide ReportsCycles, Hiding;
    if s.NoClash() {
      forall t: Sources | SameNames(s, t)
        ensures ReportsCycles(t, root)
      {
        NoClashReports(s, t, root);
      }
    } else {
      var n, d :| s.Clash(n, d);
      ClashBreaksReport(s, root, n, d);
    }
  }

  /** What the bundled file `n` brings in includes a file of the root's name. */
  ghost predicate BringsRoot(s: Sources, root: string, n: string)
    requires s.BundleLoads()
  {
    root in InsertBundled(s, n, EMPTY.(visiting := {root})).state.added
  }

  /** Without the root's name among it, the pool is built in spite of the cycle through `d`. */
  lemma HidingIsBuilt(s: Sources, root: string, n: string, d: string)
    requires s.BundleLoads() && s.Clash(n, d) && root in s.files && d != root && !BringsRoot(s, root, n)
    ensures SameNames(s, Hiding(s, root, n, d)) && !BuildsExactly(Hiding(s, root, n, d), root)
  {
    var t := Hiding(s, root, n, d);
    var inside := EMPTY.(visiting := {root});
    assert SameNames(s, t);
    HidingReachesCycle(s, root, n, d);
    hide CycleFrom, Reaches, AllKnown, AllValid, Sources.BundleLoads;
    HidingImports(s, root, n, d);
    SameBundled(s, t, n, inside);
    BundledIsAdded(t, n, inside);
    BundledKeepsTidy(t, n, inside);
    assert EMPTY.visiting + {root} == {root} && inside == EMPTY.(visiting := {root});
    RootAccepted(t, root, InsertBundled(t, n, inside).state);
  }

  /** With its imports added, and no file of its name, the root completes the pool. */
  lemma RootAccepted(t: Sources, root: string, st: State)
    requires t.BundleLoads() && root in t.files && root in t.valid && Tidy(t, st) && root !in st.added
    requires InsertImports(t, t.files[root], EMPTY.(visiting := {root})) == Step(Done, st)
    requires forall m :: m in t.files[root] ==> m in st.added
    ensures Build(t, root).outcome.Done?
  {
    assert EMPTY.visiting + {root} == {root};
    assert PoolAccepts(t, root, st.pool);
  }

  /** The given names of `s` with no imports, but for the root's import of the bundled `n`. */
  ghost function Bare(s: Sources, root: string, n: string): Sources {
    s.(files := map f | f in s.files :: if f == root then [n] else [], valid := s.files.Keys)
  }

  lemma BareIsKnown(s: Sources, root: string, n: string)
    requires s.BundleLoads() && n in s.bundled && n !in s.files && root in s.files
    ensures AllKnown(Bare(s, root, n), root) && AllValid(Bare(s, root, n), root)
  {
    var g := Bare(s, root, n).Imports();
    forall m | Reaches(g, root, m)
      ensures m in g
    {
      hide Reaches;
      ClosedHoldsReachable(g, g.Keys, root, m);
    }
  }

  lemma BundleRanks(s: Sources, n: string, d: string)
    requires s.BundleLoads() && n in s.bundled && d in s.bundled[n]
    ensures n in s.rank && d in s.rank && s.rank[d] < s.rank[n]
  {
  }

  lemma BareHasNoCycle(s: Sources, root: string, n: string, d: string)
    requires s.BundleLoads() && s.Clash(n, d) && root in s.files && !LeadsToRoot(s, n, root)
    ensures !CycleFrom(Bare(s, root, n).Imports(), root)
  {
    var g, b := Bare(s, root, n).Imports(), BundleApart(s);
    BundleRanks(s, n, d);
    ReachesSelf(b, n);
    hide Reaches, Sources.BundleLoads, CycleFrom;
    var rank := (map x | x in s.rank && Reaches(b, n, x) :: s.rank[x])[root := s.rank[n] + 1];
    forall x, y | x in rank && y in Next(g, x)
      ensures y in rank && rank[y] < rank[x]
    {
      if x != root {
        assert x in b && y in Next(b, x);
        BundleRanks(s, x, y);
        ReachesStep(b, n, x, y);
      }
    }
    RankedHasNoCycle(g, rank, root);
  }

  /** With the root's name among it, the pool is refused without a cycle. */
  lemma BareIsRefused(s: Sources, root: string, n: string, d: string)
    requires s.BundleLoads() && s.Clash(n, d) && root in s.files
    requires BringsRoot(s, root, n) && !LeadsToRoot(s, n, root)
    ensures SameNames(s, Bare(s, root, n)) && !BuildsExactly(Bare(s, root, n), root)
  {
    var t := Bare(s, root, n);
    var inside := EMPTY.(visiting := {root});
    assert SameNames(s, t);
    BareIsKnown(s, root, n);
    BareHasNoCycle(s, root, n, d);
    hide CycleFrom, Reaches, AllKnown, AllValid, Sources.BundleLoads;
    SameBundled(s, t, n, inside);
    BundledIsAdded(t, n, inside);
    BundledKeepsTidy(t, n, inside);
    assert EMPTY.visiting + {root} == {root} && [n][1..] == [];
    assert InsertImports(t, [n], inside) == InsertBundled(t, n, inside);
  }

  /** The pool is what the root means, however the given files import each other, if and only if
      every bundled file that imports a given name leads to the root. */
  lemma BuildAlwaysExact(s: Sources, root: string)
    requires s.BundleLoads() && root in s.files
    ensures (forall n, d :: s.Clash(n, d) ==> LeadsToRoot(s, n, root))
            <==> forall t: Sources :: SameNames(s, t) ==> BuildsExactly(t, root)
  {
    hide BuildsExactly, LeadsToRoot, Hiding, Bare, BringsRoot;
    if n, d :| s.Clash(n, d) && !LeadsToRoot(s, n, root) {
      var t := ClashBreaksPool(s, root, n, d);
    } else {
      forall t: Sources | SameNames(s, t)
        ensures BuildsExactly(t, root)
      {
        RootClashesBuild(s, t, root);
      }
    }
  }

  lemma ClashBreaksPool(s: Sources, root: string, n: string, d: string) returns (t: Sources)
    requires s.BundleLoads() && root in s.files && s.Clash(n, d) && !LeadsToRoot(s, n, root)
    ensures SameNames(s, t) && !BuildsExactly(t, root)
  {
    hide BuildsExactly, BringsRoot;
    assert d != root by {
      if d == root {
        ReachesNext(BundleApart(s), n, d);
      }
    }
    if BringsRoot(s, root, n) {
      t := Bare(s, root, n);
      BareIsRefused(s, root, n, d);
    } else {
      t := Hiding(s, root, n, d);
      HidingIsBuilt(s, root, n, d);
    }
  }

  lemma RootClashesBuild(s: Sources, t: Sources, root: string)
    requires SameNames(s, t) && root in s.files && forall n, d :: s.Clash(n, d) ==> LeadsToRoot(s, n, root)
    ensures BuildsExactly(t, root)
  {
    assert BundleApart(t) == BundleApart(s);
    assert forall n, d :: t.Clash(n, d) ==> s.Clash(n, d);
    hide BuildsExactly, BundleApart;
    BuildExact(t, root);
  }

  /** A file `a` that imports `x`, which is bundled, and `y`, which is given and imports `a`;
      the bundled `x` imports the bundled `y`. */
  const CLASHING := Sources(map["a" := ["x", "y"], "y" := ["a"]], map["x" := ["y"], "y" := []],
                            map["x" := 1, "y" := 0], {"a", "y"})

  lemma ClashingReachesCycle()
    ensures CLASHING.BundleLoads() && AllKnown(CLASHING, "a") && AllValid(CLASHING, "a")
    ensures CycleFrom(CLASHING.Imports(), "a")
  {
    var g := CLASHING.Imports();
    assert g["a"] == ["x", "y"] && g["y"] == ["a"] && g["x"] == ["y"];
    assert "y" in Next(g, "a") && "a" in Next(g, "y");
    ReachesSelf(g, "a");
    ReachesNext(g, "y", "a");
    assert OnCycle(g, "a");
    forall m | Reaches(g, "a", m)
      ensures m in {"a", "x", "y"}
    {
      ClosedHoldsReachable(g, {"a", "x", "y"}, "a", m);
    }
  }

  /** The bundled version of `y` goes in first, so the given one is skipped and the cycle through
      it goes unreported. */
  lemma ClashHidesCycle()
    ensures AllKnown(CLASHING, "a") && AllValid(CLASHING, "a") && CycleFrom(CLASHING.Imports(), "a")
    ensures CLASHING.BundleLoads() && Build(CLASHING, "a").outcome == Done
  {
    ClashingReachesCycle();
    hide AllKnown, AllValid, CycleFrom, Sources.BundleLoads;
    var s := CLASHING;
    var inside := State({}, {"a"}, []);
    var y := Step(Done, State({"y"}, {"a"}, ["y"]));
    var x := Step(Done, State({"y", "x"}, {"a"}, ["y", "x"]));
    assert InsertBundled(s, "y", inside) == y by {
      assert InsertBundledImports(s, "y", [], inside) == Step(Done, inside);
    }
    assert InsertBundledImports(s, "x", ["y"], inside) == y;
    assert InsertBundled(s, "x", inside) == x;
    assert InsertFile(s, "y", x.state) == x;
    assert InsertImports(s, ["y"], x.state) == x by {
      assert ["y"][1..] == [];
    }
    assert InsertImports(s, ["x", "y"], inside) == x by {
      assert ["x", "y"][1..] == ["y"];
    }
    assert EMPTY.(visiting := EMPTY.visiting + {"a"}) == inside;
    assert PoolAccepts(s, "a", x.state.pool);
  }
}
