/** Loading a JSON Schema file and the relative files it references into one document tree. */
module JsonDocuments {
  import opened Graphs
  import opened SchemaDocuments

  /** A file's text and the distinct relative files it references, in order. */
  datatype File = File(text: string, references: seq<string>)

  /** The readable files by URI, the root under "", and the URIs that leave the directory. */
  datatype Directory = Directory(files: map<string, File>, outside: set<string>, rootIsSchema: bool)
  {
    ghost function References(): Graph<string> {
      map uri | uri in files :: files[uri].references
    }
  }

  datatype Problem = Cyclic(name: string) | Unreadable(name: string) | Outside(name: string) | InvalidRoot

  datatype Result<T> = Ok(value: T) | Error(problem: Problem)

  /** The documents finished so far and the files read so far, in order. */
  datatype State = State(loaded: map<string, SchemaDocument>, fetched: seq<string>)

  const ROOT := ""

  function Load(d: Directory, uri: string, visiting: seq<string>, st: State): (Result<SchemaDocument>, State)
    requires uri !in visiting
    decreases d.files.Keys - Members(visiting), 1, 0
  {
    if uri !in d.files then (Error(Unreadable(uri)), st)
    else
      var start := st.(fetched := st.fetched + [uri]);
      var (references, after) := LoadReferences(d, uri, d.files[uri].references, visiting, start);
      if references.Error? then (Error(references.problem), after)
      else if uri == ROOT && !d.rootIsSchema then (Error(InvalidRoot), after)
      else (Ok(SchemaDocument(JSON, d.files[uri].text, references.value)), after)
  }

  function LoadReferences(d: Directory, uri: string, names: seq<string>, visiting: seq<string>, st: State)
    : (r: (Result<seq<DocumentReference>>, State))
    requires uri in d.files && uri !in visiting
    decreases d.files.Keys - Members(visiting), 0, |names|
  {
    if names == [] then (Ok([]), st)
    else
      var (first, after) := LoadReference(d, uri, names[0], visiting, st);
      if first.Error? then (Error(first.problem), after)
      else
        var (rest, end) := LoadReferences(d, uri, names[1..], visiting, after);
        if rest.Error? then (rest, end)
        else (Ok([DocumentReference(names[0], first.value)] + rest.value), end)
  }

  /** One reference of `uri`: a name on the path is a cycle, a finished one is reused. */
  function LoadReference(d: Directory, uri: string, name: string, visiting: seq<string>, st: State)
    : (Result<SchemaDocument>, State)
    requires uri in d.files && uri !in visiting
    decreases d.files.Keys - Members(visiting), 0, 0
  {
    if name in visiting || name == uri then (Error(Cyclic(name)), st)
    else if name in st.loaded then (Ok(st.loaded[name]), st)
    else if name in d.outside then (Error(Outside(name)), st)
    else
      assert Members(visiting + [uri]) == Members(visiting) + {uri};
      var (doc, after) := Load(d, name, visiting + [uri], st);
      if doc.Error? then (doc, after)
      else (doc, after.(loaded := after.loaded[name := doc.value]))
  }

  /** `doc` is the complete unfolding of the reference graph from `uri`. */
  ghost predicate Unfolds(d: Directory, uri: string, doc: SchemaDocument)
    decreases doc
  {
    && uri in d.files
    && doc.kind == JSON
    && doc.content == d.files[uri].text
    && |doc.references| == |d.files[uri].references|
    && forall i :: 0 <= i < |doc.references| ==>
         && doc.references[i].name == d.files[uri].references[i]
         && Unfolds(d, d.files[uri].references[i], doc.references[i].document)
  }

  lemma {:induction false} UnfoldingIsUnique(d: Directory, uri: string, a: SchemaDocument, b: SchemaDocument)
    requires Unfolds(d, uri, a) && Unfolds(d, uri, b)
    ensures a == b
    decreases a
  {
    forall i | 0 <= i < |a.references|
      ensures a.references[i] == b.references[i]
    {
      UnfoldingIsUnique(d, a.references[i].name, a.references[i].document, b.references[i].document);
    }
    assert a.references == b.references;
  }

  /** Whatever an unfolded file reaches is unfolded below it, deeper for every step taken. */
  lemma {:induction false} UnfoldingAlongWalk(d: Directory, p: seq<string>, doc: SchemaDocument)
      returns (sub: SchemaDocument)
    requires Walk(d.References(), p) && Unfolds(d, p[0], doc)
    ensures Unfolds(d, p[|p| - 1], sub)
    ensures Height(sub) + |p| - 1 <= Height(doc)
    decreases |p|
  {
    if |p| == 1 {
      return doc;
    }
    assert p[1] in Next(d.References(), p[0]);
    var i :| 0 <= i < |doc.references| && doc.references[i].name == p[1];
    assert Walk(d.References(), p[1..]) by {
      forall k | 0 < k < |p[1..]|
        ensures p[1..][k] in Next(d.References(), p[1..][k - 1])
      {
        assert p[k + 1] in Next(d.References(), p[k]);
      }
    }
    sub := UnfoldingAlongWalk(d, p[1..], doc.references[i].document);
  }

  /** A file has a finite unfolding only if it reaches no cycle. */
  lemma UnfoldingHasNoCycle(d: Directory, uri: string, doc: SchemaDocument)
    requires Unfolds(d, uri, doc)
    ensures !CycleFrom(d.References(), uri)
  {
    var g := d.References();
    if CycleFrom(g, uri) {
      var m :| Reaches(g, uri, m) && OnCycle(g, m);
      var p :| WalkBetween(g, uri, m, p);
      var atM := UnfoldingAlongWalk(d, p, doc);
      var n :| n in Next(g, m) && Reaches(g, n, m);
      var q :| WalkBetween(g, n, m, q);
      var around := [m] + q;
      assert Walk(g, around) by {
        forall k | 0 < k < |around|
          ensures around[k] in Next(g, around[k - 1])
        {
          if k > 1 {
            assert q[k - 1] in Next(g, q[k - 2]);
          }
        }
      }
      var again := UnfoldingAlongWalk(d, around, atM);
      UnfoldingIsUnique(d, m, atM, again);
    }
  }

  /** Between calls: finished documents are unfoldings whose references are finished too, and
      the files read are exactly the finished ones and those on the path, each read once. */
  ghost predicate Consistent(d: Directory, path: seq<string>, st: State) {
    && (forall k :: k in st.loaded ==> Unfolds(d, k, st.loaded[k]) && k !in path && k !in d.outside)
    && (forall k, m :: k in st.loaded && m in Next(d.References(), k) ==> m in st.loaded)
    && Distinct(st.fetched)
    && (forall x :: x in st.fetched <==> x in st.loaded || x in path)
  }

  ghost predicate Justified(d: Directory, uri: string, problem: Problem) {
    match problem
    case Cyclic(m) => Reaches(d.References(), uri, m) && OnCycle(d.References(), m)
    case Unreadable(m) => Reaches(d.References(), uri, m) && m !in d.files
    case Outside(m) => Reaches(d.References(), uri, m) && m in d.outside && m != ROOT
    case InvalidRoot => !d.rootIsSchema
  }

  ghost predicate Extends(d: Directory, uri: string, st: State, after: State) {
    && st.loaded.Keys <= after.loaded.Keys
    && forall m :: m in after.fetched && m !in st.fetched ==> Reaches(d.References(), uri, m)
  }

  lemma JustifiedFromReference(d: Directory, uri: string, name: string, problem: Problem)
    requires name in Next(d.References(), uri) && Justified(d, name, problem)
    ensures Justified(d, uri, problem)
  {
    var g := d.References();
    ReachesNext(g, uri, name);
    match problem {
      case Cyclic(m) => ReachesTransitive(g, uri, name, m);
      case Unreadable(m) => ReachesTransitive(g, uri, name, m);
      case Outside(m) => ReachesTransitive(g, uri, name, m);
      case InvalidRoot =>
    }
  }

  lemma {:induction false} LoadJustified(d: Directory, uri: string, visiting: seq<string>, st: State)
    requires uri !in visiting && uri !in st.loaded && Consistent(d, visiting, st)
    requires Walk(d.References(), visiting + [uri]) && (uri == ROOT <==> visiting == [])
    requires visiting != [] ==> visiting[0] == ROOT
    ensures var (r, after) := Load(d, uri, visiting, st);
            match r
            case Ok(doc) => Unfolds(d, uri, doc) && Consistent(d, visiting + [uri], after)
                            && Extends(d, uri, st, after)
                            && (uri == ROOT ==> d.rootIsSchema)
                            && (forall m :: m in Next(d.References(), uri) ==> m in after.loaded)
            case Error(problem) => Justified(d, uri, problem)
    decreases d.files.Keys - Members(visiting), 1, 0
  {
    hide Reaches, CycleFrom, Unfolds, Consistent;
    ReachesSelf(d.References(), uri);
    if uri in d.files {
      var start := st.(fetched := st.fetched + [uri]);
      StartedConsistent(d, uri, visiting, st, start);
      LoadReferencesJustified(d, uri, d.files[uri].references, visiting, start);
      var (references, _) := LoadReferences(d, uri, d.files[uri].references, visiting, start);
      if references.Ok? {
        AssembledUnfolds(d, uri, references.value);
      }
    }
  }

  lemma StartedConsistent(d: Directory, uri: string, visiting: seq<string>, st: State, start: State)
    requires uri !in visiting && uri !in st.loaded && Consistent(d, visiting, st)
    requires start == st.(fetched := st.fetched + [uri])
    ensures Consistent(d, visiting + [uri], start)
  {
  }

  lemma AssembledUnfolds(d: Directory, uri: string, references: seq<DocumentReference>)
    requires uri in d.files && |references| == |d.files[uri].references|
    requires forall i :: 0 <= i < |references| ==>
               references[i].name == d.files[uri].references[i]
               && Unfolds(d, d.files[uri].references[i], references[i].document)
    ensures Unfolds(d, uri, SchemaDocument(JSON, d.files[uri].text, references))
  {
  }

  lemma {:induction false} LoadReferencesJustified(
      d: Directory, uri: string, names: seq<string>, visiting: seq<string>, st: State)
    requires uri in d.files && uri !in visiting && Consistent(d, visiting + [uri], st)
    requires forall n :: n in names ==> n in d.files[uri].references
    requires Walk(d.References(), visiting + [uri]) && (visiting + [uri])[0] == ROOT
    ensures var (r, after) := LoadReferences(d, uri, names, visiting, st);
            match r
            case Ok(refs) =>
              && Consistent(d, visiting + [uri], after)
              && Extends(d, uri, st, after)
              && |refs| == |names|
              && (forall i :: 0 <= i < |refs| ==> refs[i].name == names[i] && Unfolds(d, names[i], refs[i].document))
              && (forall n :: n in names ==> n in after.loaded)
            case Error(problem) => Justified(d, uri, problem)
    decreases d.files.Keys - Members(visiting), 0, |names|
  {
    hide Unfolds, Consistent, LoadReference, Walk, Justified;
    if names != [] {
      LoadReferenceJustified(d, uri, names[0], visiting, st);
      var (first, after) := LoadReference(d, uri, names[0], visiting, st);
      if first.Ok? {
        LoadReferencesJustified(d, uri, names[1..], visiting, after);
      }
    }
  }

  lemma {:induction false} LoadReferenceJustified(
      d: Directory, uri: string, name: string, visiting: seq<string>, st: State)
    requires uri in d.files && uri !in visiting && Consistent(d, visiting + [uri], st)
    requires name in d.files[uri].references
    requires Walk(d.References(), visiting + [uri]) && (visiting + [uri])[0] == ROOT
    ensures var (r, after) := LoadReference(d, uri, name, visiting, st);
            match r
            case Ok(doc) => Consistent(d, visiting + [uri], after) && Extends(d, uri, st, after)
                            && Unfolds(d, name, doc) && name in after.loaded
            case Error(problem) => Justified(d, uri, problem)
    decreases d.files.Keys - Members(visiting), 0, 0
  {
    hide Load, Unfolds;
    var g, path := d.References(), visiting + [uri];
    ReachesNext(g, uri, name);
    assert Walk(g, path + [name]) by {
      assert forall k :: 0 < k < |path| ==> (path + [name])[k] == path[k] && path[k] in Next(g, path[k - 1]);
    }
    if name in path {
      WalkClosesCycle(g, path, name);
    } else if name !in st.loaded && name !in d.outside {
      assert Members(path) == Members(visiting) + {uri};
      LoadJustified(d, name, path, st);
      var (r, after) := Load(d, name, path, st);
      match r {
        case Ok(_) =>
          forall m | Reaches(g, name, m)
            ensures Reaches(g, uri, m)
          {
            ReachesTransitive(g, uri, name, m);
          }
        case Error(problem) => JustifiedFromReference(d, uri, name, problem);
      }
    }
  }

  function LoadRoot(d: Directory): (Result<SchemaDocument>, State) {
    Load(d, ROOT, [], State(map[], []))
  }

  /** Loading succeeds exactly when no cycle is reachable, every reachable file can be read and
      stays in the directory, and the root is a schema; the result is then the full unfolding
      and every reachable file is read exactly once. */
  lemma LoadExact(d: Directory)
    ensures var g := d.References();
            var (r, after) := LoadRoot(d);
            && (r.Ok? <==>
                  && !CycleFrom(g, ROOT)
                  && d.rootIsSchema
                  && forall m :: Reaches(g, ROOT, m) ==> m in d.files && (m != ROOT ==> m !in d.outside))
            && (r.Ok? ==>
                  && Unfolds(d, ROOT, r.value)
                  && Distinct(after.fetched)
                  && forall m :: m in after.fetched <==> Reaches(g, ROOT, m))
  {
    var g := d.References();
    var (r, after) := LoadRoot(d);
    LoadJustified(d, ROOT, [], State(map[], []));
    if r.Ok? {
      UnfoldingHasNoCycle(d, ROOT, r.value);
      forall m | Reaches(g, ROOT, m)
        ensures m in after.fetched && m in d.files && (m != ROOT ==> m !in d.outside)
      {
        ClosedHoldsReachable(g, after.loaded.Keys + {ROOT}, ROOT, m);
      }
    }
  }

  /** Among readable files that stay in the directory under a valid root, the cycle error is
      raised exactly when the root reaches a cycle. */
  lemma CyclicExact(d: Directory)
    requires d.rootIsSchema
    requires forall m :: Reaches(d.References(), ROOT, m) ==> m in d.files && (m != ROOT ==> m !in d.outside)
    ensures var (r, _) := LoadRoot(d);
            (r.Error? && r.problem.Cyclic?) <==> CycleFrom(d.References(), ROOT)
  {
    LoadExact(d);
    LoadJustified(d, ROOT, [], State(map[], []));
  }

  function Prepend(refs: seq<DocumentReference>, r: (Result<seq<DocumentReference>>, State))
    : (Result<seq<DocumentReference>>, State)
  {
    if r.0.Error? then r else (Ok(refs + r.0.value), r.1)
  }

  lemma PrependJoins(a: seq<DocumentReference>, b: seq<DocumentReference>, r: (Result<seq<DocumentReference>>, State))
    ensures Prepend(a, Prepend(b, r)) == Prepend(a + b, r)
    ensures Prepend([], r) == r
  {
    if r.0.Ok? {
      assert a + (b + r.0.value) == a + b + r.0.value;
      assert [] + r.0.value == r.0.value;
    }
  }

  /** The loader as the source runs it, filling one dictionary during the recursion. */
  class Loader {
    const directory: Directory
    var loaded: map<string, SchemaDocument>
    var fetched: seq<string>

    constructor (d: Directory)
      ensures directory == d && Value() == State(map[], [])
    {
      directory := d;
      loaded, fetched := map[], [];
    }

    ghost function Value(): State
      reads this
    {
      State(loaded, fetched)
    }

    method Document(uri: string, visiting: seq<string>) returns (r: Result<SchemaDocument>)
      requires uri !in visiting
      modifies this
      ensures (r, Value()) == Load(directory, uri, visiting, old(Value()))
      decreases directory.files.Keys - Members(visiting)
    {
      if uri !in directory.files {
        return Error(Unreadable(uri));
      }
      fetched := fetched + [uri];
      ghost var start := Value();
      var names := directory.files[uri].references;
      var references: seq<DocumentReference> := [];
      assert names[0..] == names;
      PrependJoins([], [], LoadReferences(directory, uri, names, visiting, start));
      for i := 0 to |names|
        invariant LoadReferences(directory, uri, names, visiting, start)
               == Prepend(references, LoadReferences(directory, uri, names[i..], visiting, Value()))
      {
        var name := names[i];
        assert names[i..][1..] == names[i + 1..];
        if name in visiting || name == uri {
          return Error(Cyclic(name));
        }
        if name !in loaded {
          if name in directory.outside {
            return Error(Outside(name));
          }
          assert Members(visiting + [uri]) == Members(visiting) + {uri};
          r := Document(name, visiting + [uri]);
          if r.Error? {
            return;
          }
          loaded := loaded[name := r.value];
        }
        ghost var rest := LoadReferences(directory, uri, names[i + 1..], visiting, Value());
        PrependJoins(references, [DocumentReference(name, loaded[name])], rest);
        references := references + [DocumentReference(name, loaded[name])];
      }
      assert references + [] == references;
      if uri == ROOT && !directory.rootIsSchema {
        return Error(InvalidRoot);
      }
      return Ok(SchemaDocument(JSON, directory.files[uri].text, references));
    }
  }
}
