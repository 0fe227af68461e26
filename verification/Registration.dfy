/** Registering a local schema and its references, once each, with a schema registry. */
module Registration {
  import opened Options
  import opened SchemaDocuments

  /** Where a schema is stored: an artifact of a group, or a subject (with one constant group). */
  datatype Slot = Slot(group: string, name: string)

  datatype Version = Version(id: int, number: int)

  /** A reference as sent: the name of the slot it is stored in and the version cited. */
  datatype Citation = Citation(name: string, version: int)

  /** The registry's answer; a missing version is looked up with a second request. */
  datatype Answer =
    | Refused
    | Answered(id: Option<int>, version: Option<int>, lookedUp: Option<int>)
  {
    /** The version the answer assigns, if it names both an ID and a version. */
    function Assigned(): Option<Version> {
      match this
      case Refused => None
      case Answered(id, version, lookedUp) =>
        var number := if version.Some? then version else lookedUp;
        if id.Some? && number.Some? then Some(Version(id.value, number.value)) else None
    }
  }

  datatype Sent = Sent(slot: Slot, document: SchemaDocument, citations: seq<Citation>, answer: Answer)
  {
    predicate Stores(slot: Slot, document: SchemaDocument) {
      this.slot == slot && this.document == document && answer.Assigned().Some?
    }
  }

  /** The registry assigned `version` to `document` in `slot`, in one of the requests of `log`. */
  ghost predicate Assigns(log: seq<Sent>, slot: Slot, document: SchemaDocument, version: int) {
    exists j :: 0 <= j < |log| && log[j].Stores(slot, document) && log[j].answer.Assigned().value.number == version
  }

  /** The citations name the first references, each with its assigned version. */
  ghost predicate CitesFirst(log: seq<Sent>, group: string, references: seq<DocumentReference>,
                             citations: seq<Citation>) {
    && |citations| <= |references|
    && forall k :: 0 <= k < |citations| ==>
         && citations[k].name == references[k].name
         && Assigns(log, Slot(group, citations[k].name), references[k].document, citations[k].version)
  }

  ghost predicate CitesEarlier(log: seq<Sent>, sent: Sent) {
    && |sent.citations| == |sent.document.references|
    && CitesFirst(log, sent.slot.group, sent.document.references, sent.citations)
  }

  /** No schema is sent again once the registry has stored it, and every request, accepted or
      not, cites the versions the registry had already assigned to exactly its references. */
  ghost predicate LogSound(log: seq<Sent>) {
    && (forall i, j :: 0 <= i < j < |log| && log[i].answer.Assigned().Some? ==>
          !(log[j].slot == log[i].slot && log[j].document == log[i].document))
    && (forall i :: 0 <= i < |log| ==> CitesEarlier(log[..i], log[i]))
  }

  /** `document` has `inner`, referenced as `name`, somewhere below it. */
  ghost predicate Contains(document: SchemaDocument, name: string, inner: SchemaDocument)
    decreases document
  {
    exists k :: 0 <= k < |document.references| &&
      (document.references[k] == DocumentReference(name, inner)
       || Contains(document.references[k].document, name, inner))
  }

  /** The answer names the ID and the version, or names no version and the second request finds it. */
  predicate Tells(answer: Answer, id: int, number: int) {
    && answer.Answered?
    && answer.id == Some(id)
    && (answer.version == Some(number) || (answer.version == None && answer.lookedUp == Some(number)))
  }

  lemma AssignedExact(answer: Answer, id: int, number: int)
    ensures answer.Assigned() == Some(Version(id, number)) <==> Tells(answer, id, number)
  {
  }

  /** Every citation, at any position of any request, carries the name of the reference there and
      the version that the answer to an earlier request for that reference tells. */
  lemma CitationsAreAnswers(log: seq<Sent>, i: nat, k: nat) returns (j: nat, id: int)
    requires LogSound(log) && i < |log| && k < |log[i].document.references|
    ensures |log[i].citations| == |log[i].document.references|
    ensures j < i && log[j].slot == Slot(log[i].slot.group, log[i].document.references[k].name)
    ensures log[j].document == log[i].document.references[k].document
    ensures log[i].citations[k].name == log[i].document.references[k].name
    ensures Tells(log[j].answer, id, log[i].citations[k].version)
  {
    var sent, before := log[i], log[..i];
    assert CitesEarlier(before, sent);
    var slot, document := Slot(sent.slot.group, sent.citations[k].name), sent.document.references[k].document;
    assert Assigns(before, slot, document, sent.citations[k].version);
    j :| 0 <= j < |before| && before[j].Stores(slot, document)
         && before[j].answer.Assigned().value.number == sent.citations[k].version;
    id := log[j].answer.Assigned().value.id;
    AssignedExact(log[j].answer, id, sent.citations[k].version);
  }

  /** Every document below a sent one was stored by an earlier request. */
  lemma {:induction false} EverythingBelowIsStoredFirst(log: seq<Sent>, i: nat, name: string, inner: SchemaDocument)
    requires LogSound(log) && i < |log| && Contains(log[i].document, name, inner)
    ensures exists j :: 0 <= j < i && log[j].Stores(Slot(log[i].slot.group, name), inner)
    decreases i
  {
    var document := log[i].document;
    var k :| 0 <= k < |document.references| &&
      (document.references[k] == DocumentReference(name, inner)
       || Contains(document.references[k].document, name, inner));
    assert CitesEarlier(log[..i], log[i]);
    var j :| 0 <= j < |log[..i]| &&
      log[..i][j].Stores(Slot(log[i].slot.group, document.references[k].name), document.references[k].document);
    assert log[..i][j] == log[j];
    if document.references[k] != DocumentReference(name, inner) {
      EverythingBelowIsStoredFirst(log, j, name, inner);
    }
  }

  /** A registered reference can be cited next, after the citations made before it. */
  lemma CitesOneMore(log: seq<Sent>, longer: seq<Sent>, group: string, references: seq<DocumentReference>,
                     citations: seq<Citation>, version: int)
    requires log <= longer && CitesFirst(log, group, references, citations) && |citations| < |references|
    requires Assigns(longer, Slot(group, references[|citations|].name), references[|citations|].document, version)
    ensures CitesFirst(longer, group, references, citations + [Citation(references[|citations|].name, version)])
  {
    forall k | 0 <= k < |citations|
      ensures Assigns(longer, Slot(group, citations[k].name), references[k].document, citations[k].version)
    {
      var slot, document := Slot(group, citations[k].name), references[k].document;
      var j :| 0 <= j < |log| && log[j].Stores(slot, document)
               && log[j].answer.Assigned().value.number == citations[k].version;
      assert longer[j] == log[j];
    }
  }

  lemma SoundAfterSending(log: seq<Sent>, sent: Sent)
    requires LogSound(log) && CitesEarlier(log, sent)
    requires forall i :: 0 <= i < |log| ==> !log[i].Stores(sent.slot, sent.document)
    ensures LogSound(log + [sent])
  {
    var after := log + [sent];
    forall i | 0 <= i < |after|
      ensures CitesEarlier(after[..i], after[i])
    {
      if i < |log| {
        assert after[..i] == log[..i] && CitesEarlier(log[..i], log[i]);
      } else {
        assert after[..i] == log;
      }
    }
  }

  /** The version last assigned to each stored schema. */
  function Memo(log: seq<Sent>): map<(Slot, SchemaDocument), Version> {
    if log == [] then map[]
    else
      var before, last := Memo(log[..|log| - 1]), log[|log| - 1];
      var version := last.answer.Assigned();
      if version.Some? then before[(last.slot, last.document) := version.value] else before
  }

  lemma {:induction false} MemoExact(log: seq<Sent>, slot: Slot, document: SchemaDocument)
    ensures (slot, document) in Memo(log) ==> Assigns(log, slot, document, Memo(log)[(slot, document)].number)
    ensures (slot, document) !in Memo(log) ==> forall i :: 0 <= i < |log| ==> !log[i].Stores(slot, document)
  {
    if log != [] {
      var before, last := log[..|log| - 1], log[|log| - 1];
      MemoExact(before, slot, document);
      if last.Stores(slot, document) {
      } else if (slot, document) in Memo(before) {
        var version := Memo(before)[(slot, document)].number;
        var j :| 0 <= j < |before| && before[j].Stores(slot, document)
                 && before[j].answer.Assigned().value.number == version;
        assert log[j] == before[j];
      } else {
        assert forall i :: 0 <= i < |before| ==> log[i] == before[i];
      }
    }
  }

  /** What is remembered for a schema is the ID and the version that an answer for it told. */
  lemma MemoIsAnswered(log: seq<Sent>, slot: Slot, document: SchemaDocument) returns (j: nat)
    requires (slot, document) in Memo(log)
    ensures j < |log| && log[j].slot == slot && log[j].document == document
    ensures Tells(log[j].answer, Memo(log)[(slot, document)].id, Memo(log)[(slot, document)].number)
    decreases |log|
  {
    var before, last := log[..|log| - 1], log[|log| - 1];
    if last.Stores(slot, document) {
      j := |log| - 1;
      AssignedExact(last.answer, Memo(log)[(slot, document)].id, Memo(log)[(slot, document)].number);
    } else {
      j := MemoIsAnswered(before, slot, document);
    }
  }

  /** Later requests never change a remembered version. */
  lemma {:induction false} MemoStays(log: seq<Sent>, longer: seq<Sent>, slot: Slot, document: SchemaDocument)
    requires LogSound(longer) && log <= longer && (slot, document) in Memo(log)
    ensures (slot, document) in Memo(longer) && Memo(longer)[(slot, document)] == Memo(log)[(slot, document)]
    decreases |longer|
  {
    if log != longer {
      var before, last := longer[..|longer| - 1], longer[|longer| - 1];
      assert LogSound(before) by {
        forall i | 0 <= i < |before|
          ensures CitesEarlier(before[..i], before[i])
        {
          assert before[..i] == longer[..i] && before[i] == longer[i];
        }
      }
      MemoStays(log, before, slot, document);
      MemoExact(log, slot, document);
      var j :| 0 <= j < |log| && log[j].Stores(slot, document);
      assert longer[j] == log[j];
    }
  }

  /** The requests after the first `sent` are for documents below `document` only. */
  ghost predicate SentBelow(log: seq<Sent>, sent: nat, group: string, document: SchemaDocument) {
    forall i :: sent <= i < |log| ==>
      log[i].slot.group == group && Contains(document, log[i].slot.name, log[i].document)
  }

  lemma {:induction false} ContainedIsLower(document: SchemaDocument, name: string, inner: SchemaDocument)
    requires Contains(document, name, inner)
    ensures Height(inner) < Height(document)
    decreases document
  {
    var k :| 0 <= k < |document.references| &&
      (document.references[k] == DocumentReference(name, inner)
       || Contains(document.references[k].document, name, inner));
    if document.references[k] != DocumentReference(name, inner) {
      ContainedIsLower(document.references[k].document, name, inner);
    }
  }

  /** Requests for documents below a schema do not store the schema itself. */
  lemma NotStoredBelow(log: seq<Sent>, sent: nat, slot: Slot, document: SchemaDocument)
    requires sent <= |log| && (slot, document) !in Memo(log[..sent])
    requires SentBelow(log, sent, slot.group, document)
    ensures (slot, document) !in Memo(log)
  {
    MemoExact(log[..sent], slot, document);
    MemoExact(log, slot, document);
    forall i | 0 <= i < |log|
      ensures !log[i].Stores(slot, document)
    {
      if i < sent {
        assert log[i] == log[..sent][i];
      } else {
        ContainedIsLower(document, log[i].slot.name, log[i].document);
      }
    }
  }

  /** What registering `document` in `slot` does to the log. A remembered schema sends nothing.
      Otherwise everything sent is below `document`, up to a last request that either stores
      `document` itself or is the one that failed. */
  ghost predicate Registers(before: seq<Sent>, after: seq<Sent>, slot: Slot, document: SchemaDocument,
                            version: Option<Version>) {
    && LogSound(after)
    && before <= after
    && (version.Some? ==> (slot, document) in Memo(after) && Memo(after)[(slot, document)] == version.value)
    && if (slot, document) in Memo(before) then
         after == before && version.Some?
       else
         && |before| < |after|
         && SentBelow(after[..|after| - 1], |before|, slot.group, document)
         && var last := after[|after| - 1];
            if version.Some? then last.Stores(slot, document)
            else
              && last.answer.Assigned().None?
              && ((last.slot == slot && last.document == document)
                  || (last.slot.group == slot.group && Contains(document, last.slot.name, last.document)))
  }

  lemma SentBelowThrough(
      start: seq<Sent>, before: seq<Sent>, after: seq<Sent>, slot: Slot, document: SchemaDocument, k: nat)
    requires start <= before <= after && SentBelow(before, |start|, slot.group, document)
    requires k < |document.references|
    requires var r := document.references[k];
             before < after ==>
               && SentBelow(after[..|after| - 1], |before|, slot.group, r.document)
               && var last := after[|after| - 1];
                  || (last.slot == Slot(slot.group, r.name) && last.document == r.document)
                  || (last.slot.group == slot.group && Contains(r.document, last.slot.name, last.document))
    ensures SentBelow(after, |start|, slot.group, document)
  {
    forall i | |start| <= i < |after|
      ensures after[i].slot.group == slot.group && Contains(document, after[i].slot.name, after[i].document)
    {
      if i < |before| {
        assert after[i] == before[i];
      } else {
        assert i < |after| - 1 ==> after[i] == after[..|after| - 1][i];
        ContainsThrough(document, k, after[i].slot.name, after[i].document);
      }
    }
  }

  lemma ContainsThrough(document: SchemaDocument, k: nat, name: string, inner: SchemaDocument)
    requires k < |document.references|
    requires var r := document.references[k];
             (r.name == name && r.document == inner) || Contains(r.document, name, inner)
    ensures Contains(document, name, inner)
  {
    var r := document.references[k];
    if r.name == name && r.document == inner {
      assert r == DocumentReference(name, inner);
    }
  }

  /** Registering one reference keeps everything sent since `start` below the document. */
  lemma ReferenceRegistered(start: seq<Sent>, before: seq<Sent>, after: seq<Sent>,
                            slot: Slot, document: SchemaDocument, k: nat, version: Option<Version>)
    requires start <= before && SentBelow(before, |start|, slot.group, document)
    requires (slot, document) !in Memo(start) && k < |document.references|
    requires var r := document.references[k]; Registers(before, after, Slot(slot.group, r.name), r.document, version)
    ensures start <= after && SentBelow(after, |start|, slot.group, document) && (slot, document) !in Memo(after)
    ensures version.Some? ==>
              var r := document.references[k];
              Assigns(after, Slot(slot.group, r.name), r.document, version.value.number)
    ensures version.None? ==> |start| < |after|
  {
    var r := document.references[k];
    SentBelowThrough(start, before, after, slot, document, k);
    assert after[..|start|] == start;
    NotStoredBelow(after, |start|, slot, document);
    MemoExact(after, Slot(slot.group, r.name), r.document);
  }

  /** One resolver, remembering the version of every schema it has registered. */
  class Resolver {
    var registered: map<(Slot, SchemaDocument), Version>
    ghost var log: seq<Sent>

    constructor ()
      ensures Valid() && log == []
    {
      registered, log := map[], [];
    }

    /** The memo is exactly what the requests so far have stored. */
    ghost predicate Valid()
      reads this
    {
      LogSound(log) && registered == Memo(log)
    }

    method Register(slot: Slot, document: SchemaDocument) returns (version: Option<Version>)
      requires Valid()
      modifies this
      ensures Valid() && Registers(old(log), log, slot, document, version)
      decreases document
    {
      hide LogSound, Contains, Memo;
      if (slot, document) in registered {
        return Some(registered[(slot, document)]);
      }
      var citations: seq<Citation> := [];
      for k := 0 to |document.references|
        invariant Valid() && old(log) <= log && |citations| == k
        invariant SentBelow(log, |old(log)|, slot.group, document)
        invariant CitesFirst(log, slot.group, document.references, citations)
        invariant (slot, document) !in registered
      {
        var reference := document.references[k];
        ghost var before := log;
        var cited := Register(Slot(slot.group, reference.name), reference.document);
        ReferenceRegistered(old(log), before, log, slot, document, k, cited);
        if cited.None? {
          return None;
        }
        CitesOneMore(before, log, slot.group, document.references, citations, cited.value.number);
        citations := citations + [Citation(reference.name, cited.value.number)];
      }
      ghost var before := log;
      version := Send(slot, document, citations);
      assert log[..|log| - 1] == before;
    }

    /** One request; a refused or incomplete answer is not remembered. */
    method Send(slot: Slot, document: SchemaDocument, citations: seq<Citation>) returns (version: Option<Version>)
      requires Valid() && (slot, document) !in registered
      requires |citations| == |document.references|
      requires CitesFirst(log, slot.group, document.references, citations)
      modifies this
      ensures Valid()
      ensures exists answer: Answer ::
                && log == old(log) + [Sent(slot, document, citations, answer)]
                && forall id, number :: version == Some(Version(id, number)) <==> Tells(answer, id, number)
      ensures version.Some? ==> registered == old(registered)[(slot, document) := version.value]
      ensures version.None? ==> registered == old(registered)
    {
      var answer: Answer := *;
      ghost var sent := Sent(slot, document, citations, answer);
      MemoExact(log, slot, document);
      SoundAfterSending(log, sent);
      assert (log + [sent])[..|log + [sent]| - 1] == log;
      log := log + [sent];
      version := answer.Assigned();
      forall id, number
        ensures version == Some(Version(id, number)) <==> Tells(answer, id, number)
      {
        AssignedExact(answer, id, number);
      }
      if version.Some? {
        registered := registered[(slot, document) := version.value];
      }
    }

    /** Any run of registrations: the log stays sound, and a pair that resolves twice resolves
        to the same version, whatever fails in between. */
    method RegisterAll(requests: seq<(Slot, SchemaDocument)>) returns (versions: seq<Option<Version>>)
      requires Valid()
      modifies this
      ensures Valid() && old(log) <= log
      ensures |versions| == |requests|
      ensures forall i :: 0 <= i < |requests| && versions[i].Some? ==>
                requests[i] in registered && registered[requests[i]] == versions[i].value
    {
      versions := [];
      for k := 0 to |requests|
        invariant Valid() && old(log) <= log && |versions| == k
        invariant forall i :: 0 <= i < k && versions[i].Some? ==>
          requests[i] in registered && registered[requests[i]] == versions[i].value
      {
        ghost var before := log;
        var version := Register(requests[k].0, requests[k].1);
        versions := versions + [version];
        forall i | 0 <= i < k && versions[i].Some?
          ensures requests[i] in registered && registered[requests[i]] == versions[i].value
        {
          MemoStays(before, log, requests[i].0, requests[i].1);
        }
      }
    }
  }
}
