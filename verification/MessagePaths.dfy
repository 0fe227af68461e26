/** Nested Protobuf messages, named by their dotted path or by the indexes along it. */
module MessagePaths {
  import opened Options
  import Framing
  import Wire

  datatype Message = Message(name: string, nested: seq<Message>)

  datatype ProtoFile = ProtoFile(name: string, package: string, messages: seq<Message>)

  /** A message descriptor: its full name and the file that declares it. */
  datatype Descriptor = Descriptor(fullName: string, fileName: string, filePackage: string)

  datatype Resolved<+T> = Found(value: T) | OutOfRange | NoIndexes | OtherFile | UnknownName

  /** Sibling names are distinct, not empty and free of dots, at every depth. */
  ghost predicate WellNamed(messages: seq<Message>) {
    && (forall i, j :: 0 <= i < j < |messages| ==> messages[i].name != messages[j].name)
    && forall m :: m in messages ==> m.name != "" && '.' !in m.name && WellNamed(m.nested)
  }

  // ---- dotted names

  function Join(parts: seq<string>): string {
    if parts == [] then ""
    else if |parts| == 1 then parts[0]
    else parts[0] + "." + Join(parts[1..])
  }

  function NonEmpty(parts: seq<string>): seq<string> {
    if parts == [] then []
    else if parts[0] == "" then NonEmpty(parts[1..])
    else [parts[0]] + NonEmpty(parts[1..])
  }

  function SplitDots(s: string): (parts: seq<string>)
    ensures parts != []
  {
    if s == "" then [""]
    else
      var rest := SplitDots(s[1..]);
      if s[0] == '.' then [""] + rest else [[s[0]] + rest[0]] + rest[1..]
  }

  function RemovePrefix(s: string, prefix: string): string {
    if prefix <= s then s[|prefix|..] else s
  }

  lemma {:induction false} SplitPlain(s: string)
    requires '.' !in s
    ensures SplitDots(s) == [s]
  {
    if s != "" {
      assert [s[0]] + s[1..] == s;
      SplitPlain(s[1..]);
    }
  }

  lemma {:induction false} SplitAtFirstDot(first: string, rest: string)
    requires '.' !in first
    ensures SplitDots(first + "." + rest) == [first] + SplitDots(rest)
  {
    var s := first + "." + rest;
    if first == "" {
      assert s == "." + rest && s[1..] == rest;
    } else {
      SplitAtFirstDot(first[1..], rest);
      assert s[1..] == first[1..] + "." + rest;
      assert [first[0]] + first[1..] == first;
    }
  }

  lemma {:induction false} SplitJoined(parts: seq<string>)
    requires parts != [] && forall p :: p in parts ==> '.' !in p
    ensures SplitDots(Join(parts)) == parts
  {
    if |parts| == 1 {
      SplitPlain(parts[0]);
    } else {
      SplitJoined(parts[1..]);
      SplitAtFirstDot(parts[0], Join(parts[1..]));
    }
  }

  lemma {:induction false} JoinSplit(s: string)
    ensures Join(SplitDots(s)) == s
  {
    if s != "" {
      var rest := SplitDots(s[1..]);
      JoinSplit(s[1..]);
      if s[0] == '.' {
        assert ([""] + rest)[1..] == rest;
      } else {
        assert ([[s[0]] + rest[0]] + rest[1..])[1..] == rest[1..];
      }
    }
  }

  lemma {:induction false} NonEmptyAll(parts: seq<string>)
    requires forall p :: p in parts ==> p != ""
    ensures NonEmpty(parts) == parts
  {
    if parts != [] {
      assert parts[0] in parts && forall p :: p in parts[1..] ==> p in parts;
      assert [parts[0]] + parts[1..] == parts;
      NonEmptyAll(parts[1..]);
    }
  }

  // ---- from indexes to a name

  function PathNames(messages: seq<Message>, indexes: seq<nat>): Option<seq<string>>
    decreases |indexes|
  {
    if indexes == [] then Some([])
    else if indexes[0] >= |messages| then None
    else
      Prepend([messages[indexes[0]].name], PathNames(messages[indexes[0]].nested, indexes[1..]))
  }

  function MessageName(file: ProtoFile, indexes: seq<nat>): Resolved<string> {
    match PathNames(file.messages, indexes)
    case None => OutOfRange
    case Some(names) => if indexes == [] then NoIndexes else Found(Join(NonEmpty([file.package] + names)))
  }

  method ResolveName(file: ProtoFile, indexes: seq<nat>) returns (r: Resolved<string>)
    ensures r == MessageName(file, indexes)
  {
    var messages := file.messages;
    var path: seq<string> := [];
    var depth := 0;
    assert indexes[0..] == indexes;
    PrependJoins([], [], PathNames(file.messages, indexes));
    while depth < |indexes|
      invariant depth <= |indexes|
      invariant PathNames(file.messages, indexes) ==
                Prepend(path, PathNames(messages, indexes[depth..]))
    {
      assert indexes[depth..][1..] == indexes[depth + 1..];
      if indexes[depth] >= |messages| {
        return OutOfRange;
      }
      var message := messages[indexes[depth]];
      ghost var rest := PathNames(message.nested, indexes[depth + 1..]);
      if rest.Some? {
        assert path + ([message.name] + rest.value) == path + [message.name] + rest.value;
      }
      path := path + [message.name];
      messages := message.nested;
      depth := depth + 1;
    }
    assert path + [] == path;
    if indexes == [] {
      return NoIndexes;
    }
    return Found(Join(NonEmpty([file.package] + path)));
  }

  // ---- from a name to indexes

  function IndexOf(messages: seq<Message>, name: string): (r: Option<nat>)
    ensures r.Some? ==> r.value < |messages| && messages[r.value].name == name
  {
    if messages == [] then None
    else if messages[0].name == name then Some(0)
    else
      match IndexOf(messages[1..], name)
      case Some(i) => Some(i + 1)
      case None => None
  }

  function IndexPath(messages: seq<Message>, names: seq<string>): Option<seq<nat>>
    decreases |names|
  {
    if names == [] then Some([])
    else
      match IndexOf(messages, names[0])
      case None => None
      case Some(i) => Prepend([i], IndexPath(messages[i].nested, names[1..]))
  }

  function Relative(package: string, fullName: string): string {
    if package == "" then fullName else RemovePrefix(fullName, package + ".")
  }

  function MessageIndexes(root: ProtoFile, d: Descriptor): Resolved<seq<nat>> {
    if d.filePackage != root.package || d.fileName != root.name then OtherFile
    else
      match IndexPath(root.messages, SplitDots(Relative(root.package, d.fullName)))
      case Some(indexes) => Found(indexes)
      case None => UnknownName
  }

  method FindIndexes(root: ProtoFile, d: Descriptor) returns (r: Resolved<seq<nat>>)
    ensures r == MessageIndexes(root, d)
  {
    if d.filePackage != root.package || d.fileName != root.name {
      return OtherFile;
    }
    var names := SplitDots(Relative(root.package, d.fullName));
    var messages := root.messages;
    var indexes: seq<nat> := [];
    assert names[0..] == names;
    PrependJoins([], [], IndexPath(messages, names));
    for depth := 0 to |names|
      invariant IndexPath(root.messages, names) ==
                Prepend(indexes, IndexPath(messages, names[depth..]))
    {
      assert names[depth..][1..] == names[depth + 1..];
      var index := IndexOf(messages, names[depth]);
      if index.None? {
        return UnknownName;
      }
      ghost var rest := IndexPath(messages[index.value].nested, names[depth + 1..]);
      if rest.Some? {
        assert indexes + ([index.value] + rest.value) == indexes + [index.value] + rest.value;
      }
      indexes := indexes + [index.value];
      messages := messages[index.value].nested;
    }
    assert indexes + [] == indexes;
    return Found(indexes);
  }

  // ---- there and back

  lemma {:induction false} IndexOfNamed(messages: seq<Message>, i: nat)
    requires i < |messages|
    requires forall j, k :: 0 <= j < k < |messages| ==> messages[j].name != messages[k].name
    ensures IndexOf(messages, messages[i].name) == Some(i)
  {
    if i > 0 {
      assert messages[0].name != messages[i].name;
      IndexOfNamed(messages[1..], i - 1);
    }
  }

  lemma {:induction false} IndexesOfNames(messages: seq<Message>, indexes: seq<nat>)
    requires WellNamed(messages) && PathNames(messages, indexes).Some?
    ensures var names := PathNames(messages, indexes).value;
            && |names| == |indexes|
            && (forall n :: n in names ==> n != "" && '.' !in n)
            && IndexPath(messages, names) == Some(indexes)
    decreases |indexes|
  {
    if indexes != [] {
      var m := messages[indexes[0]];
      assert m in messages;
      IndexOfNamed(messages, indexes[0]);
      IndexesOfNames(m.nested, indexes[1..]);
      assert [indexes[0]] + indexes[1..] == indexes;
      assert ([m.name] + PathNames(m.nested, indexes[1..]).value)[1..] == PathNames(m.nested, indexes[1..]).value;
    }
  }

  lemma {:induction false} NamesOfIndexes(messages: seq<Message>, names: seq<string>)
    requires WellNamed(messages) && IndexPath(messages, names).Some?
    ensures PathNames(messages, IndexPath(messages, names).value) == Some(names)
    ensures forall n :: n in names ==> n != ""
    ensures |IndexPath(messages, names).value| == |names|
    decreases |names|
  {
    if names != [] {
      var i := IndexOf(messages, names[0]).value;
      assert messages[i] in messages;
      NamesOfIndexes(messages[i].nested, names[1..]);
      var rest := IndexPath(messages[i].nested, names[1..]).value;
      assert [names[0]] + names[1..] == names;
      assert ([i] + rest)[1..] == rest;
    }
  }

  lemma FullNameOfPath(package: string, names: seq<string>)
    requires names != [] && forall n :: n in names ==> n != ""
    ensures Join(NonEmpty([package] + names)) == if package == "" then Join(names) else package + "." + Join(names)
    ensures Relative(package, Join(NonEmpty([package] + names))) == Join(names)
  {
    NonEmptyAll(names);
    assert ([package] + names)[1..] == names;
    if package != "" {
      NonEmptyAll([package] + names);
    }
  }

  /** The message that indexes lead to is found again at exactly those indexes. */
  lemma NameThenIndexes(root: ProtoFile, indexes: seq<nat>)
    requires WellNamed(root.messages) && MessageName(root, indexes).Found?
    ensures MessageIndexes(root, Descriptor(MessageName(root, indexes).value, root.name, root.package))
         == Found(indexes)
  {
    var names := PathNames(root.messages, indexes).value;
    IndexesOfNames(root.messages, indexes);
    FullNameOfPath(root.package, names);
    SplitJoined(names);
  }

  /** The indexes found for a message of the file lead back to its full name. */
  lemma IndexesThenName(root: ProtoFile, d: Descriptor)
    requires WellNamed(root.messages) && MessageIndexes(root, d).Found?
    requires root.package != "" ==> root.package + "." <= d.fullName
    ensures MessageName(root, MessageIndexes(root, d).value) == Found(d.fullName)
  {
    var relative := Relative(root.package, d.fullName);
    NamesOfIndexes(root.messages, SplitDots(relative));
    FullNameOfPath(root.package, SplitDots(relative));
    JoinSplit(relative);
    if root.package != "" {
      assert d.fullName == root.package + "." + relative;
    }
  }

  // ---- from a framed record to the message of the pool

  /** A message by its full name, or by its name within the root's package. */
  function FindMessage(pool: set<string>, package: string, name: string): Option<string> {
    if name in pool then Some(name)
    else
      var qualified := Join(NonEmpty([package, name]));
      if qualified in pool then Some(qualified) else None
  }

  /** What the consumer decodes a record with: its schema ID, its message and its payload. */
  datatype Decoding = Decoding(id: nat, message: string, payload: Framing.Bytes)

  function ConfluentDecoding(data: Framing.Bytes, root: ProtoFile, pool: set<string>): Option<Decoding> {
    match Framing.ConfluentSplit(data)
    case Refused(_) => None
    case Split(record) =>
      match MessageName(root, record.indexes)
      case Found(name) =>
        (match FindMessage(pool, root.package, name)
         case Some(message) => Some(Decoding(record.id, message, record.payload))
         case None => None)
      case _ => None
  }

  /** The pool holds every message the root file declares. */
  ghost predicate HoldsMessages(pool: set<string>, root: ProtoFile) {
    forall indexes :: MessageName(root, indexes).Found? ==> MessageName(root, indexes).value in pool
  }

  /** End to end: the consumer of a framed record finds the message the producer encoded, its
      schema ID and its payload. */
  lemma ConfluentEndToEnd(root: ProtoFile, pool: set<string>, d: Descriptor, id: nat, payload: Framing.Bytes)
    requires WellNamed(root.messages) && MessageIndexes(root, d).Found? && HoldsMessages(pool, root)
    requires root.package != "" ==> root.package + "." <= d.fullName
    requires id < 0x1_0000_0000 && |MessageIndexes(root, d).value| <= 100000
    requires forall i :: i in MessageIndexes(root, d).value ==> i < Wire.TWO_63
    ensures var data := Framing.Header(id) + (Framing.MessageIndexes(MessageIndexes(root, d).value) + payload);
            ConfluentDecoding(data, root, pool) == Some(Decoding(id, d.fullName, payload))
  {
    var indexes := MessageIndexes(root, d).value;
    IndexesThenName(root, d);
    NamesOfIndexes(root.messages, SplitDots(Relative(root.package, d.fullName)));
    assert forall i :: 0 <= i < |indexes| ==> indexes[i] in indexes;
    Framing.ConfluentRoundTrip(id, indexes, payload);
  }

  /** The message named by `names` in a file of package `filePackage`. */
  function Qualified(filePackage: string, names: seq<string>): string {
    Join(NonEmpty([filePackage] + names))
  }

  lemma QualifiedNames(package: string, names: seq<string>)
    requires names != [] && forall n :: n in names ==> n != "" && '.' !in n
    ensures Join(names) != ""
    ensures Qualified(package, names) == if package == "" then Join(names) else package + "." + Join(names)
    ensures Relative(package, Qualified(package, names)) == Join(names)
    ensures Join(NonEmpty([package, Join(names)])) == Qualified(package, names)
  {
    SplitJoined(names);
    SplitPlain("");
    assert "" !in names;
    FullNameOfPath(package, names);
    FullNameOfPath(package, [Join(names)]);
    assert [package] + [Join(names)] == [package, Join(names)];
  }

  /** The name relative to its own package, as Apicurio type references carry it, finds the
      message again exactly when there is no package, or it is the root's package and no other
      message of the pool has the relative name as its full name. */
  lemma RelativeNameFinds(pool: set<string>, package: string, filePackage: string, names: seq<string>)
    requires names != [] && forall n :: n in names ==> n != "" && '.' !in n
    requires Qualified(filePackage, names) in pool
    ensures var full := Qualified(filePackage, names);
            FindMessage(pool, package, Relative(filePackage, full)) == Some(full)
            <==> filePackage == "" || (filePackage == package && Join(names) !in pool)
  {
    QualifiedNames(filePackage, names);
    QualifiedNames(package, names);
    var name := Join(names);
    if filePackage != "" && package + "." + name == filePackage + "." + name {
      assert (package + "." + name)[..|package|] == package;
      assert (filePackage + "." + name)[..|filePackage|] == filePackage;
    }
  }

  /** A message without a package hides one with the same name in the root's package. */
  lemma RelativeNameIsShadowed()
    ensures FindMessage({"Order", "shop.Order"}, "shop", Relative("shop", "shop.Order")) == Some("Order")
  {
    assert "shop.Order"[5..] == "Order";
  }

  /** `decode` is UTF-8 decoding, which may fail; a record without a type reference holds the
      first message of the schema. */
  function ApicurioDecoding(data: Framing.Bytes, decode: Framing.Bytes -> Option<string>, pool: set<string>,
                            package: string, first: string): Option<Decoding> {
    match Framing.ApicurioSplit(data, b => decode(b).Some?)
    case Refused(_) => None
    case Split(record) =>
      match record.name
      case None => Some(Decoding(record.id, first, record.payload))
      case Some(encoded) =>
        match decode(encoded)
        case None => None
        case Some(name) =>
          match FindMessage(pool, package, name)
          case Some(message) => Some(Decoding(record.id, message, record.payload))
          case None => None
  }

  /** A record that starts with no type reference holds the schema's first message, whole. */
  lemma WithoutTypeRef(id: nat, payload: Framing.Bytes, decode: Framing.Bytes -> Option<string>, pool: set<string>,
                       package: string, first: string)
    requires id < 0x1_0000_0000 && payload != []
    requires Framing.ParseTypeRef(payload, b => decode(b).Some?).0 == None
    ensures ApicurioDecoding(Framing.Header(id) + payload, decode, pool, package, first)
         == Some(Decoding(id, first, payload))
  {
    Framing.HeaderRoundTrip(id, payload);
    var size, reference, tag, length, more := Framing.TypeRefExact(payload, b => decode(b).Some?);
  }

  /** End to end: the consumer of a framed record finds the message the producer encoded, its
      schema ID and its payload, exactly when the relative name finds it. */
  lemma ApicurioEndToEnd(pool: set<string>, package: string, filePackage: string, names: seq<string>, first: string,
                         id: nat, payload: Framing.Bytes, encoded: Framing.Bytes,
                         decode: Framing.Bytes -> Option<string>)
    requires names != [] && forall n :: n in names ==> n != "" && '.' !in n
    requires Qualified(filePackage, names) in pool
    requires id < 0x1_0000_0000 && |encoded| < Wire.TWO_63
    requires decode(encoded) == Some(Relative(filePackage, Qualified(filePackage, names)))
    ensures var data := Framing.Header(id) + (Framing.TypeRef(encoded) + payload);
            ApicurioDecoding(data, decode, pool, package, first)
              == Some(Decoding(id, Qualified(filePackage, names), payload))
            <==> filePackage == "" || (filePackage == package && Join(names) !in pool)
  {
    Framing.ApicurioRoundTrip(id, encoded, payload, b => decode(b).Some?);
    RelativeNameFinds(pool, package, filePackage, names);
  }
}
