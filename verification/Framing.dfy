/** Registry framing of a Protobuf record, written by the producer and split by the consumer. */
module Framing {
  import opened Options
  import opened Wire

  type Bytes = seq<Byte>

  datatype Split<+T> = Split(value: T) | Refused(reason: Reason)

  datatype Reason = TooShort | BadMagic | BadNumber | BadLength | NegativeIndex

  const MAX_MESSAGE_INDEXES: nat := 100000
  const NAME_TAG: Byte := 10
  const HEADER_SIZE: nat := 5

  // ---- Confluent message indexes

  function IndexBytes(values: seq<nat>): Bytes {
    if values == [] then []
    else
      ZigzagNatural(values[0]);
      Varint(Zigzag(values[0])) + IndexBytes(values[1..])
  }

  /** The length and the indexes; the first top-level message alone is written as one 0. */
  function MessageIndexes(indexes: seq<nat>): Bytes {
    if indexes == [0] then [0] else IndexBytes([|indexes|] + indexes)
  }

  function ReadIndex(data: Bytes, offset: nat): Wire.Result<(int, nat)> {
    match ReadVarint(data, offset)
    case Ok((z, end)) => Ok((Unzigzag(z), end))
    case UnexpectedEnd => UnexpectedEnd
    case TooLong => TooLong
  }

  /** Reads `count` indexes from `offset`; returns them and the offset after them. */
  function ReadIndexes(data: Bytes, offset: nat, count: nat): (r: Option<(seq<int>, nat)>)
    ensures r.Some? ==> |r.value.0| == count && (count > 0 || offset <= |data| ==> r.value.1 <= |data|)
    decreases count
  {
    if count == 0 then Some(([], offset))
    else
      var first := ReadIndex(data, offset);
      if !first.Ok? then None
      else
        DecodedBelow(data, offset, MAX_BYTES);
        Prepend([first.value.0], ReadIndexes(data, first.value.1, count - 1))
  }

  function Prepend(indexes: seq<int>, r: Option<(seq<int>, nat)>): Option<(seq<int>, nat)> {
    match r
    case Some((rest, end)) => Some((indexes + rest, end))
    case None => None
  }

  lemma PrependJoins(a: seq<int>, b: seq<int>, r: Option<(seq<int>, nat)>)
    ensures Prepend(a, Prepend(b, r)) == Prepend(a + b, r)
    ensures Prepend([], r) == r
  {
    if r.Some? {
      assert a + (b + r.value.0) == a + b + r.value.0;
      assert [] + r.value.0 == r.value.0;
    }
  }

  function Naturals(indexes: seq<int>): seq<nat>
    requires !exists i :: 0 <= i < |indexes| && indexes[i] < 0
  {
    seq(|indexes|, i requires 0 <= i < |indexes| => indexes[i])
  }

  function ParseMessageIndexes(data: Bytes): Split<(seq<nat>, Bytes)> {
    var size := ReadIndex(data, 0);
    DecodedBelow(data, 0, MAX_BYTES);
    if !size.Ok? then Refused(BadNumber)
    else if size.value.0 < 0 || size.value.0 > MAX_MESSAGE_INDEXES then Refused(BadLength)
    else if size.value.0 == 0 then Split(([0], data[size.value.1..]))
    else
      var all := ReadIndexes(data, size.value.1, size.value.0);
      if all.None? then Refused(BadNumber)
      else if exists i :: 0 <= i < |all.value.0| && all.value.0[i] < 0 then Refused(NegativeIndex)
      else Split((Naturals(all.value.0), data[all.value.1..]))
  }

  /** The parser as the source runs it, collecting indexes in a loop. */
  method ScanMessageIndexes(data: Bytes) returns (r: Split<(seq<nat>, Bytes)>)
    ensures r == ParseMessageIndexes(data)
  {
    hide Xor;
    var head := ScanVarint(data, 0);
    if !head.Ok? {
      return Refused(BadNumber);
    }
    DecodedBelow(data, 0, MAX_BYTES);
    var size, offset: nat := Unzigzag(head.value.0), head.value.1;
    if size < 0 || size > MAX_MESSAGE_INDEXES {
      return Refused(BadLength);
    }
    if size == 0 {
      return Split(([0], data[offset..]));
    }
    ghost var all := ReadIndexes(data, offset, size);
    var indexes: seq<int> := [];
    PrependJoins([], [], all);
    for i := 0 to size
      invariant |indexes| == i && offset <= |data|
      invariant all == Prepend(indexes, ReadIndexes(data, offset, size - i))
    {
      var next := ScanVarint(data, offset);
      if !next.Ok? {
        return Refused(BadNumber);
      }
      DecodedBelow(data, offset, MAX_BYTES);
      var index := Unzigzag(next.value.0);
      PrependJoins(indexes, [index], ReadIndexes(data, next.value.1, size - i - 1));
      indexes := indexes + [index];
      offset := next.value.1;
    }
    assert indexes + [] == indexes;
    if exists i :: 0 <= i < |indexes| && indexes[i] < 0 {
      return Refused(NegativeIndex);
    }
    return Split((Naturals(indexes), data[offset..]));
  }

  lemma ReadWrittenIndex(before: Bytes, v: int, after: Bytes)
    requires -TWO_63 <= v < TWO_63
    ensures Zigzag(v) >= 0
    ensures ReadIndex(before + Varint(Zigzag(v)) + after, |before|) == Ok((v, |before| + |Varint(Zigzag(v))|))
  {
    ZigzagSigned(v);
    VarintExact(before, Zigzag(v), after);
    ZigzagExact(v);
  }

  lemma Regroup(before: Bytes, first: Bytes, rest: Bytes, after: Bytes)
    ensures before + (first + rest) + after == before + first + rest + after == before + first + (rest + after)
  {
    assert before + (first + rest) + after == before + first + rest + after;
    assert before + first + rest + after == before + first + (rest + after);
  }

  lemma {:induction false} ReadWrittenIndexes(before: Bytes, values: seq<nat>, after: Bytes)
    requires forall i :: 0 <= i < |values| ==> values[i] < TWO_63
    ensures ReadIndexes(before + IndexBytes(values) + after, |before|, |values|)
         == Some((values, |before| + |IndexBytes(values)|))
    decreases |values|
  {
    hide Varint, Xor;
    if values != [] {
      ZigzagNatural(values[0]);
      var first, rest := Varint(Zigzag(values[0])), IndexBytes(values[1..]);
      ReadWrittenIndex(before, values[0], rest + after);
      ReadWrittenIndexes(before + first, values[1..], after);
      Regroup(before, first, rest, after);
      ReadIndexesStep(before + IndexBytes(values) + after, |before|, values,
                      |before + first|, |before + first| + |rest|);
    }
  }

  lemma ReadIndexesStep(data: Bytes, offset: nat, values: seq<nat>, middle: nat, end: nat)
    requires values != [] && ReadIndex(data, offset) == Ok((values[0], middle))
    requires ReadIndexes(data, middle, |values| - 1) == Some((values[1..], end))
    ensures ReadIndexes(data, offset, |values|) == Some((values, end))
  {
    assert [values[0]] + values[1..] == values;
  }

  lemma NonNegativeIndexes(indexes: seq<nat>, all: seq<int>)
    requires all == indexes
    ensures !exists i :: 0 <= i < |all| && all[i] < 0
    ensures Naturals(all) == indexes
  {
  }

  /** The consumer gets back the indexes and the payload, whatever the payload is. */
  lemma MessageIndexesRoundTrip(indexes: seq<nat>, payload: Bytes)
    requires 1 <= |indexes| <= 100000
    requires forall i :: 0 <= i < |indexes| ==> indexes[i] < TWO_63
    ensures ParseMessageIndexes(MessageIndexes(indexes) + payload) == Split((indexes, payload))
  {
    hide Varint, Xor;
    if indexes == [0] {
      FirstMessageRead(payload);
      assert ([0] + payload)[1..] == payload;
    } else {
      ZigzagNatural(|indexes|);
      var size, rest := Varint(Zigzag(|indexes|)), IndexBytes(indexes);
      SizeAndIndexes(indexes);
      Regroup([], size, rest, payload);
      assert [] + (size + rest) == size + rest && [] + size == size;
      ReadWrittenIndex([], |indexes|, rest + payload);
      ReadWrittenIndexes(size, indexes, payload);
      ParsedIndexes(size + rest, indexes, |size|, payload);
    }
  }

  lemma OneByte(v: Byte)
    requires v < 128
    ensures Varint(v) == [v]
  {
  }

  lemma FirstMessageRead(payload: Bytes)
    ensures ReadIndex([0] + payload, 0) == Ok((0, 1))
  {
    hide Varint, Xor;
    ZigzagOfNatural(0);
    OneByte(0);
    ReadWrittenIndex([], 0, payload);
    assert [] + Varint(0) + payload == [0] + payload;
  }

  lemma SizeAndIndexes(indexes: seq<nat>)
    ensures Zigzag(|indexes|) >= 0
    ensures IndexBytes([|indexes|] + indexes) == Varint(Zigzag(|indexes|)) + IndexBytes(indexes)
  {
    ZigzagNatural(|indexes|);
    assert ([|indexes|] + indexes)[1..] == indexes;
  }

  lemma ParsedIndexes(written: Bytes, indexes: seq<nat>, middle: nat, payload: Bytes)
    requires 1 <= |indexes| <= MAX_MESSAGE_INDEXES && ReadIndex(written + payload, 0) == Ok((|indexes|, middle))
    requires ReadIndexes(written + payload, middle, |indexes|) == Some((indexes, |written|))
    ensures ParseMessageIndexes(written + payload) == Split((indexes, payload))
  {
    NonNegativeIndexes(indexes, ReadIndexes(written + payload, middle, |indexes|).value.0);
    assert (written + payload)[|written|..] == payload;
  }

  /** The first message is written as one zero byte, any other path as its length and its indexes,
      each doubled. */
  lemma IndexesWritten(indexes: seq<nat>)
    requires |indexes| < TWO_63 && forall i :: 0 <= i < |indexes| ==> indexes[i] < TWO_63
    ensures MessageIndexes(indexes) == if indexes == [0] then [0] else Doubles([|indexes|] + indexes)
  {
    hide Doubles, IndexBytes, Varint, Xor;
    var values := [|indexes|] + indexes;
    forall i | 0 <= i < |values|
      ensures values[i] < TWO_63
    {
      assert i > 0 ==> values[i] == indexes[i - 1];
    }
    DoublesWritten(values);
  }

  function Doubles(values: seq<nat>): Bytes {
    if values == [] then [] else Varint(2 * values[0]) + Doubles(values[1..])
  }

  lemma {:induction false} DoublesWritten(values: seq<nat>)
    requires forall i :: 0 <= i < |values| ==> values[i] < TWO_63
    ensures IndexBytes(values) == Doubles(values)
  {
    if values != [] {
      hide Varint, Zigzag;
      ZigzagOfNatural(values[0]);
      DoublesWritten(values[1..]);
    }
  }

  /** A length below 0 or above 100000 is refused, whatever follows it. */
  lemma BadLengthRefused(length: int, rest: Bytes)
    requires -TWO_63 <= length < 0 || 100000 < length < TWO_63
    ensures Zigzag(length) >= 0
    ensures ParseMessageIndexes(Varint(Zigzag(length)) + rest) == Refused(BadLength)
  {
    ReadWrittenIndex([], length, rest);
    assert [] + Varint(Zigzag(length)) + rest == Varint(Zigzag(length)) + rest;
    hide Varint, Xor;
  }

  /** A negative index is refused, whatever follows it. */
  lemma NegativeIndexRefused(index: int, rest: Bytes)
    requires -TWO_63 <= index < 0
    ensures Zigzag(index) >= 0
    ensures ParseMessageIndexes([2] + (Varint(Zigzag(index)) + rest)) == Refused(NegativeIndex)
  {
    hide Varint, Xor;
    ZigzagSigned(index);
    ZigzagSigned(1);
    OneByte(2);
    var written := Varint(Zigzag(index));
    ReadWrittenIndex([], 1, written + rest);
    assert [] + [2] + (written + rest) == [2] + (written + rest);
    ReadWrittenIndex([2], index, rest);
    assert [2] + written + rest == [2] + (written + rest);
    var data := [2] + (written + rest);
    OneIndexRead(data, 1, index, 1 + |written|);
    assert [index][0] < 0;
  }

  lemma OneIndexRead(data: Bytes, offset: nat, index: int, end: nat)
    requires ReadIndex(data, offset) == Ok((index, end))
    ensures ReadIndexes(data, offset, 1) == Some(([index], end))
  {
    assert ReadIndexes(data, end, 0) == Some(([], end));
    assert [index] + [] == [index];
  }

  // ---- Apicurio type references

  function TypeRef(name: Bytes): Bytes {
    var reference := [NAME_TAG] + Varint(|name|) + name;
    Varint(|reference|) + reference
  }

  /** The name field of a type reference, whose bytes `utf8` must decode. */
  function NameIn(reference: Bytes, utf8: Bytes -> bool): Option<Bytes> {
    DecodedBelow(reference, 0, MAX_BYTES);
    match ReadVarint(reference, 0)
    case Ok((tag, position)) =>
      if tag != NAME_TAG then None
      else
        DecodedBelow(reference, position, MAX_BYTES);
        (match ReadVarint(reference, position)
         case Ok((length, start)) =>
           if start + length > |reference| || !utf8(reference[start..start + length]) then None
           else Some(reference[start..start + length])
         case _ => None)
    case _ => None
  }

  /** The encoded name and the rest, or no name and the whole payload when it does not start
      with a type reference. */
  function ParseTypeRef(payload: Bytes, utf8: Bytes -> bool): (Option<Bytes>, Bytes) {
    DecodedBelow(payload, 0, MAX_BYTES);
    match ReadVarint(payload, 0)
    case Ok((size, offset)) =>
      var end := offset + size;
      if size <= 0 || end > |payload| then (None, payload)
      else
        (match NameIn(payload[offset..end], utf8)
         case Some(name) => (Some(name), payload[end..])
         case None => (None, payload))
    case _ => (None, payload)
  }

  lemma NameRoundTrip(name: Bytes, utf8: Bytes -> bool)
    requires |name| < TWO_63 && utf8(name)
    ensures NameIn([NAME_TAG] + Varint(|name|) + name, utf8) == Some(name)
  {
    hide Varint, Xor;
    var length := Varint(|name|);
    var reference := [NAME_TAG] + length + name;
    OneByte(NAME_TAG);
    VarintExact([], NAME_TAG, length + name);
    assert [] + [NAME_TAG] + (length + name) == reference;
    VarintExact([NAME_TAG], |name|, name);
    assert |[] + [NAME_TAG]| == 1;
    assert reference[1 + |length|..1 + |length| + |name|] == name;
  }

  lemma TypeRefRoundTrip(name: Bytes, payload: Bytes, utf8: Bytes -> bool)
    requires |name| < TWO_63 && utf8(name)
    ensures ParseTypeRef(TypeRef(name) + payload, utf8) == (Some(name), payload)
  {
    var reference := [NAME_TAG] + Varint(|name|) + name;
    LengthBytes(|name|);
    NameRoundTrip(name, utf8);
    VarintExact([], |reference|, reference + payload);
    var size := Varint(|reference|);
    assert [] + size + (reference + payload) == size + reference + payload;
    assert (size + reference + payload)[|size|..|size| + |reference|] == reference;
    assert (size + reference + payload)[|size| + |reference|..] == payload;
  }

  lemma TypeRefWritten(name: Bytes)
    requires |name| < 126
    ensures TypeRef(name) == [|name| + 2, 10, |name|] + name
  {
    OneByte(|name|);
    OneByte(|name| + 2);
    hide Varint;
    assert [|name| + 2] + ([10] + [|name|] + name) == [|name| + 2, 10, |name|] + name;
  }

  /** A varint found in some bytes, with what comes before and after it. */
  lemma ReadSplits(data: Bytes, offset: nat)
    requires ReadVarint(data, offset).Ok?
    ensures var (v, end) := ReadVarint(data, offset).value;
            && offset < end <= |data| && IsVarint(data[offset..end]) && Value(data[offset..end]) == v
            && data[offset..] == data[offset..end] + data[end..]
  {
    ReadExact(data, offset, MAX_BYTES);
  }

  /** `reference` holds, after tag 10 and its length, the name, and maybe more. */
  ghost predicate NamesIn(reference: Bytes, tag: Bytes, length: Bytes, name: Bytes, more: Bytes) {
    && reference == tag + (length + (name + more))
    && IsVarint(tag) && Value(tag) == 10 && IsVarint(length) && Value(length) == |name|
  }

  lemma NameInSplits(reference: Bytes, utf8: Bytes -> bool) returns (tag: Bytes, length: Bytes, more: Bytes)
    requires NameIn(reference, utf8).Some?
    ensures NamesIn(reference, tag, length, NameIn(reference, utf8).value, more)
    ensures utf8(NameIn(reference, utf8).value)
  {
    var name := NameIn(reference, utf8).value;
    ReadSplits(reference, 0);
    var position := ReadVarint(reference, 0).value.1;
    ReadSplits(reference, position);
    var start := ReadVarint(reference, position).value.1;
    tag, length, more := reference[0..position], reference[position..start], reference[start + |name|..];
    hide ReadVarint;
    assert reference[start..] == name + more;
    assert reference == reference[0..];
  }

  /** Without a type reference the payload comes back whole; with one, it is exactly what follows it:
      the size of the reference, and in it the name under tag 10. */
  lemma TypeRefExact(payload: Bytes, utf8: Bytes -> bool)
      returns (size: Bytes, reference: Bytes, tag: Bytes, length: Bytes, more: Bytes)
    ensures var (name, rest) := ParseTypeRef(payload, utf8);
            if name.None? then rest == payload
            else
              && payload == size + (reference + rest) && IsVarint(size) && Value(size) == |reference|
              && NamesIn(reference, tag, length, name.value, more) && utf8(name.value)
  {
    size, reference, tag, length, more := [], [], [], [], [];
    var (name, rest) := ParseTypeRef(payload, utf8);
    if name.Some? {
      ReadSplits(payload, 0);
      var (n, offset) := ReadVarint(payload, 0).value;
      size, reference := payload[0..offset], payload[offset..offset + n];
      tag, length, more := NameInSplits(reference, utf8);
      hide ReadVarint, NameIn;
      assert payload[offset..] == reference + rest;
      assert payload == payload[0..];
    }
  }

  lemma NameInAccepted(reference: Bytes, tag: Bytes, length: Bytes, name: Bytes, more: Bytes, utf8: Bytes -> bool)
    requires NamesIn(reference, tag, length, name, more) && |tag| <= 10 && |length| <= 10 && utf8(name)
    ensures NameIn(reference, utf8) == Some(name) && reference != []
  {
    assert tag != [];
    hide IsVarint, Value;
    AnyVarintRead([], tag, length + (name + more), MAX_BYTES);
    assert [] + tag + (length + (name + more)) == reference;
    AnyVarintRead(tag, length, name + more, MAX_BYTES);
    assert tag + length + (name + more) == reference;
    var start := |tag| + |length|;
    assert reference[start..start + |name|] == name;
  }

  /** Every payload that has this form is read so, however its numbers are written. */
  lemma TypeRefAccepted(size: Bytes, reference: Bytes, tag: Bytes, length: Bytes, name: Bytes, more: Bytes, rest: Bytes,
                        utf8: Bytes -> bool)
    requires IsVarint(size) && |size| <= 10 && Value(size) == |reference|
    requires NamesIn(reference, tag, length, name, more) && |tag| <= 10 && |length| <= 10 && utf8(name)
    ensures ParseTypeRef(size + (reference + rest), utf8) == (Some(name), rest)
  {
    hide IsVarint, Value, NameIn, NamesIn, ParseTypeRef, ReadVarint;
    NameInAccepted(reference, tag, length, name, more, utf8);
    assert ReadVarint(size + (reference + rest), 0) == Ok((|reference|, |size|)) by {
      SizeRead(size, reference + rest);
    }
    Parts(size, reference, rest);
    NamedPayload(size + (reference + rest), |reference|, |size|, name, utf8);
  }

  lemma SizeRead(size: Bytes, rest: Bytes)
    requires IsVarint(size) && |size| <= 10
    ensures ReadVarint(size + rest, 0) == Ok((Value(size), |size|))
  {
    hide IsVarint, Value;
    AnyVarintRead([], size, rest, MAX_BYTES);
    assert [] + size + rest == size + rest;
  }

  lemma Parts(a: Bytes, b: Bytes, c: Bytes)
    ensures (a + (b + c))[|a|..|a| + |b|] == b && (a + (b + c))[|a| + |b|..] == c
  {
  }

  lemma NamedPayload(payload: Bytes, size: nat, offset: nat, name: Bytes, utf8: Bytes -> bool)
    requires ReadVarint(payload, 0) == Ok((size, offset)) && size > 0 && offset + size <= |payload|
    requires NameIn(payload[offset..offset + size], utf8) == Some(name)
    ensures ParseTypeRef(payload, utf8) == (Some(name), payload[offset + size..])
  {
    hide ReadVarint, NameIn;
  }

  lemma {:induction false} LengthBytes(n: nat)
    ensures |Varint(n)| <= n + 1
    decreases n
  {
    if n >= 128 {
      LengthBytes(n / 128);
    }
  }

  // ---- the registry header: a zero byte and the schema ID in four bytes, high byte first

  function Header(id: nat): Bytes
    requires id < 0x1_0000_0000
  {
    [0, id / 0x100_0000, id / 0x1_0000 % 256, id / 256 % 256, id % 256]
  }

  function HeaderId(data: Bytes): nat
    requires |data| >= HEADER_SIZE
  {
    var (a: nat, b: nat, c: nat, d: nat) := (data[1], data[2], data[3], data[4]);
    a * 0x100_0000 + b * 0x1_0000 + c * 256 + d
  }

  lemma HeaderRoundTrip(id: nat, rest: Bytes)
    requires id < 0x1_0000_0000
    ensures HeaderId(Header(id) + rest) == id && (Header(id) + rest)[0] == 0
    ensures (Header(id) + rest)[HEADER_SIZE..] == rest
  {
    var a, b := id / 256, id / 0x1_0000;
    assert id == a * 256 + id % 256;
    assert a == b * 256 + a % 256;
    assert b == id / 0x100_0000 * 256 + b % 256;
  }

  /** The ID is in network byte order. */
  lemma HighByteFirst(a: Byte, b: Byte, c: Byte, d: Byte)
    ensures var id: nat := a * 0x100_0000 + b * 0x1_0000 + c * 0x100 + d;
            id < 0x1_0000_0000 && Header(id) == [0, a, b, c, d] && HeaderId([0, a, b, c, d]) == id
  {
    var id := a * 0x100_0000 + b * 0x1_0000 + c * 0x100 + d;
    assert id / 0x100 == a * 0x1_0000 + b * 0x100 + c && id / 0x1_0000 == a * 0x100 + b && id / 0x100_0000 == a;
  }

  datatype ConfluentRecord = ConfluentRecord(id: nat, indexes: seq<nat>, payload: Bytes)

  function ConfluentSplit(data: Bytes): Split<ConfluentRecord> {
    if |data| < HEADER_SIZE + 1 then Refused(TooShort)
    else if data[0] != 0 then Refused(BadMagic)
    else
      match ParseMessageIndexes(data[HEADER_SIZE..])
      case Split((indexes, payload)) => Split(ConfluentRecord(HeaderId(data), indexes, payload))
      case Refused(reason) => Refused(reason)
  }

  datatype ApicurioRecord = ApicurioRecord(id: nat, name: Option<Bytes>, payload: Bytes)

  function ApicurioSplit(data: Bytes, utf8: Bytes -> bool): Split<ApicurioRecord> {
    if |data| <= HEADER_SIZE then Refused(TooShort)
    else if data[0] != 0 then Refused(BadMagic)
    else
      var (name, payload) := ParseTypeRef(data[HEADER_SIZE..], utf8);
      Split(ApicurioRecord(HeaderId(data), name, payload))
  }

  /** Fewer than six bytes, or a first byte other than zero, are refused by both consumers; otherwise
      the next four bytes are the ID, and only unreadable message indexes are refused. */
  lemma FramesExact(data: Bytes, utf8: Bytes -> bool)
    ensures |data| < 6 ==>
              ConfluentSplit(data) == Refused(TooShort) && ApicurioSplit(data, utf8) == Refused(TooShort)
    ensures |data| >= 6 && data[0] != 0 ==>
              ConfluentSplit(data) == Refused(BadMagic) && ApicurioSplit(data, utf8) == Refused(BadMagic)
    ensures |data| >= 6 && data[0] == 0 ==>
              var id := HeaderId([0, data[1], data[2], data[3], data[4]]);
              && (match ParseMessageIndexes(data[5..])
                  case Split((indexes, payload)) => ConfluentSplit(data) == Split(ConfluentRecord(id, indexes, payload))
                  case Refused(reason) => ConfluentSplit(data) == Refused(reason))
              && (var (name, payload) := ParseTypeRef(data[5..], utf8);
                  ApicurioSplit(data, utf8) == Split(ApicurioRecord(id, name, payload)))
  {
    hide ParseMessageIndexes, ParseTypeRef;
  }

  /** A framed Confluent record is split into what was framed, even with an empty payload. */
  lemma ConfluentRoundTrip(id: nat, indexes: seq<nat>, payload: Bytes)
    requires id < 0x1_0000_0000
    requires 1 <= |indexes| <= 100000 && forall i :: 0 <= i < |indexes| ==> indexes[i] < TWO_63
    ensures ConfluentSplit(Header(id) + (MessageIndexes(indexes) + payload))
         == Split(ConfluentRecord(id, indexes, payload))
  {
    HeaderRoundTrip(id, MessageIndexes(indexes) + payload);
    MessageIndexesRoundTrip(indexes, payload);
    assert MessageIndexes(indexes) != [];
  }

  lemma ApicurioRoundTrip(id: nat, name: Bytes, payload: Bytes, utf8: Bytes -> bool)
    requires id < 0x1_0000_0000 && |name| < TWO_63 && utf8(name)
    ensures ApicurioSplit(Header(id) + (TypeRef(name) + payload), utf8)
         == Split(ApicurioRecord(id, Some(name), payload))
  {
    HeaderRoundTrip(id, TypeRef(name) + payload);
    TypeRefRoundTrip(name, payload, utf8);
  }
}
