/** Bytes shown as text by the consumer and typed back in the producer, in four encodings:
    Base64 (section 4 of RFC 4648), hexadecimal (section 8), a list of numbers, and escaped text. */
module ByteText {
  import opened Options
  import opened Wire
  import NumberLists

  type Bytes = seq<Byte>

  // ---- hexadecimal

  function HexDigit(n: int): char
    requires 0 <= n < 16
  {
    if n < 10 then ('0' as int + n) as char else ('a' as int + n - 10) as char
  }

  predicate IsHex(c: char) {
    '0' <= c <= '9' || 'a' <= c <= 'f' || 'A' <= c <= 'F'
  }

  function HexValue(c: char): (n: int)
    requires IsHex(c)
    ensures 0 <= n < 16
  {
    if c <= '9' then c as int - '0' as int
    else if c <= 'F' then c as int - 'A' as int + 10
    else c as int - 'a' as int + 10
  }

  function HexPair(b: Byte): string {
    [HexDigit(b / 16), HexDigit(b % 16)]
  }

  predicate IsSpace(c: char) {
    c == ' ' || c == '\t' || c == '\n' || c == '\r' || c as int == 11 || c as int == 12
  }

  function ToHex(data: Bytes): string {
    if data == [] then "" else HexPair(data[0]) + ToHex(data[1..])
  }

  /** Two digits a byte; space is allowed between bytes but not inside one. */
  function FromHex(text: string): Option<Bytes> {
    if text == "" then Some([])
    else if IsSpace(text[0]) then FromHex(text[1..])
    else if |text| >= 2 && IsHex(text[0]) && IsHex(text[1]) then
      Prepend([HexValue(text[0]) * 16 + HexValue(text[1])], FromHex(text[2..]))
    else None
  }

  lemma {:induction false} HexRoundTrip(data: Bytes)
    ensures FromHex(ToHex(data)) == Some(data)
  {
    if data != [] {
      HexRoundTrip(data[1..]);
      var text := ToHex(data);
      assert text[2..] == ToHex(data[1..]);
      assert [data[0]] + data[1..] == data;
    }
  }

  const HEX_DIGITS := "0123456789abcdef"
  const UPPER_HEX_DIGITS := "0123456789ABCDEF"

  lemma HexDigitsExact(n: int)
    requires 0 <= n < 16
    ensures HexDigit(n) == HEX_DIGITS[n]
    ensures IsHex(HEX_DIGITS[n]) && HexValue(HEX_DIGITS[n]) == n
    ensures IsHex(UPPER_HEX_DIGITS[n]) && HexValue(UPPER_HEX_DIGITS[n]) == n
  {
  }

  /** Each byte is shown as its high and its low half, at its place. */
  lemma {:induction false} ToHexAt(data: Bytes, i: nat)
    requires i < |data|
    ensures |ToHex(data)| == 2 * |data|
    ensures ToHex(data)[2 * i] == HEX_DIGITS[data[i] / 16] && ToHex(data)[2 * i + 1] == HEX_DIGITS[data[i] % 16]
  {
    HexDigitsExact(data[0] / 16);
    HexDigitsExact(data[0] % 16);
    if |data| > 1 {
      ToHexAt(data[1..], if i > 0 then i - 1 else 0);
    } else {
      assert ToHex(data[1..]) == "";
    }
  }

  /** Text with its upper-case hexadecimal digits in lower case and without white space. */
  function Compact(text: string): string {
    if text == "" then ""
    else if IsSpace(text[0]) then Compact(text[1..])
    else [if 'A' <= text[0] <= 'F' then (text[0] as int + 32) as char else text[0]] + Compact(text[1..])
  }

  lemma CompactPair(c: char, d: char, rest: string)
    requires IsHex(c) && IsHex(d)
    ensures Compact([c, d] + rest) == HexPair(HexValue(c) * 16 + HexValue(d)) + Compact(rest)
  {
    CompactDigit(c, [d] + rest);
    CompactDigit(d, rest);
    assert [c, d] + rest == [c] + ([d] + rest);
    hide Compact, HexDigit, HexValue, IsHex;
  }

  lemma CompactDigit(c: char, rest: string)
    requires IsHex(c)
    ensures Compact([c] + rest) == [HexDigit(HexValue(c))] + Compact(rest)
  {
    assert ([c] + rest)[1..] == rest;
  }

  /** Only hexadecimal digits in pairs are accepted, in either case, with white space around pairs:
      compacted, the text is what the consumer shows. */
  lemma {:induction false} HexAccepted(text: string)
    requires FromHex(text).Some?
    ensures Compact(text) == ToHex(FromHex(text).value)
    decreases |text|
  {
    if text != "" {
      if IsSpace(text[0]) {
        HexAccepted(text[1..]);
      } else {
        HexAccepted(text[2..]);
        CompactPair(text[0], text[1], text[2..]);
        hide Compact, HexDigit, IsHex;
        assert text == [text[0], text[1]] + text[2..];
        var b, rest := HexValue(text[0]) * 16 + HexValue(text[1]), FromHex(text[2..]).value;
        assert ([b] + rest)[1..] == rest;
      }
    }
  }

  /** A byte is read from its two digits in either case, before more bytes and after white space. */
  lemma HexByteRead(gap: char, high: int, low: int, upper: bool, rest: string)
    requires IsSpace(gap) && 0 <= high < 16 && 0 <= low < 16
    ensures var digits := if upper then UPPER_HEX_DIGITS else HEX_DIGITS;
            && FromHex([digits[high], digits[low]] + rest) == Prepend([high * 16 + low], FromHex(rest))
            && FromHex([gap] + rest) == FromHex(rest)
  {
    HexDigitsExact(high);
    HexDigitsExact(low);
    var digits := if upper then UPPER_HEX_DIGITS else HEX_DIGITS;
    PairRead(digits[high], digits[low], rest);
    assert ([gap] + rest)[1..] == rest;
    hide IsHex, HexValue;
  }

  lemma PairRead(c: char, d: char, rest: string)
    requires IsHex(c) && IsHex(d)
    ensures FromHex([c, d] + rest) == Prepend([HexValue(c) * 16 + HexValue(d)], FromHex(rest))
  {
    assert !IsSpace(c);
    hide IsHex, HexValue, IsSpace;
    assert ([c, d] + rest)[2..] == rest;
  }

  // ---- escaped text

  predicate Printable(c: int) {
    0x20 <= c <= 0x7E
  }

  const BACKSLASH: int := 0x5C

  function EscapeByte(b: Byte): string {
    if b == BACKSLASH then ['\\', '\\']
    else if Printable(b) then [b as char]
    else ['\\', 'x'] + HexPair(b)
  }

  function Escape(data: Bytes): string {
    if data == [] then "" else EscapeByte(data[0]) + Escape(data[1..])
  }

  /** The length of the escape that starts at `i`, or zero: a second backslash, or x and two digits. */
  function EscapeAt(text: string, i: nat): (length: nat)
    ensures length > 0 ==> i + length <= |text| && text[i] == '\\'
  {
    if i + 2 <= |text| && text[i] == '\\' && text[i + 1] == '\\' then 2
    else if i + 4 <= |text| && text[i] == '\\' && text[i + 1] == 'x' && IsHex(text[i + 2]) && IsHex(text[i + 3]) then 4
    else 0
  }

  function EscapedByte(text: string, i: nat): Byte
    requires EscapeAt(text, i) > 0
  {
    if EscapeAt(text, i) == 2 then BACKSLASH else HexValue(text[i + 2]) * 16 + HexValue(text[i + 3])
  }

  /** Reading escaped text from the left: escapes, and printable characters but no other backslash. */
  function Unescape(text: string): Option<Bytes> {
    if text == "" then Some([])
    else if EscapeAt(text, 0) > 0 then Prepend([EscapedByte(text, 0)], Unescape(text[EscapeAt(text, 0)..]))
    else if IsPlain(text[0]) then Prepend([text[0] as int], Unescape(text[1..]))
    else None
  }

  predicate Plain(text: string) {
    forall i :: 0 <= i < |text| ==> IsPlain(text[i])
  }

  function Ascii(text: string): Option<Bytes> {
    if Plain(text) then Some(seq(|text|, i requires 0 <= i < |text| => text[i] as int)) else None
  }

  /** Where the next escape starts at or after `from`, or the end of the text. */
  method FindEscape(text: string, from: nat) returns (start: nat)
    requires from <= |text|
    ensures from <= start <= |text|
    ensures forall i :: from <= i < start ==> EscapeAt(text, i) == 0
    ensures start < |text| ==> EscapeAt(text, start) > 0
  {
    start := from;
    while start < |text| && EscapeAt(text, start) == 0
      invariant from <= start <= |text|
      invariant forall i :: from <= i < start ==> EscapeAt(text, i) == 0
    {
      start := start + 1;
    }
  }

  lemma EscapeAtSuffix(text: string, from: nat, i: nat)
    requires from <= i <= |text|
    ensures EscapeAt(text[from..], i - from) == EscapeAt(text, i)
    ensures EscapeAt(text, i) > 0 ==> EscapedByte(text[from..], i - from) == EscapedByte(text, i)
  {
  }

  predicate IsPlain(c: char) {
    c != '\\' && Printable(c as int)
  }

  lemma UnescapePlain(text: string)
    requires text != "" && EscapeAt(text, 0) == 0
    ensures Unescape(text) == if IsPlain(text[0]) then Prepend([text[0] as int], Unescape(text[1..])) else None
  {
  }

  lemma AsciiNothing()
    ensures Ascii("") == Some([])
  {
    assert Ascii("").value == [];
  }

  lemma AsciiCons(c: char, rest: string)
    ensures Ascii([c] + rest) == if IsPlain(c) then Prepend([c as int], Ascii(rest)) else None
  {
    var text := [c] + rest;
    assert text[0] == c && forall i :: 0 <= i < |rest| ==> text[i + 1] == rest[i];
    if IsPlain(c) && Ascii(rest).Some? {
      assert Ascii(text).value == [c as int] + Ascii(rest).value;
    }
  }

  /** Text between two escapes is read character by character, or refused as a whole. */
  lemma {:induction false} GapIsPlain(text: string, from: nat, start: nat)
    requires from <= start <= |text| && forall i :: from <= i < start ==> EscapeAt(text, i) == 0
    ensures Unescape(text[from..]) == match Ascii(text[from..start])
                                      case Some(bytes) => Prepend(bytes, Unescape(text[start..]))
                                      case None => None
    decreases start - from
  {
    if from == start {
      AsciiNothing();
      assert text[from..start] == "";
      PrependJoins([], [], Unescape(text[start..]));
    } else {
      GapIsPlain(text, from + 1, start);
      EscapeAtSuffix(text, from, from);
      UnescapePlain(text[from..]);
      assert text[from..][1..] == text[from + 1..];
      var c, gap := text[from], text[from + 1..start];
      assert text[from..start] == [c] + gap;
      AsciiCons(c, gap);
      hide EscapeAt, Unescape, Ascii;
      if IsPlain(c) && Ascii(gap).Some? {
        PrependJoins([c as int], Ascii(gap).value, Unescape(text[start..]));
      }
    }
  }

  /** The decoder as the source runs it, moving a position from escape to escape. */
  method DecodeEscaped(text: string) returns (r: Option<Bytes>)
    ensures r == Unescape(text)
  {
    var data: Bytes := [];
    var position := 0;
    assert text[0..] == text;
    PrependJoins([], [], Unescape(text));
    var start := FindEscape(text, 0);
    while start < |text|
      invariant position <= start <= |text|
      invariant forall i :: position <= i < start ==> EscapeAt(text, i) == 0
      invariant start < |text| ==> EscapeAt(text, start) > 0
      invariant Unescape(text) == Prepend(data, Unescape(text[position..]))
      decreases |text| - position
    {
      GapIsPlain(text, position, start);
      var gap := Ascii(text[position..start]);
      if gap.None? {
        return None;
      }
      var length, b := EscapeAt(text, start), EscapedByte(text, start);
      EscapeAtSuffix(text, start, start);
      assert text[start..][length..] == text[start + length..];
      PrependJoins(data, gap.value, Unescape(text[start..]));
      PrependJoins(data + gap.value, [b], Unescape(text[start + length..]));
      data := data + gap.value + [b];
      position := start + length;
      start := FindEscape(text, position);
    }
    GapIsPlain(text, position, |text|);
    assert text[position..|text|] == text[position..] && text[|text|..] == "";
    var tail := Ascii(text[position..]);
    if tail.None? {
      return None;
    }
    PrependJoins(data, tail.value, Some([]));
    assert data + tail.value + [] == data + tail.value;
    return Some(data + tail.value);
  }

  lemma EscapedByteRead(b: Byte, rest: string)
    ensures Unescape(EscapeByte(b) + rest) == Prepend([b], Unescape(rest))
  {
    var text := EscapeByte(b) + rest;
    assert text[|EscapeByte(b)|..] == rest;
    assert b / 16 * 16 + b % 16 == b;
  }

  lemma {:induction false} EscapeRoundTrip(data: Bytes)
    ensures Unescape(Escape(data)) == Some(data)
  {
    if data != [] {
      EscapeRoundTrip(data[1..]);
      EscapedByteRead(data[0], Escape(data[1..]));
      assert [data[0]] + data[1..] == data;
    }
  }

  /** Printable ASCII but the backslash stands for itself, the backslash is doubled, and any other
      byte is written with its two digits. */
  lemma EscapeExact(b: Byte)
    ensures EscapeByte(b) == if b == 0x5C then "\\\\"
                             else if 0x20 <= b <= 0x7E then [b as char]
                             else "\\x" + [HEX_DIGITS[b / 16], HEX_DIGITS[b % 16]]
  {
    HexDigitsExact(b / 16);
    HexDigitsExact(b % 16);
    assert "\\\\" == ['\\', '\\'] && "\\x" == ['\\', 'x'];
  }

  /** Printable ASCII without a backslash decodes to itself. */
  lemma {:induction false} PlainDecodes(text: string)
    requires forall c :: c in text ==> 0x20 <= c as int <= 0x7E && c != '\\'
    ensures Unescape(text) == Some(seq(|text|, i requires 0 <= i < |text| => text[i] as int))
  {
    if text == "" {
      assert seq(|text|, i requires 0 <= i < |text| => text[i] as int) == [];
    } else {
      assert text[0] in text && forall c :: c in text[1..] ==> c in text;
      PlainDecodes(text[1..]);
      assert [text[0] as int] + Unescape(text[1..]).value == seq(|text|, i requires 0 <= i < |text| => text[i] as int);
    }
  }

  /** A character outside printable ASCII is refused wherever it stands. */
  lemma {:induction false} UnprintableRefused(text: string, i: nat)
    requires i < |text| && !(0x20 <= text[i] as int <= 0x7E)
    ensures Unescape(text) == None
    decreases |text|
  {
    var n := if EscapeAt(text, 0) > 0 then EscapeAt(text, 0) else 1;
    if i >= n {
      UnprintableRefused(text[n..], i - n);
    }
  }

  lemma BackslashStarts(text: string)
    requires text != "" && text[0] == '\\'
    ensures EscapeAt(text, 0) == if |text| >= 2 && text[1] == '\\' then 2
                                 else if |text| >= 4 && text[1] == 'x' && IsHex(text[2]) && IsHex(text[3]) then 4
                                 else 0
  {
  }

  /** A backslash is refused unless a second one follows, or an x and two digits in either case. */
  lemma BackslashExact(text: string)
    requires text != "" && text[0] == '\\'
    ensures Unescape(text) ==
              if |text| >= 2 && text[1] == '\\' then Prepend([0x5C], Unescape(text[2..]))
              else if |text| >= 4 && text[1] == 'x' && IsHex(text[2]) && IsHex(text[3])
              then Prepend([HexValue(text[2]) * 16 + HexValue(text[3])], Unescape(text[4..]))
              else None
  {
    BackslashStarts(text);
    assert !IsPlain(text[0]);
    hide EscapeAt, IsHex, HexValue;
  }

  /** Text as the consumer writes it: escapes only where needed, with lower-case digits. */
  predicate Canonical(text: string) {
    text == "" ||
    (if EscapeAt(text, 0) == 4 then
       EscapeByte(EscapedByte(text, 0)) == text[..4] && Canonical(text[4..])
     else if EscapeAt(text, 0) == 2 then Canonical(text[2..])
     else Canonical(text[1..]))
  }

  /** Decoding and rendering again normalises accepted text: it never gets longer, and stays as it
      is exactly when it was canonical already. */
  lemma {:induction false} EscapeNormalises(text: string)
    requires Unescape(text).Some?
    ensures |Escape(Unescape(text).value)| <= |text|
    ensures Escape(Unescape(text).value) == text <==> Canonical(text)
    decreases |text|
  {
    if text != "" {
      var n := if EscapeAt(text, 0) > 0 then EscapeAt(text, 0) else 1;
      var b: Byte := if EscapeAt(text, 0) > 0 then EscapedByte(text, 0) else text[0] as int;
      EscapeNormalises(text[n..]);
      var rest := Unescape(text[n..]).value;
      assert ([b] + rest)[1..] == rest;
      assert Escape([b] + rest) == EscapeByte(b) + Escape(rest);
      assert text == text[..n] + text[n..];
      assert |EscapeByte(b)| <= n;
      if EscapeByte(b) + Escape(rest) == text {
        assert |Escape(rest)| <= |text[n..]|;
        assert |EscapeByte(b)| == n;
        assert EscapeByte(b) == text[..n] && Escape(rest) == text[n..];
      }
    }
  }

  // ---- Base64

  function SextetChar(n: int): char
    requires 0 <= n < 64
  {
    if n < 26 then ('A' as int + n) as char
    else if n < 52 then ('a' as int + n - 26) as char
    else if n < 62 then ('0' as int + n - 52) as char
    else if n == 62 then '+' else '/'
  }

  predicate IsSextet(c: char) {
    'A' <= c <= 'Z' || 'a' <= c <= 'z' || '0' <= c <= '9' || c == '+' || c == '/'
  }

  function SextetValue(c: char): (n: int)
    requires IsSextet(c)
    ensures 0 <= n < 64
  {
    if 'A' <= c <= 'Z' then c as int - 'A' as int
    else if 'a' <= c <= 'z' then c as int - 'a' as int + 26
    else if '0' <= c <= '9' then c as int - '0' as int + 52
    else if c == '+' then 62 else 63
  }

  lemma SextetRoundTrip(n: int)
    requires 0 <= n < 64
    ensures IsSextet(SextetChar(n)) && SextetValue(SextetChar(n)) == n && SextetChar(n) != '='
    ensures !IsBlank(SextetChar(n))
  {
  }

  /** Three bytes as four numbers below 64. */
  function Group(a: Byte, b: Byte, c: Byte): seq<int> {
    [a / 4, a % 4 * 16 + b / 16, b % 16 * 4 + c / 64, c % 64]
  }

  function Digits(g: seq<int>): string
    requires forall i :: 0 <= i < |g| ==> 0 <= g[i] < 64
  {
    seq(|g|, i requires 0 <= i < |g| => SextetChar(g[i]))
  }

  /** Four characters for three bytes; a shorter last group is padded. */
  function ToBase64(data: Bytes): string
    decreases |data|
  {
    if data == [] then ""
    else if |data| == 1 then Digits(Group(data[0], 0, 0)[..2]) + "=="
    else if |data| == 2 then Digits(Group(data[0], data[1], 0)[..3]) + "="
    else Digits(Group(data[0], data[1], data[2])) + ToBase64(data[3..])
  }

  /** The bytes of four digits. */
  function Ungroup(s: int, t: int, u: int, v: int): Bytes
    requires 0 <= s < 64 && 0 <= t < 64 && 0 <= u < 64 && 0 <= v < 64
  {
    [s * 4 + t / 16, t % 16 * 16 + u / 4, u % 4 * 64 + v]
  }

  /** Groups of four, the last one possibly padded. */
  function FromGroups(text: string): Option<Bytes> {
    if text == "" then Some([])
    else if |text| < 4 || !IsSextet(text[0]) || !IsSextet(text[1]) then None
    else
      var s, t := SextetValue(text[0]), SextetValue(text[1]);
      if IsSextet(text[2]) && IsSextet(text[3]) then
        Prepend(Ungroup(s, t, SextetValue(text[2]), SextetValue(text[3])), FromGroups(text[4..]))
      else if |text| > 4 || text[3] != '=' then None
      else if IsSextet(text[2]) then Some(Ungroup(s, t, SextetValue(text[2]), 0)[..2])
      else if text[2] == '=' then Some(Ungroup(s, t, 0, 0)[..1])
      else None
  }

  /** What Python's strings count as white space. */
  predicate IsBlank(c: char) {
    var n := c as int;
    || 9 <= n <= 13 || 28 <= n <= 32 || n == 0x85 || n == 0xA0 || n == 0x1680 || 0x2000 <= n <= 0x200A
    || n == 0x2028 || n == 0x2029 || n == 0x202F || n == 0x205F || n == 0x3000
  }

  function WithoutSpace(text: string): string {
    if text == "" then ""
    else if IsBlank(text[0]) then WithoutSpace(text[1..])
    else [text[0]] + WithoutSpace(text[1..])
  }

  function FromBase64(text: string): Option<Bytes> {
    FromGroups(WithoutSpace(text))
  }

  lemma GroupRoundTrip(a: Byte, b: Byte, c: Byte)
    ensures var g := Group(a, b, c);
            && |g| == 4 && (forall i :: 0 <= i < 4 ==> 0 <= g[i] < 64)
            && Ungroup(g[0], g[1], g[2], g[3]) == [a, b, c]
            && (c == 0 ==> g[3] == 0) && (b == 0 && c == 0 ==> g[2] == 0 && g[3] == 0)
  {
    assert a / 4 * 4 + a % 4 == a && (a % 4 * 16 + b / 16) / 16 == a % 4 && (a % 4 * 16 + b / 16) % 16 == b / 16;
    assert b / 16 * 16 + b % 16 == b && (b % 16 * 4 + c / 64) / 4 == b % 16 && (b % 16 * 4 + c / 64) % 4 == c / 64;
    assert c / 64 * 64 + c % 64 == c;
  }

  /** A full group in front of more text, and the two padded groups that end a text. */
  lemma DigitsRead(g: seq<int>, rest: string)
    requires |g| == 4 && forall i :: 0 <= i < 4 ==> 0 <= g[i] < 64
    ensures FromGroups(Digits(g) + rest) == Prepend(Ungroup(g[0], g[1], g[2], g[3]), FromGroups(rest))
    ensures FromGroups(Digits(g[..3]) + "=") == Some(Ungroup(g[0], g[1], g[2], 0)[..2])
    ensures FromGroups(Digits(g[..2]) + "==") == Some(Ungroup(g[0], g[1], 0, 0)[..1])
  {
    SextetRoundTrip(g[0]);
    SextetRoundTrip(g[1]);
    SextetRoundTrip(g[2]);
    SextetRoundTrip(g[3]);
    assert !IsSextet('=');
    hide SextetChar, SextetValue, IsSextet;
    assert (Digits(g) + rest)[4..] == rest;
  }

  /** A group is read back as its three bytes, a padded one as its one or two. */
  lemma GroupRead(a: Byte, b: Byte, c: Byte, rest: string)
    ensures forall i :: 0 <= i < 4 ==> 0 <= Group(a, b, c)[i] < 64
    ensures FromGroups(Digits(Group(a, b, c)) + rest) == Prepend([a, b, c], FromGroups(rest))
    ensures c == 0 ==> FromGroups(Digits(Group(a, b, c)[..3]) + "=") == Some([a, b])
    ensures b == 0 && c == 0 ==> FromGroups(Digits(Group(a, b, c)[..2]) + "==") == Some([a])
  {
    var g := Group(a, b, c);
    GroupRoundTrip(a, b, c);
    DigitsRead(g, rest);
    hide Group, Ungroup, Digits, FromGroups;
    assert [a, b, c][..2] == [a, b] && [a, b, c][..1] == [a];
  }

  lemma PaddedGroupRoundTrip(data: Bytes)
    requires 1 <= |data| <= 2
    ensures FromGroups(ToBase64(data)) == Some(data)
  {
    hide Group, Digits, FromGroups;
    if |data| == 1 {
      GroupRead(data[0], 0, 0, "");
      assert [data[0]] == data;
    } else {
      GroupRead(data[0], data[1], 0, "");
      assert [data[0], data[1]] == data;
    }
  }

  lemma {:induction false} GroupsRoundTrip(data: Bytes)
    ensures FromGroups(ToBase64(data)) == Some(data)
    decreases |data|
  {
    if 1 <= |data| <= 2 {
      PaddedGroupRoundTrip(data);
    } else if |data| >= 3 {
      GroupsRoundTrip(data[3..]);
      hide Group, Digits, FromGroups;
      GroupRead(data[0], data[1], data[2], ToBase64(data[3..]));
      assert [data[0], data[1], data[2]] + data[3..] == data;
    }
  }

  lemma {:induction false} NoSpaceWritten(data: Bytes)
    ensures forall c :: c in ToBase64(data) ==> !IsBlank(c)
    decreases |data|
  {
    if |data| >= 3 {
      NoSpaceWritten(data[3..]);
    }
  }

  lemma {:induction false} NoSpaceToRemove(text: string)
    requires forall c :: c in text ==> !IsBlank(c)
    ensures WithoutSpace(text) == text
  {
    if text != "" {
      assert [text[0]] + text[1..] == text;
      assert text[0] in text && forall c :: c in text[1..] ==> c in text;
      NoSpaceToRemove(text[1..]);
    }
  }

  lemma Base64RoundTrip(data: Bytes)
    ensures FromBase64(ToBase64(data)) == Some(data)
  {
    GroupsRoundTrip(data);
    NoSpaceWritten(data);
    NoSpaceToRemove(ToBase64(data));
  }

  const ALPHABET := "ABCDEFGHIJKLM" + "NOPQRSTUVWXYZ" + "abcdefghijklm" + "nopqrstuvwxyz" + "0123456789+/"

  lemma AlphabetExact(n: int)
    requires 0 <= n < 64
    ensures |ALPHABET| == 64 && SextetChar(n) == ALPHABET[n]
  {
    if n < 13 {
      assert ALPHABET[n] == "ABCDEFGHIJKLM"[n];
    } else if n < 26 {
      assert ALPHABET[n] == "NOPQRSTUVWXYZ"[n - 13];
    } else if n < 39 {
      assert ALPHABET[n] == "abcdefghijklm"[n - 26];
    } else if n < 52 {
      assert ALPHABET[n] == "nopqrstuvwxyz"[n - 39];
    } else {
      assert ALPHABET[n] == "0123456789+/"[n - 52];
    }
  }

  /** Three bytes are one number of 24 bits, high byte first, in four digits of 6 bits each. */
  lemma GroupExact(a: Byte, b: Byte, c: Byte)
    ensures var g, n := Group(a, b, c), a * 0x1_0000 + b * 0x100 + c;
            && |g| == 4 && (forall i :: 0 <= i < 4 ==> 0 <= g[i] < 64)
            && g[0] * 0x4_0000 + g[1] * 0x1000 + g[2] * 0x40 + g[3] == n
  {
    GroupRoundTrip(a, b, c);
    var g := Group(a, b, c);
    assert g[0] == a / 4 && g[1] == a % 4 * 16 + b / 16 && g[2] == b % 16 * 4 + c / 64 && g[3] == c % 64;
    assert a / 4 * 4 + a % 4 == a && b / 16 * 16 + b % 16 == b && c / 64 * 64 + c % 64 == c;
    Weighted(a / 4, a % 4, b / 16, b % 16, c / 64, c % 64);
  }

  lemma Weighted(a: int, x: int, b: int, y: int, c: int, z: int)
    ensures a * 0x4_0000 + (x * 16 + b) * 0x1000 + (y * 4 + c) * 0x40 + z
         == (a * 4 + x) * 0x1_0000 + (b * 16 + y) * 0x100 + (c * 64 + z)
  {
  }

  /** The bytes are shown, starting with one group, in which missing bytes end in padding. */
  ghost predicate GroupFirst(data: Bytes, shown: string)
    requires data != []
  {
    var left := |data|;
    var g := Group(data[0], if left > 1 then data[1] else 0, if left > 2 then data[2] else 0);
    && |shown| == 4
    && forall k :: 0 <= k < 4 ==> 0 <= g[k] < 64 && shown[k] == if k > left then '=' else ALPHABET[g[k]]
  }

  lemma FirstGroupShown(data: Bytes)
    requires data != []
    ensures |ToBase64(data)| >= 4 && GroupFirst(data, ToBase64(data)[..4])
    ensures |data| >= 3 ==> ToBase64(data)[4..] == ToBase64(data[3..])
    ensures |data| < 3 ==> |ToBase64(data)| == 4
  {
    var a, b, c := data[0], if |data| > 1 then data[1] else 0, if |data| > 2 then data[2] else 0;
    GroupRoundTrip(a, b, c);
    var g := Group(a, b, c);
    AlphabetExact(g[0]);
    AlphabetExact(g[1]);
    AlphabetExact(g[2]);
    AlphabetExact(g[3]);
    hide SextetChar, Group;
  }

  lemma {:induction false} ToBase64Length(data: Bytes)
    ensures |ToBase64(data)| == (|data| + 2) / 3 * 4
    decreases |data|
  {
    if data == [] {
      NothingShown(data);
    } else {
      FirstGroupShown(data);
      hide ToBase64, GroupFirst;
      if |data| >= 3 {
        ToBase64Length(data[3..]);
        assert (|data| + 2) / 3 == (|data[3..]| + 2) / 3 + 1;
      }
    }
  }

  /** Every three bytes are shown at their place; a last group of fewer bytes ends in padding. */
  lemma {:induction false} ToBase64At(data: Bytes, i: nat)
    requires 3 * i < |data|
    ensures 4 * i + 4 <= |ToBase64(data)| && GroupFirst(data[3 * i..], ToBase64(data)[4 * i..4 * i + 4])
    decreases i
  {
    FirstGroupShown(data);
    hide ToBase64, GroupFirst;
    if i > 0 {
      var rest, j := data[3..], i - 1;
      ToBase64At(rest, j);
      var shown := ToBase64(data);
      assert shown[4..][4 * j..4 * j + 4] == shown[4 * i..4 * i + 4];
      assert data[3 * i..] == rest[3 * j..];
    } else {
      assert data[0..] == data;
    }
  }

  lemma NothingShown(data: Bytes)
    requires data == []
    ensures ToBase64(data) == ""
  {
  }

  lemma SextetBack(c: char)
    requires IsSextet(c)
    ensures SextetChar(SextetValue(c)) == c && c != '='
  {
  }

  lemma Halves(q: int, r: int)
    ensures 0 <= r < 4 ==> (q * 4 + r) / 4 == q && (q * 4 + r) % 4 == r
    ensures 0 <= r < 16 ==> (q * 16 + r) / 16 == q && (q * 16 + r) % 16 == r
    ensures 0 <= r < 64 ==> (q * 64 + r) / 64 == q && (q * 64 + r) % 64 == r
  {
  }

  lemma UngroupBack(s: int, t: int, u: int, v: int)
    requires 0 <= s < 64 && 0 <= t < 64 && 0 <= u < 64 && 0 <= v < 64
    ensures var bytes := Ungroup(s, t, u, v); |bytes| == 3 && Group(bytes[0], bytes[1], bytes[2]) == [s, t, u, v]
  {
    var a, b, c := s * 4 + t / 16, t % 16 * 16 + u / 4, u % 4 * 64 + v;
    Halves(s, t / 16);
    Halves(t % 16, u / 4);
    Halves(u % 4, v);
    assert a / 4 == s && a % 4 == t / 16 && b / 16 == t % 16 && b % 16 == u / 4 && c / 64 == u % 4 && c % 64 == v;
    assert t / 16 * 16 + t % 16 == t && u / 4 * 4 + u % 4 == u;
  }

  /** A full group of digits is what the consumer shows of its three bytes. */
  lemma FullGroupBack(text: string, rest: Bytes)
    requires |text| == 4 && forall i :: 0 <= i < 4 ==> IsSextet(text[i])
    ensures var s, t, u, v := SextetValue(text[0]), SextetValue(text[1]), SextetValue(text[2]), SextetValue(text[3]);
            ToBase64(Ungroup(s, t, u, v) + rest) == text + ToBase64(rest)
  {
    var s, t, u, v := SextetValue(text[0]), SextetValue(text[1]), SextetValue(text[2]), SextetValue(text[3]);
    SextetBack(text[0]);
    SextetBack(text[1]);
    SextetBack(text[2]);
    SextetBack(text[3]);
    UngroupBack(s, t, u, v);
    var bytes := Ungroup(s, t, u, v);
    hide SextetChar, SextetValue, IsSextet, Group, Ungroup;
    var all := bytes + rest;
    assert all[3..] == rest && all[0] == bytes[0] && all[1] == bytes[1] && all[2] == bytes[2];
    assert Digits([s, t, u, v]) == text;
  }

  /** Nothing but digits in groups of four is accepted, with padding for two at most in the last
      group; without padding, the text is what the consumer shows. */
  lemma {:induction false} GroupsAccepted(text: string)
    requires FromGroups(text).Some?
    ensures |ToBase64(FromGroups(text).value)| == |text|
    ensures '=' !in text ==> ToBase64(FromGroups(text).value) == text
    ensures forall i :: 0 <= i < |text| ==> IsSextet(text[i]) || (text[i] == '=' && i >= |text| - 2)
    decreases |text|
  {
    if text != "" {
      if IsSextet(text[2]) && IsSextet(text[3]) {
        var rest := text[4..];
        GroupsAccepted(rest);
        FullGroupBack(text[..4], FromGroups(rest).value);
        hide IsSextet, SextetValue, Ungroup;
        assert text == text[..4] + rest;
        assert forall i :: 4 <= i < |text| ==> text[i] == rest[i - 4];
        assert '=' !in text ==> '=' !in rest;
      } else {
        assert text[3] == '=' && |text| == 4;
        ToBase64Length(FromGroups(text).value);
        hide SextetValue, Ungroup, ToBase64;
      }
    }
  }

  // ---- number lists

  /** Numbers with `, ` between them, as a list of Python shows them. */
  const SHOWN := NumberLists.Layout("", " ", "")

  function ToNumbers(data: Bytes, layout: NumberLists.Layout): string {
    NumberLists.Write(data, layout)
  }

  /** Blank text holds no bytes; any other must be a JSON list of integers from 0 to 255. */
  function FromNumbers(text: string): Option<Bytes> {
    if forall i :: 0 <= i < |text| ==> IsBlank(text[i]) then Some([])
    else
      match NumberLists.Read(text)
      case None => None
      case Some(values) =>
        if forall i :: 0 <= i < |values| ==> 0 <= values[i] < 256
        then Some(seq(|values|, i requires 0 <= i < |values| => values[i]))
        else None
  }

  /** Blank text holds no bytes, and a written list its numbers if all of them are bytes; one number
      outside is enough to be refused. */
  lemma NumbersExact(values: seq<int>, layout: NumberLists.Layout, blank: string)
    requires layout.Valid() && forall i :: 0 <= i < |blank| ==> IsBlank(blank[i])
    ensures FromNumbers(blank) == Some([])
    ensures FromNumbers(NumberLists.Write(values, layout)) ==
              if forall i :: 0 <= i < |values| ==> 0 <= values[i] <= 255
              then Some(seq(|values|, i requires 0 <= i < |values| => values[i])) else None
  {
    NumberLists.WriteRead(values, layout);
    assert NumberLists.Write(values, layout)[0] == '[';
  }

  /** The producer reads a number list however it is laid out. */
  lemma NumbersRoundTrip(data: Bytes, layout: NumberLists.Layout)
    requires layout.Valid()
    ensures FromNumbers(ToNumbers(data, layout)) == Some(data)
  {
    NumberLists.WriteRead(data, layout);
    assert ToNumbers(data, layout)[0] == '[';
    assert seq(|data|, i requires 0 <= i < |data| => data[i]) == data;
  }

  // ---- the four encodings together

  datatype Encoding = BASE64 | HEX | BYTE_ARRAY | ESCAPED

  function Render(data: Bytes, encoding: Encoding): string {
    match encoding
    case BASE64 => ToBase64(data)
    case HEX => ToHex(data)
    case BYTE_ARRAY => ToNumbers(data, SHOWN)
    case ESCAPED => Escape(data)
  }

  function Serialize(text: string, encoding: Encoding): Option<Bytes> {
    match encoding
    case BASE64 => FromBase64(text)
    case HEX => FromHex(text)
    case BYTE_ARRAY => FromNumbers(text)
    case ESCAPED => Unescape(text)
  }

  /** Whatever the consumer shows of some bytes, in any encoding, the producer turns back into them. */
  lemma ShownBytesComeBack(data: Bytes, encoding: Encoding)
    ensures Serialize(Render(data, encoding), encoding) == Some(data)
  {
    Base64RoundTrip(data);
    HexRoundTrip(data);
    NumbersRoundTrip(data, SHOWN);
    EscapeRoundTrip(data);
  }
}
