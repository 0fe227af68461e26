/** JSON texts of integer lists (sections 5 and 6 of RFC 8259), written with any white space. */
module NumberLists {
  import opened Options

  predicate IsSpace(c: char) {
    c == ' ' || c == '\t' || c == '\n' || c == '\r'
  }

  predicate IsDigit(c: char) {
    '0' <= c <= '9'
  }

  // ---- writing

  function Decimal(n: nat): string {
    if n < 10 then [('0' as int + n) as char] else Decimal(n / 10) + [('0' as int + n % 10) as char]
  }

  function Integer(n: int): string {
    if n < 0 then "-" + Decimal(-n) else Decimal(n)
  }

  /** The white space after the opening bracket, after each comma, and before the closing bracket. */
  datatype Layout = Layout(open: string, between: string, close: string)
  {
    predicate Valid() {
      Blank(open) && Blank(between) && Blank(close)
    }
  }

  predicate Blank(s: string) {
    forall i :: 0 <= i < |s| ==> IsSpace(s[i])
  }

  function WriteItems(values: seq<int>, layout: Layout): string
    requires values != []
  {
    Integer(values[0]) +
    (if |values| == 1 then layout.close + "]" else "," + (layout.between + WriteItems(values[1..], layout)))
  }

  function Write(values: seq<int>, layout: Layout): string {
    if values == [] then "[]" else "[" + (layout.open + WriteItems(values, layout))
  }

  /** Numbers in base 10, high digits first. */
  lemma DecimalExact(n: nat, digit: nat)
    requires digit < 10
    ensures Decimal(digit) == ["0123456789"[digit]]
    ensures n > 0 ==> Decimal(10 * n + digit) == Decimal(n) + ["0123456789"[digit]]
    ensures n > 0 ==> Integer(0 - n) == "-" + Decimal(n)
  {
  }

  /** The numbers stand in order, with commas between them and brackets around them. */
  lemma WriteExact(values: seq<int>, last: int, layout: Layout)
    ensures Write([], layout) == "[]"
    ensures Write([last], layout) == "[" + layout.open + Integer(last) + layout.close + "]"
    ensures values != [] ==>
              exists start: string ::
                && Write(values, layout) == start + layout.close + "]"
                && Write(values + [last], layout) == start + "," + layout.between + Integer(last) + layout.close + "]"
  {
    hide Integer;
    assert "[" + (layout.open + (Integer(last) + (layout.close + "]")))
        == "[" + layout.open + Integer(last) + layout.close + "]";
    if values != [] {
      var items := ItemsWritten(values, last, layout);
      var start := "[" + layout.open + items;
      assert "[" + (layout.open + (items + layout.close + "]")) == start + layout.close + "]";
      assert "[" + (layout.open + (items + "," + layout.between + Integer(last) + layout.close + "]"))
          == start + "," + layout.between + Integer(last) + layout.close + "]";
    }
  }

  lemma {:induction false} ItemsWritten(values: seq<int>, last: int, layout: Layout) returns (items: string)
    requires values != []
    ensures WriteItems(values, layout) == items + layout.close + "]"
    ensures WriteItems(values + [last], layout) == items + "," + layout.between + Integer(last) + layout.close + "]"
    decreases |values|
  {
    hide Integer;
    var first := Integer(values[0]);
    assert (values + [last])[1..] == values[1..] + [last];
    if |values| == 1 {
      items := first;
      assert values[1..] + [last] == [last];
      assert first + ("," + (layout.between + (Integer(last) + (layout.close + "]"))))
          == items + "," + layout.between + Integer(last) + layout.close + "]";
      assert first + (layout.close + "]") == items + layout.close + "]";
    } else {
      var rest := ItemsWritten(values[1..], last, layout);
      items := first + "," + layout.between + rest;
      assert first + ("," + (layout.between + (rest + layout.close + "]"))) == items + layout.close + "]";
      assert first + ("," + (layout.between + (rest + "," + layout.between + Integer(last) + layout.close + "]")))
          == items + "," + layout.between + Integer(last) + layout.close + "]";
    }
  }

  // ---- reading; every other JSON text is refused like a malformed one

  function SkipSpace(text: string): (rest: string)
    ensures |rest| <= |text|
  {
    if text != "" && IsSpace(text[0]) then SkipSpace(text[1..]) else text
  }

  function ReadDigits(text: string, value: nat): (r: (nat, string))
    ensures |r.1| <= |text|
  {
    if text != "" && IsDigit(text[0]) then ReadDigits(text[1..], value * 10 + (text[0] as int - '0' as int))
    else (value, text)
  }

  /** Digits without a leading zero, and the text after them. */
  function ReadNatural(text: string): (r: Option<(nat, string)>)
    ensures r.Some? ==> |r.value.1| < |text|
  {
    if text == "" || !IsDigit(text[0]) then None
    else if text[0] == '0' then Some((0, text[1..]))
    else Some(ReadDigits(text[1..], text[0] as int - '0' as int))
  }

  function ReadInteger(text: string): (r: Option<(int, string)>)
    ensures r.Some? ==> |r.value.1| < |text|
  {
    var negative := text != "" && text[0] == '-';
    match ReadNatural(if negative then text[1..] else text)
    case None => None
    case Some((size, rest)) =>
      var n: int := size;
      Some((if negative then -n else n, rest))
  }

  /** The rest of a list that has at least one more item. */
  function ReadItems(text: string): Option<seq<int>>
    decreases |text|
  {
    match ReadInteger(SkipSpace(text))
    case None => None
    case Some((n, after)) =>
      var rest := SkipSpace(after);
      if rest == "" then None
      else if rest[0] == ',' then Prepend([n], ReadItems(rest[1..]))
      else if rest[0] == ']' && SkipSpace(rest[1..]) == "" then Some([n])
      else None
  }

  function Read(text: string): Option<seq<int>> {
    var list := SkipSpace(text);
    if list == "" || list[0] != '[' then None
    else
      var first := SkipSpace(list[1..]);
      if first != "" && first[0] == ']' then
        if SkipSpace(first[1..]) == "" then Some([]) else None
      else ReadItems(first)
  }

  // ---- there and back

  lemma {:induction false} SpaceSkipped(gap: string, text: string)
    requires Blank(gap)
    ensures SkipSpace(gap + text) == SkipSpace(text)
  {
    if gap == "" {
      assert gap + text == text;
    } else {
      assert (gap + text)[1..] == gap[1..] + text;
      SpaceSkipped(gap[1..], text);
    }
  }

  lemma {:induction false} DecimalDigits(n: nat, more: string)
    ensures ReadDigits(Decimal(n) + more, 0) == ReadDigits(more, n)
    ensures Decimal(n) != "" && IsDigit(Decimal(n)[0]) && (Decimal(n)[0] == '0' <==> n == 0)
  {
    if n < 10 {
      assert (Decimal(n) + more)[1..] == more;
    } else {
      var digit := ('0' as int + n % 10) as char;
      DecimalDigits(n / 10, [digit] + more);
      assert Decimal(n) + more == Decimal(n / 10) + ([digit] + more);
      assert ([digit] + more)[1..] == more;
    }
  }

  /** An integer is read back up to the character that ends it. */
  lemma IntegerRead(n: int, more: string)
    requires more != "" && !IsDigit(more[0])
    ensures ReadInteger(Integer(n) + more) == Some((n, more))
    ensures !IsSpace(Integer(n)[0]) && Integer(n)[0] != ']'
  {
    var size: nat := if n < 0 then -n else n;
    var text := Decimal(size) + more;
    DecimalDigits(size, more);
    assert ReadDigits(text, 0) == ReadDigits(text[1..], text[0] as int - '0' as int);
    assert size == 0 ==> text[1..] == more;
    assert ReadNatural(text) == Some((size, more));
    if n < 0 {
      assert (Integer(n) + more)[1..] == text;
    }
  }

  /** What follows the first item. */
  function AfterFirst(values: seq<int>, layout: Layout): string
    requires values != []
  {
    if |values| == 1 then layout.close + "]" else "," + (layout.between + WriteItems(values[1..], layout))
  }

  lemma FirstItemRead(values: seq<int>, layout: Layout, gap: string)
    requires values != [] && layout.Valid() && Blank(gap)
    ensures var items := WriteItems(values, layout);
            && items != "" && !IsSpace(items[0]) && items[0] != ']'
            && ReadInteger(SkipSpace(gap + items)) == Some((values[0], AfterFirst(values, layout)))
  {
    var items := WriteItems(values, layout);
    assert items == Integer(values[0]) + AfterFirst(values, layout);
    IntegerRead(values[0], AfterFirst(values, layout));
    hide ReadInteger, Integer;
    SpaceSkipped(gap, items);
    assert SkipSpace(items) == items;
  }

  /** After an item comes a comma and the rest, or the closing bracket. */
  lemma ItemsStep(text: string, n: int, gap: string, rest: string)
    requires Blank(gap)
    ensures ReadInteger(SkipSpace(text)) == Some((n, "," + rest)) ==> ReadItems(text) == Prepend([n], ReadItems(rest))
    ensures ReadInteger(SkipSpace(text)) == Some((n, gap + "]")) ==> ReadItems(text) == Some([n])
  {
    assert ("," + rest)[1..] == rest && "]"[1..] == "";
    SpaceSkipped(gap, "]");
    hide ReadInteger;
  }

  lemma {:induction false} ItemsRead(values: seq<int>, layout: Layout, gap: string)
    requires values != [] && layout.Valid() && Blank(gap)
    ensures ReadItems(gap + WriteItems(values, layout)) == Some(values)
    decreases |values|
  {
    FirstItemRead(values, layout, gap);
    hide ReadInteger, SkipSpace, ReadItems, WriteItems;
    var text := gap + WriteItems(values, layout);
    if |values| == 1 {
      ItemsStep(text, values[0], layout.close, "");
      assert [values[0]] == values;
    } else {
      ItemsRead(values[1..], layout, layout.between);
      ItemsStep(text, values[0], "", layout.between + WriteItems(values[1..], layout));
      assert [values[0]] + values[1..] == values;
    }
  }

  /** A written list is read back, whatever white space it is laid out with. */
  lemma WriteRead(values: seq<int>, layout: Layout)
    requires layout.Valid()
    ensures Read(Write(values, layout)) == Some(values)
  {
    if values == [] {
      assert "[]"[1..] == "]" && "]"[1..] == "";
    } else {
      var items := WriteItems(values, layout);
      FirstItemRead(values, layout, "");
      ItemsRead(values, layout, "");
      hide WriteItems, ReadItems, ReadInteger;
      assert Write(values, layout)[1..] == layout.open + items;
      SpaceSkipped(layout.open, items);
      assert SkipSpace(items) == items && "" + items == items;
    }
  }
}
