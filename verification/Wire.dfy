/** Protobuf numbers on the wire: base 128 varints and zigzag ("Base 128 Varints" and "Signed
    Integers" in the Protocol Buffers encoding specification). */
module Wire {
  type Byte = b: int | 0 <= b < 256

  datatype Result<+T> = Ok(value: T) | UnexpectedEnd | TooLong

  const MAX_BYTES: nat := 10

  function Pow128(n: nat): (p: nat)
    ensures p > 0
  {
    if n == 0 then 1 else 128 * Pow128(n - 1)
  }

  // ---- writing and reading varints

  /** Seven bits a byte, low bits first; every byte but the last has its high bit set. */
  function Varint(v: nat): (bytes: seq<Byte>)
    ensures bytes != []
  {
    if v < 128 then [v] else [128 + v % 128] + Varint(v / 128)
  }

  method WriteVarint(v: nat) returns (encoded: seq<Byte>)
    ensures encoded == Varint(v)
  {
    encoded := [];
    var value := v;
    while true
      invariant Varint(v) == encoded + Varint(value)
      decreases value
    {
      var low := value % 128;
      value := value / 128;
      if value != 0 {
        encoded := encoded + [128 + low];
      } else {
        return encoded + [low];
      }
    }
  }

  /** Reads at most `limit` bytes from `offset`; returns the value and the offset after it. */
  function ReadUpTo(data: seq<Byte>, offset: nat, limit: nat): Result<(nat, nat)>
    decreases limit, data, offset
  {
    if limit == 0 then TooLong
    else if offset >= |data| then UnexpectedEnd
    else if data[offset] < 128 then Ok((data[offset], offset + 1))
    else
      Scaled(data[offset] - 128, 128, ReadUpTo(data, offset + 1, limit - 1))
  }

  /** The result with its value multiplied by `scale` and added to `low`. */
  function Scaled(low: nat, scale: nat, r: Result<(nat, nat)>): Result<(nat, nat)> {
    match r
    case Ok((high, end)) => Ok((low + scale * high, end))
    case error => error
  }

  lemma ScaledTwice(low: nat, scale: nat, middle: nat, r: Result<(nat, nat)>)
    ensures middle * scale >= 0
    ensures Scaled(low, scale, Scaled(middle, 128, r)) == Scaled(low + middle * scale, 128 * scale, r)
  {
    if r.Ok? {
      var high := r.value.0;
      assert scale * (middle + 128 * high) == middle * scale + 128 * scale * high;
    }
  }

  function ReadVarint(data: seq<Byte>, offset: nat): Result<(nat, nat)> {
    ReadUpTo(data, offset, MAX_BYTES)
  }

  /** Reading with the value so far and the weight of the next seven bits. */
  function ReadOnto(data: seq<Byte>, offset: nat, limit: nat, value: nat, weight: nat): Result<(nat, nat)>
    decreases limit, data, offset
  {
    if limit == 0 then TooLong
    else if offset >= |data| then UnexpectedEnd
    else
      var sum := value + data[offset] % 128 * weight;
      if data[offset] < 128 then Ok((sum, offset + 1))
      else ReadOnto(data, offset + 1, limit - 1, sum, 128 * weight)
  }

  lemma {:induction false} ReadOntoIsScaled(data: seq<Byte>, offset: nat, limit: nat, value: nat, weight: nat)
    ensures ReadOnto(data, offset, limit, value, weight) == Scaled(value, weight, ReadUpTo(data, offset, limit))
    decreases limit
  {
    if limit > 0 && offset < |data| && data[offset] >= 128 {
      var low: nat := data[offset] - 128;
      ReadOntoIsScaled(data, offset + 1, limit - 1, value + low * weight, 128 * weight);
      ScaledTwice(value, weight, low, ReadUpTo(data, offset + 1, limit - 1));
    }
  }

  method ScanVarint(data: seq<Byte>, start: nat) returns (r: Result<(nat, nat)>)
    ensures r == ReadVarint(data, start)
  {
    ReadOntoIsScaled(data, start, MAX_BYTES, 0, 1);
    var value: nat, weight: nat, offset: nat := 0, 1, start;
    for i := 0 to MAX_BYTES
      invariant ReadOnto(data, start, MAX_BYTES, 0, 1) == ReadOnto(data, offset, MAX_BYTES - i, value, weight)
    {
      if offset >= |data| {
        return UnexpectedEnd;
      }
      var current := data[offset];
      offset := offset + 1;
      value := value + current % 128 * weight;
      if current < 128 {
        return Ok((value, offset));
      }
      weight := 128 * weight;
    }
    return TooLong;
  }

  /** Whatever comes before and after it, a written value below 128^n is read back in n bytes,
      ending right after it; a larger one is refused. */
  lemma {:induction false} VarintRoundTrip(before: seq<Byte>, v: nat, after: seq<Byte>, n: nat)
    requires n > 0 || v > 0
    ensures ReadUpTo(before + Varint(v) + after, |before|, n)
            == if v < Pow128(n) then Ok((v, |before| + |Varint(v)|)) else TooLong
    decreases n
  {
    var data := before + Varint(v) + after;
    if n > 0 {
      assert data[|before|] == Varint(v)[0];
      if v >= 128 {
        VarintRoundTrip(before + [128 + v % 128], v / 128, after, n - 1);
        assert before + [128 + v % 128] + Varint(v / 128) + after == data;
      }
    }
  }

  lemma {:induction false} DecodedBelow(data: seq<Byte>, offset: nat, n: nat)
    ensures match ReadUpTo(data, offset, n)
            case Ok((v, end)) => v < Pow128(n) && offset < end <= |data|
            case _ => true
    decreases n
  {
    if n > 0 && offset < |data| && data[offset] >= 128 {
      DecodedBelow(data, offset + 1, n - 1);
    }
  }

  /** No other bytes of the same length or fewer decode to `v`. */
  lemma {:induction false} VarintIsShortest(data: seq<Byte>, offset: nat, n: nat)
    ensures match ReadUpTo(data, offset, n)
            case Ok((v, end)) =>
              && offset <= end <= |data|
              && |Varint(v)| <= end - offset
              && (|Varint(v)| == end - offset ==> data[offset..end] == Varint(v))
            case _ => true
    decreases n
  {
    if n > 0 && offset < |data| && data[offset] >= 128 {
      VarintIsShortest(data, offset + 1, n - 1);
      match ReadUpTo(data, offset + 1, n - 1) {
        case Ok((high, end)) =>
          var low := data[offset] - 128;
          var v := low + 128 * high;
          assert v / 128 == high && v % 128 == low;
          assert data[offset..end] == [data[offset]] + data[offset + 1..end];
          if v < 128 {
            assert |Varint(v)| == 1;
          }
        case _ =>
      }
    }
  }

  /** Bytes that all but the last have their high bit set. */
  predicate IsVarint(bytes: seq<Byte>) {
    && bytes != [] && bytes[|bytes| - 1] < 128
    && forall i :: 0 <= i < |bytes| - 1 ==> bytes[i] >= 128
  }

  /** The low seven bits of the bytes as a number, the first byte's lowest. */
  function Value(bytes: seq<Byte>): nat {
    if bytes == [] then 0 else bytes[0] % 128 + 128 * Value(bytes[1..])
  }

  /** Exactly the varints of at most `n` bytes are read, whether written at their shortest or not;
      the data end too early if they end inside one, and it is too long if `n` bytes do not end it. */
  lemma {:induction false} ReadExact(data: seq<Byte>, offset: nat, n: nat)
    ensures match ReadUpTo(data, offset, n)
            case Ok((v, end)) =>
              && offset < end <= |data| && end - offset <= n
              && IsVarint(data[offset..end]) && v == Value(data[offset..end])
            case UnexpectedEnd => |data| < offset + n && forall i :: offset <= i < |data| ==> data[i] >= 128
            case TooLong =>
              (n > 0 ==> offset + n <= |data|) && forall i :: offset <= i < offset + n ==> data[i] >= 128
    decreases n
  {
    if n > 0 && offset < |data| {
      assert data[offset..offset + 1] == [data[offset]] && [data[offset]][1..] == [];
      if data[offset] >= 128 {
        ReadExact(data, offset + 1, n - 1);
        match ReadUpTo(data, offset + 1, n - 1) {
          case Ok((v, end)) =>
            assert data[offset..end][1..] == data[offset + 1..end];
            assert data[offset..end] == [data[offset]] + data[offset + 1..end];
          case _ =>
        }
      }
    }
  }

  /** Any varint of at most `n` bytes is read, whatever stands before and after it. */
  lemma {:induction false} AnyVarintRead(before: seq<Byte>, bytes: seq<Byte>, after: seq<Byte>, n: nat)
    requires IsVarint(bytes) && |bytes| <= n
    ensures ReadUpTo(before + bytes + after, |before|, n) == Ok((Value(bytes), |before| + |bytes|))
    decreases n
  {
    var data := before + bytes + after;
    assert data[|before|] == bytes[0];
    if |bytes| == 1 {
      assert bytes[1..] == [];
    } else {
      AnyVarintRead(before + [bytes[0]], bytes[1..], after, n - 1);
      assert before + [bytes[0]] + bytes[1..] + after == data;
    }
  }

  lemma TenBytesHoldSeventyBits()
    ensures Pow128(MAX_BYTES) == 0x40_0000_0000_0000_0000
  {
    assert Pow128(2) == 0x4000;
    assert Pow128(4) == 0x1000_0000;
    assert Pow128(6) == 0x400_0000_0000;
    assert Pow128(8) == 0x100_0000_0000_0000;
  }

  /** The reader accepts exactly the written values below 2^70, and returns only such values. */
  lemma VarintExact(before: seq<Byte>, v: nat, after: seq<Byte>)
    ensures ReadVarint(before + Varint(v) + after, |before|) == Ok((v, |before| + |Varint(v)|))
            <==> v < 0x40_0000_0000_0000_0000
    ensures ReadVarint(after, 0).Ok? ==> ReadVarint(after, 0).value.0 < 0x40_0000_0000_0000_0000
  {
    TenBytesHoldSeventyBits();
    VarintRoundTrip(before, v, after, MAX_BYTES);
    DecodedBelow(after, 0, MAX_BYTES);
  }

  // ---- zigzag, over integers of any size as shifts and exclusive or see them

  function Magnitude(a: int): nat {
    if a >= 0 then a else -1 - a
  }

  /** Exclusive or of two integers in two's complement without a fixed width. */
  function Xor(a: int, b: int): int
    decreases Magnitude(a) + Magnitude(b)
  {
    if Magnitude(a) == 0 && Magnitude(b) == 0 then (if a == b then 0 else -1)
    else 2 * Xor(a / 2, b / 2) + (if a % 2 == b % 2 then 0 else 1)
  }

  lemma {:induction false} XorUnits(a: int)
    ensures Xor(a, 0) == a && Xor(a, -1) == -1 - a
    decreases Magnitude(a)
  {
    if Magnitude(a) != 0 {
      XorUnits(a / 2);
    }
  }

  lemma {:induction false} XorSign(a: int, b: int)
    ensures Xor(a, b) >= 0 <==> (a >= 0 <==> b >= 0)
    decreases Magnitude(a) + Magnitude(b)
  {
    if !(Magnitude(a) == 0 && Magnitude(b) == 0) {
      XorSign(a / 2, b / 2);
    }
  }

  lemma {:induction false} XorCancels(a: int, b: int)
    ensures Xor(a, Xor(a, b)) == b
    decreases Magnitude(a) + Magnitude(b)
  {
    if !(Magnitude(a) == 0 && Magnitude(b) == 0) {
      XorCancels(a / 2, b / 2);
      var x := Xor(a, b);
      assert x / 2 == Xor(a / 2, b / 2);
      if Magnitude(a) == 0 && Magnitude(x) == 0 {
        XorUnits(b);
      }
    } else {
      XorUnits(a);
    }
  }

  const TWO_63: int := 0x8000_0000_0000_0000

  function Zigzag(v: int): int {
    Xor(2 * v, v / TWO_63)
  }

  function Unzigzag(z: int): int {
    Xor(z / 2, -(z % 2))
  }

  lemma ZigzagNatural(v: int)
    ensures Zigzag(v) >= 0
  {
    XorSign(2 * v, v / TWO_63);
  }

  lemma ZigzagOfNatural(v: nat)
    requires v < TWO_63
    ensures Zigzag(v) == 2 * v
  {
    assert v / TWO_63 == 0;
    XorUnits(2 * v);
  }

  /** Small magnitudes get small numbers: natural numbers the even ones, negative numbers the odd. */
  lemma ZigzagSigned(v: int)
    requires -TWO_63 <= v < TWO_63
    ensures Zigzag(v) == if v >= 0 then 2 * v else -2 * v - 1
  {
    assert v / TWO_63 == if v >= 0 then 0 else -1;
    XorUnits(2 * v);
  }

  /** Zigzag is undone exactly on the signed 64-bit integers. */
  lemma ZigzagExact(v: int)
    ensures Unzigzag(Zigzag(v)) == v <==> -TWO_63 <= v < TWO_63
  {
    var q := v / TWO_63;
    ZigzagHalves(v, q);
    // v comes back only if the sign bits q are all zeros or all ones
    XorCancels(v, q / 2);
    XorCancels(v, 0);
    XorCancels(v, -1);
    hide Xor;
    assert q % 2 == 0 ==> (Xor(v, q / 2) == v <==> q == 0);
    assert q % 2 == 1 ==> (Xor(v, q / 2) == -1 - v <==> q == -1);
  }

  lemma ZigzagHalves(v: int, q: int)
    requires q == v / TWO_63
    ensures Unzigzag(Zigzag(v)) == if q % 2 == 0 then Xor(v, q / 2) else -1 - Xor(v, q / 2)
    ensures Xor(v, 0) == v && Xor(v, -1) == -1 - v
  {
    hide Xor;
    XorUnits(v);
    XorUnits(Xor(v, q / 2));
    XorDoubles(v, q);
  }

  lemma XorDoubles(v: int, q: int)
    ensures Xor(2 * v, q) / 2 == Xor(v, q / 2) && Xor(2 * v, q) % 2 == q % 2
  {
  }
}
