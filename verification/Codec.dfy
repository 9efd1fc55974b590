/** The bit format written by OBStream and read by IBStream, as functions on bit sequences. */
module Codec {
  import opened Texts
  import opened BitStrings
  import opened Values
  import opened Multimaps

  // The result of reading a value from the front of a bit sequence; Fail is an exception.
  datatype Parsed<+T> = Fail | Ok(value: T, rest: Bits) {
    predicate IsFailure() { Fail? }

    function PropagateFailure<U>(): Parsed<U>
      requires Fail?
    {
      Fail
    }

    function Extract(): (T, Bits)
      requires Ok?
    {
      (value, rest)
    }
  }

  const V_BOOL := 1
  const V_INT := 2
  const V_UINT := 3
  const V_DOUBLE := 4
  const V_STRING := 5
  const V_PTIME := 6
  const V_POINT := 7
  const V_BBOX := 8

  // ---------- encoding ----------

  // Groups of five bits, lowest first, each announced by a set bit.
  function EncodeUnsigned(v: nat): Bits {
    if v == 0 then [false] else [true] + (BitsOf(v % 32, 5) + EncodeUnsigned(v / 32))
  }

  function EncodeInt(v: int): Bits {
    [v < 0] + EncodeUnsigned(if v >= 0 then v else -v)
  }

  // The number of leading zero bytes, at most 7.
  function LeadingZeros(d: seq<Byte>): (n: nat)
    requires |d| > 0
    ensures n < |d| && (forall i :: 0 <= i < n ==> d[i] == 0) && (n < |d| - 1 ==> d[n] != 0)
  {
    if d[0] == 0 && |d| > 1 then 1 + LeadingZeros(d[1..]) else 0
  }

  function EncodeBytes(d: seq<Byte>): Bits {
    if d == [] then [] else BitsOf(d[0], 8) + EncodeBytes(d[1..])
  }

  function EncodeDouble(d: Double): Bits {
    BitsOf(LeadingZeros(d), 3) + EncodeBytes(d[LeadingZeros(d)..])
  }

  function EncodeChar(c: Octet): Bits {
    if c as int > 126 then BitsOf(127, 7) + BitsOf(c as int, 8) else BitsOf(c as int, 7)
  }

  function EncodeChars(s: Text): Bits {
    if s == [] then [] else EncodeChar(s[0]) + EncodeChars(s[1..])
  }

  function EncodeString(s: Text): Bits {
    EncodeUnsigned(|s|) + EncodeChars(s)
  }

  function EncodeSeconds(second: UInt32): Bits {
    if second != 0 then [true] + EncodeUnsigned(second) else [false]
  }

  function EncodeTime(t: DateTime): Bits {
    match t
    case NotADateTime => [false, false]
    case NegInfinity => [false, true, false]
    case PosInfinity => [false, true, true]
    case At(year, month, day, second, _) =>
      [true] + (EncodeInt(year) + (EncodeUnsigned(month) + (EncodeUnsigned(day) + EncodeSeconds(second))))
  }

  function EncodeValue(v: Value): Bits
    requires !v.Empty?
  {
    match v
    case Bool(b) => BitsOf(V_BOOL, 4) + [b]
    case Int(i) => BitsOf(V_INT, 4) + EncodeInt(i)
    case UInt(u) => BitsOf(V_UINT, 4) + EncodeUnsigned(u)
    case Real(d) => BitsOf(V_DOUBLE, 4) + EncodeDouble(d)
    case String(s) => BitsOf(V_STRING, 4) + EncodeString(s)
    case Time(t) => BitsOf(V_PTIME, 4) + EncodeTime(t)
    case Point(x, y, crs) => BitsOf(V_POINT, 4) + (EncodeDouble(x) + (EncodeDouble(y) + EncodeString(crs)))
    case BBox(xMin, yMin, xMax, yMax, crs) =>
      BitsOf(V_BBOX, 4) +
      (EncodeDouble(xMin) + (EncodeDouble(yMin) + (EncodeDouble(xMax) + (EncodeDouble(yMax) + EncodeString(crs)))))
  }

  predicate Supported(m: Multimap<Value>) {
    forall i :: 0 <= i < |m| ==> !m[i].value.Empty?
  }

  // The values of one key, each announced by a set bit.
  function EncodeGroup(m: Multimap<Value>): Bits
    requires Supported(m)
  {
    if m == [] then [] else [true] + (EncodeValue(m[0].value) + EncodeGroup(m[1..]))
  }

  // The number of leading entries with the given key.
  function GroupLength(m: Multimap<Value>, key: Text): (n: nat)
    ensures n <= |m|
    ensures forall i :: 0 <= i < n ==> m[i].key == key
    ensures n < |m| ==> m[n].key != key
    ensures m != [] && m[0].key == key ==> n > 0
  {
    if m == [] || m[0].key != key then 0 else 1 + GroupLength(m[1..], key)
  }

  function EncodeMap(m: Multimap<Value>): Bits
    requires Supported(m)
    decreases |m|
  {
    if m == [] then [false]
    else
      var n := GroupLength(m, m[0].key);
      [true] + (EncodeString(m[0].key) + (EncodeGroup(m[..n]) + ([false] + EncodeMap(m[n..]))))
  }

  // ---------- decoding ----------

  function DecodeBit(s: Bits): (r: Parsed<bool>)
    ensures r.Ok? ==> |r.rest| < |s|
  {
    if s == [] then Fail else Ok(s[0], s[1..])
  }

  function DecodeBits(s: Bits, n: nat): (r: Parsed<nat>)
    ensures r.Ok? ==> |r.rest| + n == |s| && r.value < Pow2(n)
  {
    if |s| < n then Fail else Ok(ValueOf(s[..n]), s[n..])
  }

  // part << off in 64 bits
  function ShiftLeft64(part: nat, off: nat): (r: UInt64)
  {
    part * Pow2(off) % TWO_64
  }

  lemma {:induction false} OrFitsIn(a: nat, b: nat, k: nat)
    requires a < Pow2(k) && b < Pow2(k)
    ensures Or(a, b) < Pow2(k)
  {
    if k > 0 && (a != 0 || b != 0) {
      OrFitsIn(a / 2, b / 2, k - 1);
    }
  }

  lemma Pow64()
    ensures Pow2(64) == TWO_64
  {
    assert Pow2(8) == 256;
    Pow2Adds(8, 8);
    Pow2Adds(16, 16);
    Pow2Adds(32, 32);
  }

  function DecodeUnsignedFrom(s: Bits, result: UInt64, off: nat): (r: Parsed<UInt64>)
    ensures r.Ok? ==> |r.rest| < |s|
    decreases |s|
  {
    var (more, s1) :- DecodeBit(s);
    if !more then Ok(result, s1)
    else
      var (part, s2) :- DecodeBits(s1, 5);
      Pow64();
      OrFitsIn(result, ShiftLeft64(part, off), 64);
      DecodeUnsignedFrom(s2, Or(result, ShiftLeft64(part, off)), off + 5)
  }

  function DecodeUnsigned(s: Bits): (r: Parsed<UInt64>)
    ensures r.Ok? ==> |r.rest| < |s|
  {
    DecodeUnsignedFrom(s, 0, 0)
  }

  // static_cast<int64_t> of a uint64_t
  function AsInt64(u: UInt64): Int64 {
    if u < TWO_63 then u else u - TWO_64
  }

  // Negation in 64 bits; INT64_MIN stays what it is.
  function Negate64(x: Int64): Int64 {
    if x == -TWO_63 then x else -x
  }

  function DecodeInt(s: Bits): (r: Parsed<Int64>)
    ensures r.Ok? ==> |r.rest| < |s|
  {
    var (negative, s1) :- DecodeBit(s);
    var (u, s2) :- DecodeUnsigned(s1);
    Ok(if negative then Negate64(AsInt64(u)) else AsInt64(u), s2)
  }

  function DecodeBytes(s: Bits, n: nat): (r: Parsed<seq<Byte>>)
    ensures r.Ok? ==> |r.value| == n && |r.rest| <= |s|
  {
    if n == 0 then Ok([], s)
    else
      var (b, s1) :- DecodeBits(s, 8);
      assert Pow2(8) == 256;
      var (bytes, s2) :- DecodeBytes(s1, n - 1);
      Ok([b] + bytes, s2)
  }

  function ZeroBytes(n: nat): (b: seq<Byte>)
    ensures |b| == n
    ensures forall i :: 0 <= i < n ==> b[i] == 0
  {
    seq(n, _ => 0)
  }

  function DecodeDouble(s: Bits): (r: Parsed<Double>)
    ensures r.Ok? ==> |r.rest| < |s|
  {
    var (first, s1) :- DecodeBits(s, 3);
    assert Pow2(3) == 8;
    var (bytes, s2) :- DecodeBytes(s1, 8 - first);
    Ok(ZeroBytes(first) + bytes, s2)
  }

  function DecodeChar(s: Bits): (r: Parsed<Octet>)
    ensures r.Ok? ==> |r.rest| < |s|
  {
    var (v1, s1) :- DecodeBits(s, 7);
    assert Pow2(7) == 128 && Pow2(8) == 256;
    if v1 == 127 then
      var (v2, s2) :- DecodeBits(s1, 8);
      Ok(v2 as char, s2)
    else
      Ok(v1 as char, s1)
  }

  function DecodeChars(s: Bits, n: nat): (r: Parsed<Text>)
    ensures r.Ok? ==> |r.rest| <= |s|
  {
    if n == 0 then Ok([], s)
    else
      var (c, s1) :- DecodeChar(s);
      var (text, s2) :- DecodeChars(s1, n - 1);
      Ok([c] + text, s2)
  }

  // The length is kept in a 32-bit unsigned.
  function DecodeString(s: Bits): (r: Parsed<Text>)
    ensures r.Ok? ==> |r.rest| < |s|
  {
    var (n, s1) :- DecodeUnsigned(s);
    DecodeChars(s1, n % TWO_32)
  }

  // Conversion of an int64_t to int.
  function AsInt32(x: int): Int32 {
    (x + TWO_31) % TWO_32 - TWO_31
  }

  function DecodeTime(s: Bits): (r: Parsed<DateTime>)
    ensures r.Ok? ==> |r.rest| < |s|
  {
    var (ordinary, s1) :- DecodeBit(s);
    if ordinary then
      var (year, s2) :- DecodeInt(s1);
      var (month, s3) :- DecodeUnsigned(s2);
      var (day, s4) :- DecodeUnsigned(s3);
      var (haveSeconds, s5) :- DecodeBit(s4);
      var (second, s6) :- if haveSeconds then DecodeUnsigned(s5) else Ok(0, s5);
      Ok(At(AsInt32(year), month % TWO_32, day % TWO_32, second % TWO_32, 0), s6)
    else
      var (infinite, s2) :- DecodeBit(s1);
      if infinite then
        var (positive, s3) :- DecodeBit(s2);
        Ok(if positive then PosInfinity else NegInfinity, s3)
      else
        Ok(NotADateTime, s2)
  }

  function DecodeValue(s: Bits): (r: Parsed<Value>)
    ensures r.Ok? ==> |r.rest| < |s|
  {
    var (code, s1) :- DecodeBits(s, 4);
    if code == V_BOOL then
      var (b, s2) :- DecodeBit(s1);
      Ok(Bool(b), s2)
    else if code == V_INT then
      var (i, s2) :- DecodeInt(s1);
      Ok(Int(i), s2)
    else if code == V_UINT then
      var (u, s2) :- DecodeUnsigned(s1);
      Ok(UInt(u), s2)
    else if code == V_DOUBLE then
      var (d, s2) :- DecodeDouble(s1);
      Ok(Real(d), s2)
    else if code == V_STRING then
      var (text, s2) :- DecodeString(s1);
      Ok(String(text), s2)
    else if code == V_PTIME then
      var (t, s2) :- DecodeTime(s1);
      Ok(Time(t), s2)
    else if code == V_POINT then
      var (x, s2) :- DecodeDouble(s1);
      var (y, s3) :- DecodeDouble(s2);
      var (crs, s4) :- DecodeString(s3);
      Ok(Point(x, y, crs), s4)
    else if code == V_BBOX then
      var (xMin, s2) :- DecodeDouble(s1);
      var (yMin, s3) :- DecodeDouble(s2);
      var (xMax, s4) :- DecodeDouble(s3);
      var (yMax, s5) :- DecodeDouble(s4);
      var (crs, s6) :- DecodeString(s5);
      Ok(BBox(xMin, yMin, xMax, yMax, crs), s6)
    else
      Fail
  }

  // The values of one key, inserted into the map read so far.
  function DecodeGroup(s: Bits, key: Text, m: Multimap<Value>): (r: Parsed<Multimap<Value>>)
    ensures r.Ok? ==> |r.rest| < |s|
    decreases |s|
  {
    var (more, s1) :- DecodeBit(s);
    if !more then Ok(m, s1)
    else
      var (v, s2) :- DecodeValue(s1);
      DecodeGroup(s2, key, Insert(m, key, v))
  }

  function DecodeMapFrom(s: Bits, m: Multimap<Value>): (r: Parsed<Multimap<Value>>)
    ensures r.Ok? ==> |r.rest| < |s|
    decreases |s|
  {
    var (more, s1) :- DecodeBit(s);
    if !more then Ok(m, s1)
    else
      var (key, s2) :- DecodeString(s1);
      var (m', s3) :- DecodeGroup(s2, key, m);
      DecodeMapFrom(s3, m')
  }

  function DecodeMap(s: Bits): (r: Parsed<Multimap<Value>>)
    ensures r.Ok? ==> |r.rest| < |s|
  {
    DecodeMapFrom(s, [])
  }
}
