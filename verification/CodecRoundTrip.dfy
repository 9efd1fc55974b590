/** Reading back what was written, whatever bits follow. */
module CodecRoundTrip {
  import opened Texts
  import opened Sequences
  import opened BitStrings
  import opened Values
  import opened Multimaps
  import opened Codec

  lemma BitsRoundTrip(v: nat, n: nat, rest: Bits)
    requires v < Pow2(n)
    ensures DecodeBits(BitsOf(v, n) + rest, n) == Ok(v, rest)
  {
    ValueOfBitsOf(v, n);
    assert (BitsOf(v, n) + rest)[..n] == BitsOf(v, n);
    assert (BitsOf(v, n) + rest)[n..] == rest;
  }

  lemma BitRoundTrip(b: bool, rest: Bits)
    ensures DecodeBit([b] + rest) == Ok(b, rest)
  {
  }

  // One group: what it carries lies above the bits read before, so that | adds it.
  lemma ReadGroup(part: nat, result: UInt64, off: nat, tail: Bits)
    requires part < 32 && result < Pow2(off)
    requires result + part * Pow2(off) < TWO_64
    ensures DecodeUnsignedFrom([true] + (BitsOf(part, 5) + tail), result, off) ==
            DecodeUnsignedFrom(tail, result + part * Pow2(off), off + 5)
  {
    hide BitsOf, ValueOf, Or, DecodeBit, DecodeBits;
    assert Pow2(5) == 32;
    BitRoundTrip(true, BitsOf(part, 5) + tail);
    BitsRoundTrip(part, 5, tail);
    Multiple(part, Pow2(off));
    OrDisjoint(result, part * Pow2(off), off);
    assert ShiftLeft64(part, off) == part * Pow2(off);
  }

  // Decoding continues correctly from any group on: no set bit of the value is shifted out of 64 bits.
  lemma {:induction false} UnsignedRoundTripFrom(v: nat, result: UInt64, off: nat, rest: Bits)
    requires result < Pow2(off)
    requires result + v * Pow2(off) < TWO_64
    ensures DecodeUnsignedFrom(EncodeUnsigned(v) + rest, result, off) == Ok(result + v * Pow2(off), rest)
    decreases v
  {
    hide BitsOf, Pow2, DecodeBit, DecodeBits;
    if v == 0 {
      BitRoundTrip(false, rest);
    } else {
      var part, high := v % 32, v / 32;
      var tail := EncodeUnsigned(high) + rest;
      Regroup([true], BitsOf(part, 5) + EncodeUnsigned(high), rest);
      Regroup(BitsOf(part, 5), EncodeUnsigned(high), rest);
      var result' := AddGroup(v, result, off);
      ReadGroup(part, result, off, tail);
      hide DecodeUnsignedFrom;
      UnsignedRoundTripFrom(high, result', off + 5, rest);
    }
  }

  lemma AddGroup(v: nat, result: nat, off: nat) returns (result': nat)
    requires result < Pow2(off)
    ensures result' == result + v % 32 * Pow2(off)
    ensures result' < Pow2(off + 5)
    ensures result' + v / 32 * Pow2(off + 5) == result + v * Pow2(off)
  {
    result' := result + v % 32 * Pow2(off);
    SplitGroup(v, off);
    PartBelow(result, v % 32, off);
  }

  lemma SplitGroup(v: nat, off: nat)
    ensures v * Pow2(off) == v % 32 * Pow2(off) + v / 32 * Pow2(off + 5)
    ensures v % 32 * Pow2(off) <= v * Pow2(off)
  {
    assert Pow2(5) == 32;
    Pow2Adds(off, 5);
    var m, low, high := Pow2(off), v % 32, v / 32;
    assert v == low + 32 * high;
    assert v * m == low * m + (32 * high) * m;
    assert (32 * high) * m == high * (m * 32);
    assert high * (m * 32) >= 0;
  }

  lemma PartBelow(result: nat, part: nat, off: nat)
    requires result < Pow2(off) && part < 32
    ensures result + part * Pow2(off) < Pow2(off + 5)
  {
    assert Pow2(5) == 32;
    Pow2Adds(off, 5);
    var m := Pow2(off);
    assert part * m <= 31 * m;
  }

  lemma UnsignedRoundTrip(v: UInt64, rest: Bits)
    ensures DecodeUnsigned(EncodeUnsigned(v) + rest) == Ok(v, rest)
  {
    assert Pow2(0) == 1;
    UnsignedRoundTripFrom(v, 0, 0, rest);
  }

  // The number of base-32 digits.
  function Digits(v: nat): nat {
    if v == 0 then 0 else 1 + Digits(v / 32)
  }

  lemma {:induction false} DigitsBound(v: nat, k: nat)
    requires v < Pow2(5 * k)
    ensures Digits(v) <= k
  {
    if v > 0 {
      assert k > 0 by { assert Pow2(0) == 1; }
      assert Pow2(5) == 32;
      Pow2Adds(5, 5 * (k - 1));
      DigitsBound(v / 32, k - 1);
    }
  }

  // 6k + 1 bits for k digits, and never more than 13 digits: no shift exceeds 60.
  lemma {:induction false} UnsignedLength(v: nat)
    ensures |EncodeUnsigned(v)| == 6 * Digits(v) + 1
    ensures v < TWO_64 ==> Digits(v) <= 13
  {
    if v > 0 {
      UnsignedLength(v / 32);
    }
    if v < TWO_64 {
      Pow64();
      assert Pow2(1) == 2;
      Pow2Adds(64, 1);
      DigitsBound(v, 13);
    }
  }

  // No encoding is a proper prefix of another one.
  lemma UnsignedPrefixFree(v: UInt64, w: UInt64)
    requires EncodeUnsigned(v) <= EncodeUnsigned(w)
    ensures v == w
  {
    var rest := EncodeUnsigned(w)[|EncodeUnsigned(v)|..];
    assert EncodeUnsigned(w) == EncodeUnsigned(v) + rest;
    UnsignedRoundTrip(v, rest);
    UnsignedRoundTrip(w, []);
    assert EncodeUnsigned(w) + [] == EncodeUnsigned(w);
  }

  lemma IntRoundTrip(v: Int64, rest: Bits)
    requires v != -TWO_63
    ensures DecodeInt(EncodeInt(v) + rest) == Ok(v, rest)
  {
    var u := if v >= 0 then v else -v;
    hide EncodeUnsigned, DecodeUnsigned, DecodeBit;
    Regroup([v < 0], EncodeUnsigned(u), rest);
    BitRoundTrip(v < 0, EncodeUnsigned(u) + rest);
    UnsignedRoundTrip(u, rest);
  }

  lemma {:induction false} BytesRoundTrip(d: seq<Byte>, rest: Bits)
    ensures DecodeBytes(EncodeBytes(d) + rest, |d|) == Ok(d, rest)
  {
    if d == [] {
      assert EncodeBytes(d) + rest == rest;
    } else {
      hide BitsOf, ValueOf, DecodeBits;
      assert Pow2(8) == 256;
      Regroup(BitsOf(d[0], 8), EncodeBytes(d[1..]), rest);
      BitsRoundTrip(d[0], 8, EncodeBytes(d[1..]) + rest);
      BytesRoundTrip(d[1..], rest);
      assert [d[0]] + d[1..] == d;
    }
  }

  lemma DoubleRoundTrip(d: Double, rest: Bits)
    ensures DecodeDouble(EncodeDouble(d) + rest) == Ok(d, rest)
  {
    var n := LeadingZeros(d);
    hide BitsOf, ValueOf, DecodeBits, EncodeBytes, DecodeBytes;
    assert Pow2(3) == 8;
    Regroup(BitsOf(n, 3), EncodeBytes(d[n..]), rest);
    BitsRoundTrip(n, 3, EncodeBytes(d[n..]) + rest);
    BytesRoundTrip(d[n..], rest);
    assert ZeroBytes(n) + d[n..] == d;
  }

  lemma CharRoundTrip(c: Octet, rest: Bits)
    ensures DecodeChar(EncodeChar(c) + rest) == Ok(c, rest)
  {
    hide BitsOf, ValueOf, DecodeBits;
    assert Pow2(7) == 128 && Pow2(8) == 256;
    if c as int > 126 {
      Regroup(BitsOf(127, 7), BitsOf(c as int, 8), rest);
      BitsRoundTrip(127, 7, BitsOf(c as int, 8) + rest);
      BitsRoundTrip(c as int, 8, rest);
    } else {
      BitsRoundTrip(c as int, 7, rest);
    }
  }

  lemma {:induction false} CharsRoundTrip(s: Text, rest: Bits)
    ensures DecodeChars(EncodeChars(s) + rest, |s|) == Ok(s, rest)
  {
    hide EncodeChar, DecodeChar;
    if s == [] {
      assert EncodeChars(s) + rest == rest;
    } else {
      Regroup(EncodeChar(s[0]), EncodeChars(s[1..]), rest);
      CharRoundTrip(s[0], EncodeChars(s[1..]) + rest);
      CharsRoundTrip(s[1..], rest);
      assert [s[0]] + s[1..] == s;
    }
  }

  lemma StringRoundTrip(s: Text, rest: Bits)
    requires Short(s)
    ensures DecodeString(EncodeString(s) + rest) == Ok(s, rest)
  {
    hide EncodeChars, DecodeChars, EncodeUnsigned, DecodeUnsigned;
    Regroup(EncodeUnsigned(|s|), EncodeChars(s), rest);
    UnsignedRoundTrip(|s|, EncodeChars(s) + rest);
    CharsRoundTrip(s, rest);
  }

  lemma TimeRoundTrip(t: DateTime, rest: Bits)
    ensures DecodeTime(EncodeTime(t) + rest) == Ok(WholeSeconds(Time(t)).t, rest)
  {
    match t
    case NotADateTime =>
      assert EncodeTime(t) + rest == [false] + ([false] + rest);
    case NegInfinity =>
      assert EncodeTime(t) + rest == [false] + ([true] + ([false] + rest));
    case PosInfinity =>
      assert EncodeTime(t) + rest == [false] + ([true] + ([true] + rest));
    case At(year, month, day, second, micros) =>
      OrdinaryTimeRoundTrip(year, month, day, second, micros, rest);
  }

  lemma OrdinaryTimeRoundTrip(year: Int32, month: UInt32, day: UInt32, second: UInt32, micros: nat, rest: Bits)
    ensures DecodeTime(EncodeTime(At(year, month, day, second, micros)) + rest) ==
            Ok(At(year, month, day, second, 0), rest)
  {
    hide EncodeInt, DecodeInt, EncodeUnsigned, DecodeUnsigned, DecodeBit;
    var s := EncodeSeconds(second);
    var d := EncodeUnsigned(day) + s;
    var m := EncodeUnsigned(month) + d;
    var y := EncodeInt(year) + m;
    Regroup([true], y, rest);
    Regroup(EncodeInt(year), m, rest);
    Regroup(EncodeUnsigned(month), d, rest);
    Regroup(EncodeUnsigned(day), s, rest);
    BitRoundTrip(true, y + rest);
    IntRoundTrip(year, m + rest);
    UnsignedRoundTrip(month, d + rest);
    UnsignedRoundTrip(day, s + rest);
    if second != 0 {
      Regroup([true], EncodeUnsigned(second), rest);
      BitRoundTrip(true, EncodeUnsigned(second) + rest);
      UnsignedRoundTrip(second, rest);
    } else {
      BitRoundTrip(false, rest);
    }
  }

  lemma PointRoundTrip(x: Double, y: Double, crs: Text, rest: Bits)
    requires Short(crs)
    ensures DecodeValue(EncodeValue(Point(x, y, crs)) + rest) == Ok(Point(x, y, crs), rest)
  {
    hide EncodeDouble, DecodeDouble, EncodeString, DecodeString, BitsOf, ValueOf, DecodeBits;
    var c := EncodeString(crs);
    var s1 := EncodeDouble(y) + c;
    var s0 := EncodeDouble(x) + s1;
    assert Pow2(4) == 16;
    Regroup(BitsOf(V_POINT, 4), s0, rest);
    Regroup(EncodeDouble(x), s1, rest);
    Regroup(EncodeDouble(y), c, rest);
    BitsRoundTrip(V_POINT, 4, s0 + rest);
    DoubleRoundTrip(x, s1 + rest);
    DoubleRoundTrip(y, c + rest);
    StringRoundTrip(crs, rest);
  }

  lemma BBoxRoundTrip(xMin: Double, yMin: Double, xMax: Double, yMax: Double, crs: Text, rest: Bits)
    requires Short(crs)
    ensures DecodeValue(EncodeValue(BBox(xMin, yMin, xMax, yMax, crs)) + rest) ==
            Ok(BBox(xMin, yMin, xMax, yMax, crs), rest)
  {
    hide EncodeDouble, DecodeDouble, EncodeString, DecodeString, BitsOf, ValueOf, DecodeBits;
    var c := EncodeString(crs);
    var s3 := EncodeDouble(yMax) + c;
    var s2 := EncodeDouble(xMax) + s3;
    var s1 := EncodeDouble(yMin) + s2;
    var s0 := EncodeDouble(xMin) + s1;
    assert Pow2(4) == 16;
    Regroup(BitsOf(V_BBOX, 4), s0, rest);
    Regroup(EncodeDouble(xMin), s1, rest);
    Regroup(EncodeDouble(yMin), s2, rest);
    Regroup(EncodeDouble(xMax), s3, rest);
    Regroup(EncodeDouble(yMax), c, rest);
    BitsRoundTrip(V_BBOX, 4, s0 + rest);
    DoubleRoundTrip(xMin, s1 + rest);
    DoubleRoundTrip(yMin, s2 + rest);
    DoubleRoundTrip(xMax, s3 + rest);
    DoubleRoundTrip(yMax, c + rest);
    StringRoundTrip(crs, rest);
  }

  lemma ValueRoundTrip(v: Value, rest: Bits)
    requires Encodable(v)
    ensures DecodeValue(EncodeValue(v) + rest) == Ok(WholeSeconds(v), rest)
  {
    hide EncodeDouble, DecodeDouble, EncodeString, DecodeString, EncodeInt, DecodeInt, EncodeUnsigned, DecodeUnsigned,
         EncodeTime, DecodeTime, BitsOf, ValueOf, DecodeBits;
    assert Pow2(4) == 16;
    match v
    case Bool(b) =>
      Regroup(BitsOf(V_BOOL, 4), [b], rest);
      BitsRoundTrip(V_BOOL, 4, [b] + rest);
    case Int(i) =>
      Regroup(BitsOf(V_INT, 4), EncodeInt(i), rest);
      BitsRoundTrip(V_INT, 4, EncodeInt(i) + rest);
      IntRoundTrip(i, rest);
    case UInt(u) =>
      Regroup(BitsOf(V_UINT, 4), EncodeUnsigned(u), rest);
      BitsRoundTrip(V_UINT, 4, EncodeUnsigned(u) + rest);
      UnsignedRoundTrip(u, rest);
    case Real(d) =>
      Regroup(BitsOf(V_DOUBLE, 4), EncodeDouble(d), rest);
      BitsRoundTrip(V_DOUBLE, 4, EncodeDouble(d) + rest);
      DoubleRoundTrip(d, rest);
    case String(s) =>
      Regroup(BitsOf(V_STRING, 4), EncodeString(s), rest);
      BitsRoundTrip(V_STRING, 4, EncodeString(s) + rest);
      StringRoundTrip(s, rest);
    case Time(t) =>
      Regroup(BitsOf(V_PTIME, 4), EncodeTime(t), rest);
      BitsRoundTrip(V_PTIME, 4, EncodeTime(t) + rest);
      TimeRoundTrip(t, rest);
    case Point(x, y, crs) =>
      PointRoundTrip(x, y, crs, rest);
    case BBox(xMin, yMin, xMax, yMax, crs) =>
      BBoxRoundTrip(xMin, yMin, xMax, yMax, crs, rest);
  }

  // ---------- multimaps ----------

  ghost predicate EncodableMap(m: Multimap<Value>) {
    && Sorted(m)
    && Supported(m)
    && forall i :: 0 <= i < |m| ==> Short(m[i].key) && Encodable(m[i].value)
  }

  // What is left of a multimap: times lose their fractions of a second.
  function WholeSecondsMap(m: Multimap<Value>): (r: Multimap<Value>)
    ensures |r| == |m|
    ensures forall i :: 0 <= i < |m| ==> r[i] == Entry(m[i].key, WholeSeconds(m[i].value))
  {
    seq(|m|, i requires 0 <= i < |m| => Entry(m[i].key, WholeSeconds(m[i].value)))
  }

  lemma {:induction false} GroupRoundTrip(g: Multimap<Value>, key: Text, m: Multimap<Value>, rest: Bits)
    requires Supported(g)
    requires forall i :: 0 <= i < |g| ==> g[i].key == key && Encodable(g[i].value)
    requires m != [] ==> AtMost(m[|m| - 1].key, key)
    ensures DecodeGroup(EncodeGroup(g) + ([false] + rest), key, m) == Ok(m + WholeSecondsMap(g), rest)
  {
    hide EncodeValue, DecodeValue, DecodeBit;
    if g == [] {
      assert EncodeGroup(g) + ([false] + rest) == [false] + rest;
      BitRoundTrip(false, rest);
      assert m + WholeSecondsMap(g) == m;
    } else {
      var v, tail := g[0].value, EncodeGroup(g[1..]) + ([false] + rest);
      Regroup([true], EncodeValue(v) + EncodeGroup(g[1..]), [false] + rest);
      Regroup(EncodeValue(v), EncodeGroup(g[1..]), [false] + rest);
      BitRoundTrip(true, EncodeValue(v) + tail);
      ValueRoundTrip(v, tail);
      var m' := Insert(m, key, WholeSeconds(v));
      AtMostReflexive(key);
      GroupRoundTrip(g[1..], key, m', rest);
      assert m' + WholeSecondsMap(g[1..]) == m + WholeSecondsMap(g);
    }
  }

  // The entries of the first key are read back as one group.
  lemma ReadKey(m: Multimap<Value>, n: nat, done: Multimap<Value>, tail: Bits)
    requires 0 < n <= |m| && Supported(m) && Short(m[0].key)
    requires forall i :: 0 <= i < n ==> m[i].key == m[0].key && Encodable(m[i].value)
    requires done != [] ==> AtMost(done[|done| - 1].key, m[0].key)
    ensures DecodeMapFrom([true] + (EncodeString(m[0].key) + (EncodeGroup(m[..n]) + ([false] + tail))), done) ==
            DecodeMapFrom(tail, done + WholeSecondsMap(m[..n]))
  {
    hide EncodeString, EncodeGroup, DecodeString, DecodeGroup, AtMost, Encodable, DecodeBit;
    var key := m[0].key;
    var s2 := EncodeGroup(m[..n]) + ([false] + tail);
    BitRoundTrip(true, EncodeString(key) + s2);
    StringRoundTrip(key, s2);
    GroupRoundTrip(m[..n], key, done, tail);
  }

  lemma WithoutFirstKey(m: Multimap<Value>, n: nat)
    requires EncodableMap(m) && 0 < n <= |m|
    ensures EncodableMap(m[n..])
    ensures n < |m| ==> AtMost(m[n - 1].key, m[n..][0].key)
    ensures WholeSecondsMap(m) == WholeSecondsMap(m[..n]) + WholeSecondsMap(m[n..])
  {
  }

  lemma FirstKeyEncoded(m: Multimap<Value>, rest: Bits)
    requires m != [] && Supported(m)
    ensures var n := GroupLength(m, m[0].key);
      EncodeMap(m) + rest ==
      [true] + (EncodeString(m[0].key) + (EncodeGroup(m[..n]) + ([false] + (EncodeMap(m[n..]) + rest))))
  {
    hide EncodeString, EncodeGroup, GroupLength;
    var n := GroupLength(m, m[0].key);
    var g := EncodeGroup(m[..n]) + ([false] + EncodeMap(m[n..]));
    Regroup([true], EncodeString(m[0].key) + g, rest);
    Regroup(EncodeString(m[0].key), g, rest);
    Regroup(EncodeGroup(m[..n]), [false] + EncodeMap(m[n..]), rest);
    Regroup([false], EncodeMap(m[n..]), rest);
  }

  lemma LastKey(m: Multimap<Value>, n: nat, done: Multimap<Value>)
    requires 0 < n <= |m|
    ensures var done' := done + WholeSecondsMap(m[..n]);
      done' != [] && done'[|done'| - 1].key == m[n - 1].key
  {
    assert WholeSecondsMap(m[..n])[n - 1].key == m[n - 1].key;
  }

  lemma {:induction false} MapRoundTripFrom(m: Multimap<Value>, done: Multimap<Value>, rest: Bits)
    requires EncodableMap(m)
    requires done != [] && m != [] ==> AtMost(done[|done| - 1].key, m[0].key)
    ensures DecodeMapFrom(EncodeMap(m) + rest, done) == Ok(done + WholeSecondsMap(m), rest)
    decreases |m|
  {
    if m == [] {
      BitRoundTrip(false, rest);
      assert done + WholeSecondsMap(m) == done;
    } else {
      hide EncodeString, EncodeGroup, EncodeMap, DecodeMapFrom, AtMost, Encodable, GroupLength, Sorted, WholeSecondsMap;
      var n := GroupLength(m, m[0].key);
      var done' := done + WholeSecondsMap(m[..n]);
      FirstKeyEncoded(m, rest);
      ReadKey(m, n, done, EncodeMap(m[n..]) + rest);
      WithoutFirstKey(m, n);
      LastKey(m, n, done);
      MapRoundTripFrom(m[n..], done', rest);
      Regroup(done, WholeSecondsMap(m[..n]), WholeSecondsMap(m[n..]));
    }
  }

  // Reading returns the multimap, with the order within each key, and stops where writing stopped.
  lemma MapRoundTrip(m: Multimap<Value>, rest: Bits)
    requires EncodableMap(m)
    ensures DecodeMap(EncodeMap(m) + rest) == Ok(WholeSecondsMap(m), rest)
  {
    MapRoundTripFrom(m, [], rest);
    assert [] + WholeSecondsMap(m) == WholeSecondsMap(m);
  }
}
