/** The bit format of the stream, said bit by bit. */
module CodecFormat {
  import opened Texts
  import opened BitStrings
  import opened Values
  import opened Multimaps
  import opened Codec
  import opened CodecRoundTrip

  lemma DivideBy(v: nat, a: nat, b: nat)
    requires a > 0 && b > 0
    ensures a * b > 0 && v / a / b == v / (a * b)
  {
    var q, r := v / a / b, v / a % b;
    assert v / a == b * q + r;
    assert v == a * (v / a) + v % a;
    Spread(a, b, q, r);
    assert v == (a * b) * q + (a * r + v % a);
    Below(a, b, r, v % a);
    DivideUnique(v, a * b, q, a * r + v % a);
  }

  lemma Spread(a: nat, b: nat, q: nat, r: nat)
    ensures a * (b * q + r) == (a * b) * q + a * r
  {
  }

  lemma Below(a: nat, b: nat, r: nat, s: nat)
    requires s < a && r < b
    ensures a * r + s < a * b
  {
    assert a * (r + 1) <= a * b by {
      MultiplyUp(a, r + 1, b);
    }
  }

  lemma MultiplyUp(a: nat, x: nat, y: nat)
    requires x <= y
    ensures a * x <= a * y
  {
  }

  lemma DigitShift(v: nat, i: nat)
    ensures v / 32 / Pow2(5 * i) == v / Pow2(5 * (i + 1))
  {
    assert Pow2(5) == 32;
    Pow2Adds(5, 5 * i);
    DivideBy(v, 32, Pow2(5 * i));
    assert 5 + 5 * i == 5 * (i + 1);
  }

  lemma BehindDigit(digit: Bits, rest: Bits, i: nat)
    requires |digit| == 5 && 6 * i < |rest|
    ensures var e := [true] + (digit + rest);
      && e[0] && e[1..6] == digit && e[6 * (i + 1)] == rest[6 * i]
      && (6 * i + 6 <= |rest| ==> e[6 * (i + 1) + 1..6 * (i + 1) + 6] == rest[6 * i + 1..6 * i + 6])
  {
    var e := [true] + (digit + rest);
    assert forall k :: 0 <= k < |rest| ==> e[6 + k] == rest[k];
  }

  // The digits of a number to base 32 stand in it from the lowest one up, each behind a set bit, and a
  // clear bit ends them.
  lemma {:induction false} UnsignedDigits(v: nat, i: nat)
    ensures |EncodeUnsigned(v)| == 6 * Digits(v) + 1 && !EncodeUnsigned(v)[6 * Digits(v)]
    ensures i < Digits(v) ==>
      var e := EncodeUnsigned(v);
      e[6 * i] && ValueOf(e[6 * i + 1..6 * i + 6]) == v / Pow2(5 * i) % 32
  {
    hide BitsOf, ValueOf, Pow2, EncodeUnsigned, Digits;
    UnsignedLength(v);
    UnsignedStep(v);
    if v > 0 {
      var digit, rest := BitsOf(v % 32, 5), EncodeUnsigned(v / 32);
      UnsignedLength(v / 32);
      BehindDigit(digit, rest, Digits(v / 32));
      if i == 0 {
        FirstDigit(v);
        UnsignedDigits(v / 32, 0);
        BehindDigit(digit, rest, 0);
      } else {
        UnsignedDigits(v / 32, i - 1);
        if i < Digits(v) {
          DigitShift(v, i - 1);
          BehindDigit(digit, rest, i - 1);
        }
      }
    }
  }

  lemma UnsignedStep(v: nat)
    ensures v == 0 ==> EncodeUnsigned(v) == [false] && Digits(v) == 0
    ensures v > 0 ==> Digits(v) == 1 + Digits(v / 32) && |BitsOf(v % 32, 5)| == 5
    ensures v > 0 ==> EncodeUnsigned(v) == [true] + (BitsOf(v % 32, 5) + EncodeUnsigned(v / 32))
  {
  }

  lemma FirstDigit(v: nat)
    ensures ValueOf(BitsOf(v % 32, 5)) == v % 32 && v / Pow2(5 * 0) == v
  {
    assert Pow2(5) == 32;
    ValueOfBitsOf(v % 32, 5);
  }

  // The number of a type in the stream.
  function TypeNumber(v: Value): nat
    requires !v.Empty?
  {
    match v
    case Bool(_) => 1
    case Int(_) => 2
    case UInt(_) => 3
    case Real(_) => 4
    case String(_) => 5
    case Time(_) => 6
    case Point(_, _, _) => 7
    case BBox(_, _, _, _, _) => 8
  }

  lemma TypeFirst(v: Value)
    requires !v.Empty?
    ensures |EncodeValue(v)| >= 4 && ValueOf(EncodeValue(v)[..4]) == TypeNumber(v)
  {
    var n := TypeNumber(v);
    assert Pow2(4) == 16;
    ValueOfBitsOf(n, 4);
    hide ValueOf, BitsOf, EncodeInt, EncodeUnsigned, EncodeDouble, EncodeString, EncodeTime, Pow2;
    assert EncodeValue(v)[..4] == BitsOf(n, 4);
  }

  // Other numbers are refused.
  lemma UnknownType(code: nat, rest: Bits)
    requires code < 16 && (code == 0 || code > 8)
    ensures DecodeValue(BitsOf(code, 4) + rest).Fail?
  {
    assert Pow2(4) == 16;
    BitsRoundTrip(code, 4, rest);
    hide DecodeBits;
  }

  // A multimap of one entry: a set bit, the key, a set bit, the value, and two clear bits.
  lemma OneEntry(key: Text, value: Value)
    requires !value.Empty?
    ensures EncodeMap([]) == [false]
    ensures EncodeMap([Entry(key, value)]) == [true] + EncodeString(key) + [true] + EncodeValue(value) + [false, false]
  {
    hide EncodeString, EncodeValue;
    var m := [Entry(key, value)];
    assert m[..1] == m && m[1..] == [];
    assert GroupLength(m[1..], key) == 0;
    assert GroupLength(m, key) == 1;
    assert EncodeGroup(m) == [true] + (EncodeValue(value) + EncodeGroup([]));
    assert EncodeGroup([]) == [] && EncodeMap([]) == [false];
  }

  // -37 is a set sign bit, the digits 5 and 1, and the end.
  lemma SignedExample()
    ensures EncodeInt(-37) == [true] + [true, false, false, true, false, true]
                              + [true, false, false, false, false, true] + [false]
    ensures EncodeInt(0) == [false, false]
  {
    assert BitsOf(5, 5) == [false, false, true, false, true];
    assert BitsOf(1, 5) == [false, false, false, false, true];
    assert EncodeUnsigned(0) == [false];
    assert EncodeUnsigned(1) == [true] + (BitsOf(1, 5) + EncodeUnsigned(0));
    assert EncodeUnsigned(37) == [true] + (BitsOf(5, 5) + EncodeUnsigned(1));
  }

  // A character up to 126 takes seven bits; a greater one eight bits behind seven set ones.
  lemma CharFormat(c: Octet)
    ensures if c as int <= 126 then |EncodeChar(c)| == 7 && ValueOf(EncodeChar(c)) == c as int
            else |EncodeChar(c)| == 15 && EncodeChar(c)[..7] == [true, true, true, true, true, true, true]
                 && ValueOf(EncodeChar(c)[7..]) == c as int
  {
    assert Pow2(7) == 128 && Pow2(8) == 256;
    assert BitsOf(127, 7) == [true, true, true, true, true, true, true];
    ValueOfBitsOf(c as int, if c as int <= 126 then 7 else 8);
    hide ValueOf, BitsOf, Pow2;
    if c as int > 126 {
      assert EncodeChar(c)[..7] == BitsOf(127, 7) && EncodeChar(c)[7..] == BitsOf(c as int, 8);
    }
  }

  // The first three bits of a double count its leading zero bytes, up to seven; the other bytes follow.
  lemma DoubleFormat(d: Double, n: nat)
    requires n <= 7 && (forall i :: 0 <= i < n ==> d[i] == 0) && (n < 7 ==> d[n] != 0)
    ensures var e := EncodeDouble(d);
      |e| >= 3 && ValueOf(e[..3]) == n && e[3..] == EncodeBytes(d[n..])
  {
    assert LeadingZeros(d) == n;
    assert Pow2(3) == 8;
    ValueOfBitsOf(n, 3);
    hide ValueOf, BitsOf, Pow2;
    assert EncodeDouble(d)[..3] == BitsOf(n, 3);
  }

  // Special times are two or three bits; an ordinary one has year, month, day and, unless it is
  // midnight, the second of the day.
  lemma TimeFormat(year: Int32, month: UInt32, day: UInt32, second: UInt32, micros: nat)
    ensures EncodeTime(NotADateTime) == [false, false]
    ensures EncodeTime(NegInfinity) == [false, true, false] && EncodeTime(PosInfinity) == [false, true, true]
    ensures var date := [true] + EncodeInt(year) + EncodeUnsigned(month) + EncodeUnsigned(day);
      EncodeTime(At(year, month, day, second, micros)) ==
      if second == 0 then date + [false] else date + [true] + EncodeUnsigned(second)
  {
    hide EncodeInt, EncodeUnsigned;
  }
}
