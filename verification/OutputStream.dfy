/** OBStream: a growing byte buffer filled bit by bit, most significant bit first. */
module OutputStream {
  import opened Texts
  import opened Sequences
  import opened BitStrings
  import opened Values
  import opened Multimaps
  import opened Codec
  import opened Packing

  const BLOCK_SIZE := 256

  lemma FitsByte(value: nat, n: nat)
    requires n <= 8 && value < Pow2(n)
    ensures value * Pow2(8 - n) < 256
  {
    assert Pow2(8) == 256;
    Pow2Adds(n, 8 - n);
    hide Pow2;
    BelowTimes(value, Pow2(n), Pow2(8 - n));
  }

  lemma BelowTimes(a: nat, b: nat, m: nat)
    requires a < b && m > 0
    ensures a * m < b * m
  {
  }

  // Putting the next bit into a byte whose last k + 1 bits are still zero.
  lemma AppendBit(b: Bits, v: bool, k: nat)
    requires |b| + k == 7
    ensures ValueOf(b + [v]) * Pow2(k) ==
            if v then Or(ValueOf(b) * Pow2(k + 1), Pow2(k)) else ValueOf(b) * Pow2(k + 1)
    ensures ValueOf(b + [v]) * Pow2(k) < 256
  {
    FitsByte(ValueOf(b + [v]), |b| + 1);
    assert 8 - (|b| + 1) == k;
    ValueOfLonger(b, v);
    SetLowest(ValueOf(b), Pow2(k), k);
    DoubledPower(ValueOf(b), k);
    hide Or, ValueOf, Pow2;
  }

  lemma StartUnchanged(b: Bits, v: bool, ind: nat)
    requires 8 * ind <= |b|
    ensures (b + [v])[8 * ind..] == b[8 * ind..] + [v]
    ensures forall i :: 0 <= i < ind ==> (b + [v])[8 * i..8 * i + 8] == b[8 * i..8 * i + 8]
  {
  }

  lemma OneMoreBit(o: Bits, b: Bits, i: nat)
    requires i < |b|
    ensures o + b[..i] + [b[i]] == o + b[..i + 1]
  {
  }

  lemma {:induction false} LeadingZerosUnique(d: seq<Byte>, n: nat)
    requires n < |d| && (forall i :: 0 <= i < n ==> d[i] == 0) && (n < |d| - 1 ==> d[n] != 0)
    ensures LeadingZeros(d) == n
  {
    if n > 0 {
      LeadingZerosUnique(d[1..], n - 1);
    }
  }

  lemma EmptyMapEncoded()
    ensures EncodeMap([]) == [false]
  {
  }

  lemma FirstGroup(o: Bits, m: Multimap<Value>, n: nat)
    requires m != [] && Supported(m) && n == GroupLength(m, m[0].key)
    ensures o + EncodeMap(m) ==
            o + [true] + EncodeString(m[0].key) + EncodeGroup(m[..n]) + [false] + EncodeMap(m[n..])
  {
    hide EncodeString, EncodeGroup, GroupLength;
    Regroup4(o + [true], EncodeString(m[0].key), EncodeGroup(m[..n]), [false], EncodeMap(m[n..]));
    Regroup(o, [true], EncodeString(m[0].key) + (EncodeGroup(m[..n]) + ([false] + EncodeMap(m[n..]))));
  }

  // The bytes before ind are full, the one at ind holds num_bits bits, the rest is zero.
  ghost predicate StoredIn(d: seq<Byte>, ind: nat, num_bits: nat, bits: Bits) {
    && ind < |d| && num_bits <= 8 && |bits| == 8 * ind + num_bits
    && (forall i :: 0 <= i < ind ==> d[i] == ValueOf(bits[8 * i..8 * i + 8]))
    && d[ind] == ValueOf(bits[8 * ind..]) * Pow2(8 - num_bits)
    && (forall i :: ind < i < |d| ==> d[i] == 0)
  }

  lemma StoreBit(d: seq<Byte>, ind: nat, num_bits: nat, bits: Bits, val: bool)
    requires StoredIn(d, ind, num_bits, bits) && num_bits < 8
    ensures var b := if val then Or(d[ind], Pow2(7 - num_bits)) else d[ind];
      b < 256 && StoredIn(d[ind := b], ind, num_bits + 1, bits + [val])
  {
    hide Or, ValueOf, Pow2;
    AppendBit(bits[8 * ind..], val, 7 - num_bits);
    StartUnchanged(bits, val, ind);
  }

  lemma StoreNothing(d: seq<Byte>, ind: nat, bits: Bits)
    requires StoredIn(d, ind, 8, bits) && ind + 1 < |d|
    ensures StoredIn(d, ind + 1, 0, bits)
  {
    assert bits[8 * ind..8 * ind + 8] == bits[8 * ind..];
    assert bits[8 * (ind + 1)..] == [];
  }

  lemma StoreLonger(d: seq<Byte>, d': seq<Byte>, ind: nat, num_bits: nat, bits: Bits)
    requires StoredIn(d, ind, num_bits, bits) && d <= d' && forall i :: |d| <= i < |d'| ==> d'[i] == 0
    ensures StoredIn(d', ind, num_bits, bits)
  {
    hide ValueOf, Pow2;
  }

  lemma {:induction false} PackedFrom(d: seq<Byte>, ind: nat, num_bits: nat, bits: Bits, k: nat)
    requires StoredIn(d, ind, num_bits, bits) && (ind > 0 ==> num_bits > 0) && k <= ind
    ensures Pack(bits[8 * k..]) == d[k..ind + 1]
    decreases ind - k
  {
    hide ValueOf, Pow2;
    var tail := bits[8 * k..];
    if k == ind {
      ValueOfPadded(tail, 8 - num_bits);
      assert d[k..ind + 1] == [d[k]];
    } else {
      PackedFrom(d, ind, num_bits, bits, k + 1);
      assert tail[..8] == bits[8 * k..8 * k + 8] && tail[8..] == bits[8 * (k + 1)..];
      assert |tail| > 8;
      assert d[k..ind + 1] == [d[k]] + d[k + 1..ind + 1];
    }
  }

  class OBStream {
    var reserved: nat
    var data: array<Byte>
    var ind: nat
    var num_bits: nat
    ghost var bits: Bits  // everything written so far

    ghost predicate Stored()
      reads this, data
    {
      ind < reserved == data.Length && reserved % BLOCK_SIZE == 0 && StoredIn(data[..], ind, num_bits, bits)
    }

    // Between calls no byte has been started without a bit in it, save the first one.
    ghost predicate Valid()
      reads this, data
    {
      Stored() && (ind > 0 ==> num_bits > 0)
    }

    constructor ()
      ensures Valid() && fresh(data) && bits == []
    {
      reserved := BLOCK_SIZE;
      data := new Byte[BLOCK_SIZE](_ => 0);
      ind := 0;
      num_bits := 0;
      bits := [];
    }

    // The stored bytes are the packed bits: max(1, ceil(n / 8)) of them.
    method RawData() returns (bytes: seq<Byte>)
      requires Valid()
      ensures bytes == Pack(bits)
      ensures |bytes| == if bits == [] then 1 else (|bits| + 7) / 8
    {
      hide StoredIn;
      StoredFits();
      bytes := data[..ind + 1];
      PackedFrom(data[..], ind, num_bits, bits, 0);
      PackLength(bits);
      assert bits[0..] == bits && data[..][0..ind + 1] == data[..ind + 1];
    }

    lemma StoredFits()
      requires Stored()
      ensures num_bits <= 8 && |bits| == 8 * ind + num_bits
    {
    }

    // A new block, the old bytes in front and zeros behind.
    method Grow()
      requires ind == reserved == data.Length
      modifies this`data, this`reserved
      ensures fresh(data) && reserved == old(reserved) + BLOCK_SIZE == data.Length
      ensures forall i :: 0 <= i < old(reserved) ==> data[i] == old(data[i])
      ensures forall i :: old(reserved) <= i < reserved ==> data[i] == 0
    {
      var tmp := data;
      data := new Byte[reserved + BLOCK_SIZE](_ => 0);
      for i := 0 to reserved
        invariant fresh(data) && data != tmp && data.Length == old(reserved) + BLOCK_SIZE && reserved == old(reserved)
        invariant forall k :: 0 <= k < i ==> data[k] == old(data[k])
        invariant forall k :: i <= k < data.Length ==> data[k] == 0
        invariant tmp == old(data)
        invariant forall k :: 0 <= k < reserved ==> tmp[k] == old(data[k])
      {
        data[i] := tmp[i];
      }
      reserved := reserved + BLOCK_SIZE;
    }

    method NextByte()
      requires Stored() && num_bits == 8
      modifies this, data
      ensures Stored() && num_bits == 0 && bits == old(bits)
      ensures data == old(data) || fresh(data)
    {
      hide StoredIn;
      ghost var d := data[..];
      ind := ind + 1;
      if ind >= reserved {
        Grow();
        assert d <= data[..];
        StoreLonger(d, data[..], ind - 1, 8, bits);
      }
      StoreNothing(data[..], ind - 1, bits);
      num_bits := 0;
    }

    method PutBit(val: bool)
      requires Valid()
      modifies this, data
      ensures Valid() && bits == old(bits) + [val]
      ensures data == old(data) || fresh(data)
    {
      hide StoredIn, Or, Pow2;
      StoredFits();
      if num_bits >= 8 {
        NextByte();
      }
      ghost var d := data[..];
      StoreBit(d, ind, num_bits, bits, val);
      if val {
        var tmp := Pow2(7 - num_bits);
        data[ind] := Or(data[ind], tmp);
      }
      assert data[..] == d[ind := data[ind]];
      num_bits := num_bits + 1;
      bits := bits + [val];
    }

    method PutBits(value: nat, num: nat)
      requires Valid() && num < 32
      modifies this, data
      ensures Valid() && bits == old(bits) + BitsOf(value, num)
      ensures data == old(data) || fresh(data)
    {
      hide Valid, Stored, BitsOf, ValueOf;
      var mask := Pow2(num);
      for i := 0 to num
        invariant Valid() && (data == old(data) || fresh(data))
        invariant mask == Pow2(num - i)
        invariant bits == old(bits) + BitsOf(value, num)[..i]
      {
        mask := mask / 2;
        BitAt(value, num, i);
        PutBit(HasBit(value, mask));
        OneMoreBit(old(bits), BitsOf(value, num), i);
      }
      assert BitsOf(value, num)[..num] == BitsOf(value, num);
    }

    method PutUnsigned(value: UInt64)
      requires Valid()
      modifies this, data
      ensures Valid() && bits == old(bits) + EncodeUnsigned(value)
      ensures data == old(data) || fresh(data)
    {
      hide Valid, Stored, BitsOf;
      var v: nat := value;
      while v != 0
        invariant Valid() && (data == old(data) || fresh(data))
        invariant bits + EncodeUnsigned(v) == old(bits) + EncodeUnsigned(value)
        decreases v
      {
        var part := v % 32;
        Regroup3(bits, [v != 0], BitsOf(part, 5), EncodeUnsigned(v / 32));
        PutBit(v != 0);
        PutBits(part, 5);
        v := v / 32;
      }
      PutBit(false);
    }

    method PutInt(value: Int64)
      requires Valid()
      modifies this, data
      ensures Valid() && bits == old(bits) + EncodeInt(value)
      ensures data == old(data) || fresh(data)
    {
      hide Valid, Stored, EncodeUnsigned;
      var magnitude: UInt64 := if value >= 0 then value else -(value as int);
      Regroup(bits, [value < 0], EncodeUnsigned(magnitude));
      PutBit(value < 0);
      PutUnsigned(magnitude);
    }

    method PutDouble(bytes: Double)
      requires Valid()
      modifies this, data
      ensures Valid() && bits == old(bits) + EncodeDouble(bytes)
      ensures data == old(data) || fresh(data)
    {
      hide Valid, Stored, BitsOf;
      var first := 0;
      while first < 7 && bytes[first] == 0
        invariant first <= 7
        invariant forall i :: 0 <= i < first ==> bytes[i] == 0
      {
        first := first + 1;
      }
      LeadingZerosUnique(bytes, first);
      Regroup(bits, BitsOf(first, 3), EncodeBytes(bytes[first..]));
      PutBits(first, 3);
      ghost var whole := bits + EncodeBytes(bytes[first..]);
      for i := first to 8
        invariant Valid() && (data == old(data) || fresh(data))
        invariant bits + EncodeBytes(bytes[i..]) == whole
      {
        assert bytes[i..][1..] == bytes[i + 1..];
        Regroup(bits, BitsOf(bytes[i], 8), EncodeBytes(bytes[i + 1..]));
        PutBits(bytes[i], 8);
      }
      assert EncodeBytes(bytes[8..]) == [];
    }

    method PutChar(c: Octet)
      requires Valid()
      modifies this, data
      ensures Valid() && bits == old(bits) + EncodeChar(c)
      ensures data == old(data) || fresh(data)
    {
      hide Valid, Stored, BitsOf;
      var u := c as int;
      if u > 126 {
        Regroup(bits, BitsOf(127, 7), BitsOf(u, 8));
        PutBits(127, 7);
        PutBits(u, 8);
      } else {
        PutBits(u, 7);
      }
    }

    method PutString(text: Text)
      requires Valid() && |text| < TWO_64
      modifies this, data
      ensures Valid() && bits == old(bits) + EncodeString(text)
      ensures data == old(data) || fresh(data)
    {
      hide Valid, Stored, EncodeUnsigned, EncodeChar;
      Regroup(bits, EncodeUnsigned(|text|), EncodeChars(text));
      PutUnsigned(|text|);
      ghost var whole := bits + EncodeChars(text);
      assert text[0..] == text;
      for i := 0 to |text|
        invariant Valid() && (data == old(data) || fresh(data))
        invariant bits + EncodeChars(text[i..]) == whole
      {
        assert text[i..][1..] == text[i + 1..];
        Regroup(bits, EncodeChar(text[i]), EncodeChars(text[i + 1..]));
        PutChar(text[i]);
      }
    }

    method PutTime(tm: DateTime)
      requires Valid()
      modifies this, data
      ensures Valid() && bits == old(bits) + EncodeTime(tm)
      ensures data == old(data) || fresh(data)
    {
      hide Valid, Stored, EncodeInt, EncodeUnsigned;
      match tm
      case NotADateTime =>
        Regroup(bits, [false], [false]);
        PutBit(false);
        PutBit(false);
      case NegInfinity =>
        Regroup3(bits, [false], [true], [false]);
        PutBit(false);
        PutBit(true);
        PutBit(false);
      case PosInfinity =>
        Regroup3(bits, [false], [true], [true]);
        PutBit(false);
        PutBit(true);
        PutBit(true);
      case At(year, month, day, second, _) =>
        Regroup4(bits, [true], EncodeInt(year), EncodeUnsigned(month), EncodeUnsigned(day) + EncodeSeconds(second));
        PutBit(true);
        PutInt(year);
        PutUnsigned(month);
        Regroup(bits, EncodeUnsigned(day), EncodeSeconds(second));
        PutUnsigned(day);
        Regroup(bits, [second != 0], EncodeUnsigned(second));
        PutBit(second != 0);
        if second != 0 {
          PutUnsigned(second);
        }
    }

    method PutPoint(x: Double, y: Double, crs: Text)
      requires Valid() && |crs| < TWO_64
      modifies this, data
      ensures Valid() && bits == old(bits) + EncodeValue(Point(x, y, crs))
      ensures data == old(data) || fresh(data)
    {
      hide Valid, Stored, EncodeDouble, EncodeString, BitsOf;
      Regroup4(bits, BitsOf(V_POINT, 4), EncodeDouble(x), EncodeDouble(y), EncodeString(crs));
      PutBits(V_POINT, 4);
      PutDouble(x);
      PutDouble(y);
      PutString(crs);
    }

    method PutBBox(xMin: Double, yMin: Double, xMax: Double, yMax: Double, crs: Text)
      requires Valid() && |crs| < TWO_64
      modifies this, data
      ensures Valid() && bits == old(bits) + EncodeValue(BBox(xMin, yMin, xMax, yMax, crs))
      ensures data == old(data) || fresh(data)
    {
      hide Valid, Stored, EncodeDouble, EncodeString, BitsOf;
      Regroup6(bits, BitsOf(V_BBOX, 4), EncodeDouble(xMin), EncodeDouble(yMin), EncodeDouble(xMax),
               EncodeDouble(yMax), EncodeString(crs));
      PutBits(V_BBOX, 4);
      PutDouble(xMin);
      PutDouble(yMin);
      PutDouble(xMax);
      PutDouble(yMax);
      PutString(crs);
    }

    // Throws for a value of an unsupported type.
    method PutValue(value: Value) returns (ok: bool)
      requires Valid() && Storable(value)
      modifies this, data
      ensures Valid() && (data == old(data) || fresh(data))
      ensures ok <==> !value.Empty?
      ensures bits == if ok then old(bits) + EncodeValue(value) else old(bits)
    {
      hide Valid, Stored, EncodeDouble, EncodeString, EncodeTime, EncodeInt, EncodeUnsigned, BitsOf;
      ok := true;
      match value
      case Bool(tmp) =>
        Regroup(bits, BitsOf(V_BOOL, 4), [tmp]);
        PutBits(V_BOOL, 4);
        PutBit(tmp);
      case Int(tmp) =>
        Regroup(bits, BitsOf(V_INT, 4), EncodeInt(tmp));
        PutBits(V_INT, 4);
        PutInt(tmp);
      case UInt(tmp) =>
        Regroup(bits, BitsOf(V_UINT, 4), EncodeUnsigned(tmp));
        PutBits(V_UINT, 4);
        PutUnsigned(tmp);
      case Real(tmp) =>
        Regroup(bits, BitsOf(V_DOUBLE, 4), EncodeDouble(tmp));
        PutBits(V_DOUBLE, 4);
        PutDouble(tmp);
      case String(tmp) =>
        Regroup(bits, BitsOf(V_STRING, 4), EncodeString(tmp));
        PutBits(V_STRING, 4);
        PutString(tmp);
      case Time(tm) =>
        Regroup(bits, BitsOf(V_PTIME, 4), EncodeTime(tm));
        PutBits(V_PTIME, 4);
        PutTime(tm);
      case Point(x, y, crs) =>
        PutPoint(x, y, crs);
      case BBox(xMin, yMin, xMax, yMax, crs) =>
        PutBBox(xMin, yMin, xMax, yMax, crs);
      case Empty =>
        ok := false;
    }

    // The values of one key, with the set bit in front of each.
    method PutGroup(group: Multimap<Value>) returns (ok: bool)
      requires Valid()
      requires forall i :: 0 <= i < |group| ==> Storable(group[i].value)
      modifies this, data
      ensures Valid() && (data == old(data) || fresh(data))
      ensures ok <==> Supported(group)
      ensures ok ==> bits == old(bits) + EncodeGroup(group)
    {
      hide Valid, Stored, EncodeValue, Storable;
      ghost var whole := if Supported(group) then bits + EncodeGroup(group) else [];
      assert group[0..] == group;
      for i := 0 to |group|
        invariant Valid() && (data == old(data) || fresh(data))
        invariant Supported(group[..i])
        invariant Supported(group) ==> bits + EncodeGroup(group[i..]) == whole
      {
        if Supported(group) {
          assert group[i..][1..] == group[i + 1..];
          Regroup3(bits, [true], EncodeValue(group[i].value), EncodeGroup(group[i + 1..]));
        }
        PutBit(true);
        ok := PutValue(group[i].value);
        if !ok {
          return;
        }
      }
      assert group[..|group|] == group;
      ok := true;
    }

    // Key group by key group, in the order of the keys.
    method PutValueMap(arg: Multimap<Value>) returns (ok: bool)
      requires Valid()
      requires forall i :: 0 <= i < |arg| ==> |arg[i].key| < TWO_64 && Storable(arg[i].value)
      modifies this, data
      ensures Valid() && (data == old(data) || fresh(data))
      ensures ok <==> Supported(arg)
      ensures ok ==> bits == old(bits) + EncodeMap(arg)
    {
      hide Valid, Stored, EncodeString, EncodeGroup, EncodeMap, GroupLength, Storable;
      ghost var whole := if Supported(arg) then bits + EncodeMap(arg) else [];
      assert arg[0..] == arg;
      EmptyMapEncoded();
      var i := 0;
      while i < |arg|
        invariant i <= |arg|
        invariant Valid() && (data == old(data) || fresh(data))
        invariant Supported(arg[..i])
        invariant Supported(arg) ==> bits + EncodeMap(arg[i..]) == whole
      {
        var key := arg[i].key;
        var n := GroupLength(arg[i..], key);
        var group := arg[i..i + n];
        if Supported(arg) {
          assert arg[i..][..n] == group && arg[i..][n..] == arg[i + n..];
          FirstGroup(bits, arg[i..], n);
        }
        PutBit(true);
        PutString(key);
        ok := PutGroup(group);
        if !ok {
          return;
        }
        PutBit(false);
        assert arg[..i + n] == arg[..i] + group;
        i := i + n;
      }
      assert arg[..i] == arg;
      PutBit(false);
      ok := true;
    }
  }
}
