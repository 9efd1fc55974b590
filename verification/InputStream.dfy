/** IBStream: reading a byte buffer bit by bit. A result of None is an exception. */
module InputStream {
  import opened Wrappers
  import opened Texts
  import opened Sequences
  import opened BitStrings
  import opened Packing
  import opened Values
  import opened Multimaps
  import opened Codec

  // A read returned what decoding the unread bits yields, and left the bits that decoding leaves.
  ghost predicate Reads<T>(r: Option<T>, parsed: Parsed<T>, unread: Bits) {
    match parsed
    case Fail => r.None?
    case Ok(value, rest) => r == Some(value) && unread == rest
  }

  // The bits from the given position of a byte on.
  function BitsFrom(data: seq<Byte>, pos: nat, bit_pos: nat): Bits
    requires pos <= |data| && bit_pos <= 8
  {
    if pos == |data| then [] else BitsOf(data[pos], 8)[bit_pos..] + Unpack(data[pos + 1..])
  }

  lemma NextByte(data: seq<Byte>, pos: nat)
    requires pos < |data|
    ensures BitsFrom(data, pos, 8) == BitsFrom(data, pos + 1, 0)
  {
    hide BitsOf;
    assert BitsOf(data[pos], 8)[8..] == [];
    if pos + 1 < |data| {
      assert data[pos + 1..][1..] == data[pos + 2..];
      assert BitsOf(data[pos + 1], 8)[0..] == BitsOf(data[pos + 1], 8);
    }
  }

  lemma NextBit(data: seq<Byte>, pos: nat, bit_pos: nat)
    requires pos < |data| && bit_pos < 8
    ensures BitsFrom(data, pos, bit_pos) ==
            [HasBit(data[pos], Pow2(7 - bit_pos))] + BitsFrom(data, pos, bit_pos + 1)
  {
    BitAt(data[pos], 8, bit_pos);
    hide BitsOf, HasBit, Unpack, Pow2;
    FirstOf(BitsOf(data[pos], 8), bit_pos, Unpack(data[pos + 1..]));
  }

  lemma NoBits(data: seq<Byte>, pos: nat)
    requires pos == |data|
    ensures BitsFrom(data, pos, 0) == []
  {
  }

  lemma FirstOf(b: Bits, k: nat, rest: Bits)
    requires k < |b|
    ensures b[k..] + rest == [b[k]] + (b[k + 1..] + rest)
  {
  }

  lemma SmallPowers()
    ensures Pow2(3) == 8 && Pow2(8) == 256
  {
  }

  lemma EmptyValue(s: Bits)
    ensures ValueOf(s[..0]) == 0
  {
  }

  lemma AddBit(s: Bits, i: nat, k: nat)
    requires i < |s|
    ensures ValueOf(s[..i + 1]) * Pow2(k) ==
            if s[i] then Or(ValueOf(s[..i]) * Pow2(k + 1), Pow2(k)) else ValueOf(s[..i]) * Pow2(k + 1)
  {
    assert s[..i + 1] == s[..i] + [s[i]];
    ValueOfLonger(s[..i], s[i]);
    SetLowest(ValueOf(s[..i]), Pow2(k), k);
    DoubledPower(ValueOf(s[..i]), k);
    hide Or, ValueOf, Pow2;
  }

  // What a decoding loop still has to do once the bit that says whether to go on has been read.
  function ContinueUnsigned(more: bool, s: Bits, result: UInt64, off: nat): Parsed<UInt64> {
    if !more then Ok(result, s)
    else
      var (part, s2) :- DecodeBits(s, 5);
      Pow64();
      OrFitsIn(result, ShiftLeft64(part, off), 64);
      DecodeUnsignedFrom(s2, Or(result, ShiftLeft64(part, off)), off + 5)
  }

  function ContinueGroup(more: bool, s: Bits, key: Text, m: Multimap<Value>): Parsed<Multimap<Value>> {
    if !more then Ok(m, s)
    else
      var (v, s2) :- DecodeValue(s);
      DecodeGroup(s2, key, Insert(m, key, v))
  }

  function ContinueMap(more: bool, s: Bits, m: Multimap<Value>): Parsed<Multimap<Value>> {
    if !more then Ok(m, s)
    else
      var (key, s2) :- DecodeString(s);
      var (m', s3) :- DecodeGroup(s2, key, m);
      DecodeMapFrom(s3, m')
  }

  function Prepend<T>(front: seq<T>, p: Parsed<seq<T>>): Parsed<seq<T>> {
    match p
    case Fail => Fail
    case Ok(value, rest) => Ok(front + value, rest)
  }

  lemma PrependNothing<T>(p: Parsed<seq<T>>)
    ensures Prepend([], p) == p
  {
    if p.Ok? {
      assert [] + p.value == p.value;
    }
  }

  lemma PrependOneMore<T>(front: seq<T>, x: T, p: Parsed<seq<T>>)
    ensures Prepend(front + [x], p) == Prepend(front, Prepend([x], p))
  {
    if p.Ok? {
      Regroup(front, [x], p.value);
    }
  }

  class IBStream {
    const data: seq<Byte>
    const length: nat
    var pos: nat
    var bit_pos: nat

    ghost predicate Valid()
      reads this
    {
      && length == |data|
      && pos <= length
      && bit_pos <= 8
      && (pos == length ==> bit_pos == 0)
    }

    ghost function Unread(): Bits
      reads this
      requires Valid()
    {
      BitsFrom(data, pos, bit_pos)
    }

    constructor (data: seq<Byte>)
      ensures Valid() && this.data == data && Unread() == Unpack(data)
    {
      this.data := data;
      length := |data|;
      pos := 0;
      bit_pos := 0;
    }

    method GetBit() returns (r: Option<bool>)
      requires Valid()
      modifies this
      ensures Valid() && Reads(r, DecodeBit(old(Unread())), Unread())
    {
      hide BitsFrom, HasBit, Pow2;
      if bit_pos >= 8 {
        NextByte(data, pos);
        pos := pos + 1;
        bit_pos := 0;
      }
      if pos >= length {
        NoBits(data, pos);
        return None;
      }
      NextBit(data, pos, bit_pos);
      var mask := Pow2(7 - bit_pos);
      r := Some(HasBit(data[pos], mask));
      bit_pos := bit_pos + 1;
    }

    // Bits are or'ed in from the highest one down.
    method GetBits(num: nat) returns (r: Option<nat>)
      requires Valid() && num < 32
      modifies this
      ensures Valid() && Reads(r, DecodeBits(old(Unread()), num), Unread())
    {
      hide BitsFrom, ValueOf;
      ghost var s := Unread();
      var result := 0;
      var mask := Pow2(num);
      EmptyValue(s);
      for i := 0 to num
        invariant Valid() && i <= |s| && Unread() == s[i..]
        invariant mask == Pow2(num - i)
        invariant result == ValueOf(s[..i]) * Pow2(num - i)
      {
        mask := mask / 2;
        var bit := GetBit();
        if bit.None? {
          return None;
        }
        AddBit(s, i, num - i - 1);
        if bit.value {
          result := Or(result, mask);
        }
      }
      r := Some(result);
    }

    method GetUnsigned() returns (r: Option<UInt64>)
      requires Valid()
      modifies this
      ensures Valid() && Reads(r, DecodeUnsigned(old(Unread())), Unread())
    {
      hide BitsFrom, DecodeBits, DecodeBit, Or;
      var result: UInt64 := 0;
      var off := 0;
      var more := GetBit();
      while more == Some(true)
        invariant Valid()
        invariant match more
                  case None => DecodeUnsigned(old(Unread())).Fail?
                  case Some(b) => DecodeUnsigned(old(Unread())) == ContinueUnsigned(b, Unread(), result, off)
        decreases if more == Some(true) then 1 + |Unread()| else 0
      {
        ghost var s := Unread();
        var part := GetBits(5);
        if part.None? {
          return None;
        }
        Pow64();
        OrFitsIn(result, ShiftLeft64(part.value, off), 64);
        result := Or(result, ShiftLeft64(part.value, off));
        off := off + 5;
        more := GetBit();
      }
      r := if more.None? then None else Some(result);
    }

    method GetInt() returns (r: Option<Int64>)
      requires Valid()
      modifies this
      ensures Valid() && Reads(r, DecodeInt(old(Unread())), Unread())
    {
      hide BitsFrom, DecodeBit, DecodeUnsigned;
      var s := GetBit();
      if s.None? {
        return None;
      }
      var tmp := GetUnsigned();
      if tmp.None? {
        return None;
      }
      r := Some(if s.value then Negate64(AsInt64(tmp.value)) else AsInt64(tmp.value));
    }

    method GetDouble() returns (r: Option<Double>)
      requires Valid()
      modifies this
      ensures Valid() && Reads(r, DecodeDouble(old(Unread())), Unread())
    {
      hide BitsFrom, DecodeBits, Pow2, Unread;
      SmallPowers();
      var first := GetBits(3);
      if first.None? {
        return None;
      }
      ghost var s := Unread();
      ghost var read: seq<Byte> := [];
      PrependNothing(DecodeBytes(s, 8 - first.value));
      var bytes := ZeroBytes(8);
      for i := first.value to 8
        invariant Valid() && |bytes| == 8 && |read| == i - first.value
        invariant bytes[..i] == ZeroBytes(first.value) + read
        invariant Prepend(read, DecodeBytes(Unread(), 8 - i)) == DecodeBytes(s, 8 - first.value)
      {
        var b := GetBits(8);
        if b.None? {
          return None;
        }
        PrependOneMore(read, b.value, DecodeBytes(Unread(), 8 - (i + 1)));
        ghost var before := bytes[..i];
        bytes := bytes[i := b.value];
        assert bytes[..i + 1] == before + [b.value];
        Regroup(ZeroBytes(first.value), read, [b.value]);
        read := read + [b.value];
      }
      assert read + [] == read && bytes == bytes[..8];
      var value: Double := bytes;
      r := Some(value);
    }

    method GetChar() returns (r: Option<Octet>)
      requires Valid()
      modifies this
      ensures Valid() && Reads(r, DecodeChar(old(Unread())), Unread())
    {
      hide BitsFrom, DecodeBits;
      assert Pow2(7) == 128 && Pow2(8) == 256;
      var v1 := GetBits(7);
      if v1 == Some(127) {
        v1 := GetBits(8);
      }
      if v1.None? {
        return None;
      }
      r := Some(v1.value as char);
    }

    method GetString() returns (r: Option<Text>)
      requires Valid()
      modifies this
      ensures Valid() && Reads(r, DecodeString(old(Unread())), Unread())
    {
      hide BitsFrom, DecodeUnsigned, DecodeChar;
      var n := GetUnsigned();
      if n.None? {
        return None;
      }
      var len := n.value % TWO_32;
      ghost var s := Unread();
      var out: Text := [];
      PrependNothing(DecodeChars(s, len));
      for i := 0 to len
        invariant Valid()
        invariant Prepend(out, DecodeChars(Unread(), len - i)) == DecodeChars(s, len)
      {
        var c := GetChar();
        if c.None? {
          return None;
        }
        PrependOneMore(out, c.value, DecodeChars(Unread(), len - (i + 1)));
        out := out + [c.value];
      }
      assert out + [] == out;
      r := Some(out);
    }

    method GetTime() returns (r: Option<DateTime>)
      requires Valid()
      modifies this
      ensures Valid() && Reads(r, DecodeTime(old(Unread())), Unread())
    {
      hide BitsFrom, DecodeBit, DecodeInt, DecodeUnsigned;
      var ordinary := GetBit();
      if ordinary.None? {
        return None;
      }
      if ordinary.value {
        var sec: UInt64 := 0;
        var year := GetInt();
        if year.None? { return None; }
        var month := GetUnsigned();
        if month.None? { return None; }
        var day := GetUnsigned();
        if day.None? { return None; }
        var have_sec := GetBit();
        if have_sec.None? { return None; }
        if have_sec.value {
          var s := GetUnsigned();
          if s.None? { return None; }
          sec := s.value;
        }
        return Some(At(AsInt32(year.value), month.value % TWO_32, day.value % TWO_32, sec % TWO_32, 0));
      }
      var infinite := GetBit();
      if infinite.None? {
        return None;
      }
      if infinite.value {
        var positive := GetBit();
        if positive.None? {
          return None;
        }
        return Some(if positive.value then PosInfinity else NegInfinity);
      } else {
        return Some(NotADateTime);
      }
    }

    method GetValue() returns (r: Option<Value>)
      requires Valid()
      modifies this
      ensures Valid() && Reads(r, DecodeValue(old(Unread())), Unread())
    {
      hide BitsFrom, DecodeBit, DecodeBits, DecodeInt, DecodeUnsigned, DecodeDouble, DecodeString, DecodeTime;
      var type_code := GetBits(4);
      if type_code.None? {
        return None;
      }
      if type_code.value == V_BOOL {
        var b := GetBit();
        if b.None? { return None; }
        return Some(Bool(b.value));
      } else if type_code.value == V_INT {
        var i := GetInt();
        if i.None? { return None; }
        return Some(Int(i.value));
      } else if type_code.value == V_UINT {
        var u := GetUnsigned();
        if u.None? { return None; }
        return Some(UInt(u.value));
      } else if type_code.value == V_DOUBLE {
        var d := GetDouble();
        if d.None? { return None; }
        return Some(Real(d.value));
      } else if type_code.value == V_STRING {
        var s := GetString();
        if s.None? { return None; }
        return Some(String(s.value));
      } else if type_code.value == V_PTIME {
        var t := GetTime();
        if t.None? { return None; }
        return Some(Time(t.value));
      } else if type_code.value == V_POINT {
        var x := GetDouble();
        if x.None? { return None; }
        var y := GetDouble();
        if y.None? { return None; }
        var crs := GetString();
        if crs.None? { return None; }
        return Some(Point(x.value, y.value, crs.value));
      } else if type_code.value == V_BBOX {
        var xMin := GetDouble();
        if xMin.None? { return None; }
        var yMin := GetDouble();
        if yMin.None? { return None; }
        var xMax := GetDouble();
        if xMax.None? { return None; }
        var yMax := GetDouble();
        if yMax.None? { return None; }
        var crs := GetString();
        if crs.None? { return None; }
        return Some(BBox(xMin.value, yMin.value, xMax.value, yMax.value, crs.value));
      } else {
        return None;
      }
    }

    method GetValueMap() returns (r: Option<Multimap<Value>>)
      requires Valid()
      modifies this
      ensures Valid() && Reads(r, DecodeMap(old(Unread())), Unread())
    {
      hide BitsFrom, DecodeString, DecodeValue, DecodeBit, Insert;
      var result: Multimap<Value> := [];
      var more := GetBit();
      while more == Some(true)
        invariant Valid()
        invariant match more
                  case None => DecodeMap(old(Unread())).Fail?
                  case Some(b) => DecodeMap(old(Unread())) == ContinueMap(b, Unread(), result)
        decreases if more == Some(true) then 1 + |Unread()| else 0
      {
        ghost var s := Unread();
        var key := GetString();
        if key.None? {
          return None;
        }
        ghost var s' := Unread();
        ghost var group := DecodeGroup(s', key.value, result);
        var another := GetBit();
        while another == Some(true)
          invariant Valid()
          invariant match another
                    case None => group.Fail?
                    case Some(b) => group == ContinueGroup(b, Unread(), key.value, result)
          decreases if another == Some(true) then 1 + |Unread()| else 0
        {
          var value := GetValue();
          if value.None? {
            return None;
          }
          result := Insert(result, key.value, value.value);
          another := GetBit();
        }
        if another.None? {
          return None;
        }
        more := GetBit();
      }
      r := if more.None? then None else Some(result);
    }
  }
}
