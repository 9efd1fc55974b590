/** Base 64 encoding as in section 4 of RFC 4648, and the alphabet used in feature identifiers. */
module Base64 {
  import opened Wrappers
  import opened Texts
  import opened BitStrings

  type Sextet = x: int | 0 <= x < 64

  predicate IsBase64Char(c: Octet) {
    'A' <= c <= 'Z' || 'a' <= c <= 'z' || '0' <= c <= '9' || c == '+' || c == '/' || c == '='
  }

  function CharOf(i: Sextet): (c: Octet)
    ensures IsBase64Char(c) && c != '='
  {
    if i < 26 then (i + 65) as char
    else if i < 52 then (i + 71) as char
    else if i < 62 then (i - 4) as char
    else if i == 62 then '+'
    else '/'
  }

  function IndexOf(c: Octet): (r: Option<Sextet>)
    ensures r.Some? <==> IsBase64Char(c) && c != '='
  {
    if 'A' <= c <= 'Z' then Some(c as int - 65)
    else if 'a' <= c <= 'z' then Some(c as int - 71)
    else if '0' <= c <= '9' then Some(c as int + 4)
    else if c == '+' then Some(62)
    else if c == '/' then Some(63)
    else None
  }

  lemma IndexOfCharOf(i: Sextet)
    ensures IndexOf(CharOf(i)) == Some(i)
  {
  }

  function Encode(b: seq<Byte>): Text {
    if b == [] then []
    else if |b| == 1 then
      [CharOf(b[0] / 4), CharOf(b[0] % 4 * 16), '=', '=']
    else if |b| == 2 then
      [CharOf(b[0] / 4), CharOf(b[0] % 4 * 16 + b[1] / 16), CharOf(b[1] % 16 * 4), '=']
    else
      [CharOf(b[0] / 4), CharOf(b[0] % 4 * 16 + b[1] / 16), CharOf(b[1] % 16 * 4 + b[2] / 64), CharOf(b[2] % 64)]
      + Encode(b[3..])
  }

  function Decode(s: Text): Option<seq<Byte>> {
    if s == [] then Some([])
    else if |s| < 4 then None
    else
      var i0 :- IndexOf(s[0]);
      var i1 :- IndexOf(s[1]);
      if s[2] == '=' then
        if s[3] == '=' && |s| == 4 then Some([i0 * 4 + i1 / 16]) else None
      else
        var i2 :- IndexOf(s[2]);
        if s[3] == '=' then
          if |s| == 4 then Some([i0 * 4 + i1 / 16, i1 % 16 * 16 + i2 / 4]) else None
        else
          var i3 :- IndexOf(s[3]);
          var rest :- Decode(s[4..]);
          Some([i0 * 4 + i1 / 16, i1 % 16 * 16 + i2 / 4, i2 % 4 * 64 + i3] + rest)
  }

  // Three bytes cut into four sextets and put together again.
  lemma Pieces(x: Byte, y: Byte, z: Byte)
    ensures x / 4 * 4 + (x % 4 * 16 + y / 16) / 16 == x
    ensures (x % 4 * 16 + y / 16) % 16 * 16 + (y % 16 * 4 + z / 64) / 4 == y
    ensures (y % 16 * 4 + z / 64) % 4 * 64 + z % 64 == z
  {
  }

  lemma OneByteRoundTrip(x: Byte)
    ensures Decode(Encode([x])) == Some([x])
  {
    hide CharOf, IndexOf;
    IndexOfCharOf(x / 4);
    IndexOfCharOf(x % 4 * 16);
  }

  lemma TwoBytesRoundTrip(x: Byte, y: Byte)
    ensures Decode(Encode([x, y])) == Some([x, y])
  {
    hide CharOf, IndexOf;
    IndexOfCharOf(x / 4);
    IndexOfCharOf(x % 4 * 16 + y / 16);
    IndexOfCharOf(y % 16 * 4);
    Pieces(x, y, 0);
  }

  // Four characters that stand for three bytes, and whatever follows them.
  lemma DecodeThree(x: Byte, y: Byte, z: Byte, rest: Text)
    ensures Decode([CharOf(x / 4), CharOf(x % 4 * 16 + y / 16), CharOf(y % 16 * 4 + z / 64), CharOf(z % 64)] + rest) ==
            if Decode(rest).Some? then Some([x, y, z] + Decode(rest).value) else None
  {
    hide CharOf, IndexOf;
    IndexOfCharOf(x / 4);
    IndexOfCharOf(x % 4 * 16 + y / 16);
    IndexOfCharOf(y % 16 * 4 + z / 64);
    IndexOfCharOf(z % 64);
    Pieces(x, y, z);
    var four := [CharOf(x / 4), CharOf(x % 4 * 16 + y / 16), CharOf(y % 16 * 4 + z / 64), CharOf(z % 64)];
    assert (four + rest)[4..] == rest;
  }

  lemma {:induction false} RoundTrip(b: seq<Byte>)
    ensures Decode(Encode(b)) == Some(b)
  {
    if |b| == 1 {
      OneByteRoundTrip(b[0]);
      assert b == [b[0]];
    } else if |b| == 2 {
      TwoBytesRoundTrip(b[0], b[1]);
      assert b == [b[0], b[1]];
    } else if |b| >= 3 {
      RoundTrip(b[3..]);
      DecodeThree(b[0], b[1], b[2], Encode(b[3..]));
      hide CharOf, Decode;
      assert b == [b[0], b[1], b[2]] + b[3..];
    }
  }

  lemma {:induction false} EncodedChars(b: seq<Byte>)
    ensures forall i :: 0 <= i < |Encode(b)| ==> IsBase64Char(Encode(b)[i])
  {
    if |b| >= 3 {
      EncodedChars(b[3..]);
    }
  }

  // ---------- the alphabet of feature identifiers ----------

  predicate IsIdChar(c: Octet) {
    'A' <= c <= 'Z' || 'a' <= c <= 'z' || '0' <= c <= '9' || c == '.' || c == '_' || c == '-'
  }

  function ToIdChar(c: Octet): Octet {
    match c
    case '+' => '.'
    case '/' => '_'
    case '=' => '-'
    case _ => c
  }

  function FromIdChar(c: Octet): Octet {
    match c
    case '.' => '+'
    case '_' => '/'
    case '-' => '='
    case _ => c
  }

  function ToIdText(s: Text): (r: Text)
    ensures |r| == |s| && forall i :: 0 <= i < |s| ==> r[i] == ToIdChar(s[i])
  {
    if s == [] then [] else [ToIdChar(s[0])] + ToIdText(s[1..])
  }

  function FromIdText(s: Text): (r: Text)
    ensures |r| == |s| && forall i :: 0 <= i < |s| ==> r[i] == FromIdChar(s[i])
  {
    if s == [] then [] else [FromIdChar(s[0])] + FromIdText(s[1..])
  }

  // The swap maps the Base 64 alphabet one to one onto letters, digits, '.', '_' and '-'.
  lemma AlphabetBijection(c: Octet)
    ensures IsBase64Char(c) <==> IsIdChar(ToIdChar(c)) && FromIdChar(ToIdChar(c)) == c
    ensures IsIdChar(c) <==> IsBase64Char(FromIdChar(c)) && ToIdChar(FromIdChar(c)) == c
  {
  }

  lemma SwapRoundTrip(s: Text)
    requires forall i :: 0 <= i < |s| ==> IsBase64Char(s[i])
    ensures FromIdText(ToIdText(s)) == s
    ensures forall i :: 0 <= i < |s| ==> IsIdChar(ToIdText(s)[i])
  {
    forall i | 0 <= i < |s| ensures FromIdText(ToIdText(s))[i] == s[i] && IsIdChar(ToIdText(s)[i]) {
      AlphabetBijection(s[i]);
    }
  }
}
