/** Query strings: the escapes of encode, and what a reader of the query string gets back. */
module UrlEncoding {
  import opened Wrappers
  import opened Texts

  const SPECIAL: Text := "$&+/=?@'\"<>#%{}|\\^~[]"
  const DIGITS: Text := "0123456789ABCDEF"

  predicate IsEscaped(c: Octet) {
    c as int <= 0x1F || c as int >= 0x7F || c in SPECIAL
  }

  function EncodeChar(c: Octet): Text {
    if IsEscaped(c) then ['%', DIGITS[c as int / 16], DIGITS[c as int % 16]]
    else if c == ' ' then ['+']
    else [c]
  }

  function Encode(text: Text): Text {
    if text == [] then [] else EncodeChar(text[0]) + Encode(text[1..])
  }

  function DigitValue(c: Octet): Option<int> {
    if '0' <= c <= '9' then Some(c as int - '0' as int)
    else if 'A' <= c <= 'F' then Some(c as int - 'A' as int + 10)
    else if 'a' <= c <= 'f' then Some(c as int - 'a' as int + 10)
    else None
  }

  function Prepend(c: Octet, r: Option<Text>): Option<Text> {
    if r.Some? then Some([c] + r.value) else None
  }

  // Form decoding: percent escapes of section 2.1 of RFC 3986, and '+' for a space.
  function FormDecode(s: Text): Option<Text> {
    if s == [] then Some([])
    else if s[0] == '+' then Prepend(' ', FormDecode(s[1..]))
    else if s[0] == '%' then
      if |s| < 3 || DigitValue(s[1]).None? || DigitValue(s[2]).None? then None
      else Prepend((DigitValue(s[1]).value * 16 + DigitValue(s[2]).value) as char, FormDecode(s[3..]))
    else Prepend(s[0], FormDecode(s[1..]))
  }

  lemma DigitRoundTrip(n: nat)
    requires n < 16
    ensures DigitValue(DIGITS[n]) == Some(n) && DIGITS[n] != '&' && DIGITS[n] != '=' && DIGITS[n] != '?'
  {
  }

  lemma PlainChars()
    ensures '+' in SPECIAL && '%' in SPECIAL && '&' in SPECIAL && '=' in SPECIAL && '?' in SPECIAL
  {
    assert SPECIAL[1] == '&' && SPECIAL[2] == '+' && SPECIAL[4] == '=' && SPECIAL[5] == '?' && SPECIAL[12] == '%';
  }

  lemma CommaIsPlain()
    ensures EncodeChar(',') == [',']
  {
  }

  // The characters that stand for themselves: letters, digits and these.
  predicate IsPlain(c: Octet) {
    || 'a' <= c <= 'z' || 'A' <= c <= 'Z' || '0' <= c <= '9'
    || c == '-' || c == '.' || c == '_' || c == '!' || c == '*' || c == '(' || c == ')' || c == ','
    || c == ':' || c == ';' || c == '`'
  }

  lemma PlainExactly(c: Octet)
    ensures IsPlain(c) <==> EncodeChar(c) == [c]
    ensures !IsPlain(c) ==> EncodeChar(c) == ['+'] || (|EncodeChar(c)| == 3 && EncodeChar(c)[0] == '%')
    ensures EncodeChar(c) == ['+'] <==> c == ' '
  {
  }

  lemma DigitIsPlain(n: nat)
    requires n < 16
    ensures IsPlain(DIGITS[n])
  {
  }

  // An encoded text has no other characters than these, '+' and '%'.
  lemma {:induction false} EncodedIsSafe(text: Text)
    ensures forall i :: 0 <= i < |Encode(text)| ==>
      IsPlain(Encode(text)[i]) || Encode(text)[i] == '+' || Encode(text)[i] == '%'
  {
    hide EncodeChar, IsPlain;
    if text != [] {
      EncodedIsSafe(text[1..]);
      SafeChar(text[0]);
    }
  }

  lemma SafeChar(c: Octet)
    ensures forall i :: 0 <= i < |EncodeChar(c)| ==>
      IsPlain(EncodeChar(c)[i]) || EncodeChar(c)[i] == '+' || EncodeChar(c)[i] == '%'
  {
    hide IsPlain, IsEscaped, DIGITS;
    PlainExactly(c);
    DigitIsPlain(c as int / 16);
    DigitIsPlain(c as int % 16);
  }

  // What an encoded character looks like.
  lemma EncodedChar(c: Octet)
    ensures var e := EncodeChar(c);
      && e != [] && '&' !in e && '=' !in e && '?' !in e
      && (if e[0] == '%' then
            |e| == 3 && DigitValue(e[1]) == Some(c as int / 16) && DigitValue(e[2]) == Some(c as int % 16)
          else if e[0] == '+' then c == ' ' && |e| == 1
          else e == [c])
  {
    hide SPECIAL, DIGITS;
    PlainChars();
    DigitRoundTrip(c as int / 16);
    DigitRoundTrip(c as int % 16);
  }

  lemma DecodeChar(c: Octet, rest: Text)
    ensures FormDecode(EncodeChar(c) + rest) == Prepend(c, FormDecode(rest))
  {
    hide EncodeChar, DigitValue;
    EncodedChar(c);
    var e := EncodeChar(c);
    assert (e + rest)[|e|..] == rest;
  }

  lemma {:induction false} DecodeBehind(text: Text, rest: Text)
    ensures FormDecode(Encode(text) + rest) ==
            if FormDecode(rest).Some? then Some(text + FormDecode(rest).value) else None
  {
    hide EncodeChar, FormDecode;
    if text == [] {
      assert Encode(text) + rest == rest;
      if FormDecode(rest).Some? {
        assert [] + FormDecode(rest).value == FormDecode(rest).value;
      }
    } else {
      var e, more := EncodeChar(text[0]), Encode(text[1..]) + rest;
      DecodeBehind(text[1..], rest);
      assert Encode(text) + rest == e + more;
      DecodeChar(text[0], more);
      if FormDecode(rest).Some? {
        assert text + FormDecode(rest).value == [text[0]] + (text[1..] + FormDecode(rest).value);
      }
    }
  }

  // Form decoding gives back what was encoded.
  lemma DecodeEncode(text: Text)
    ensures FormDecode(Encode(text)) == Some(text)
  {
    DecodeBehind(text, []);
    assert Encode(text) + [] == Encode(text) && text + [] == text;
  }

  lemma {:induction false} EncodedIsPlain(text: Text)
    ensures '&' !in Encode(text) && '=' !in Encode(text) && '?' !in Encode(text)
  {
    hide EncodeChar;
    if text != [] {
      EncodedChar(text[0]);
      EncodedIsPlain(text[1..]);
    }
  }

  lemma {:induction false} EncodeJoined(a: Text, b: Text)
    ensures Encode(a + b) == Encode(a) + Encode(b)
  {
    hide EncodeChar;
    if a == [] {
      assert a + b == b;
    } else {
      assert (a + b)[1..] == a[1..] + b;
      EncodeJoined(a[1..], b);
    }
  }

  // ---------- splitting ----------

  function Split(s: Text, at: Octet): (parts: seq<Text>)
    ensures parts != []
  {
    if s == [] then [[]]
    else
      var parts := Split(s[1..], at);
      if s[0] == at then [[]] + parts else [[s[0]] + parts[0]] + parts[1..]
  }

  function Join(parts: seq<Text>, with: Octet): Text {
    if parts == [] then []
    else if |parts| == 1 then parts[0]
    else parts[0] + [with] + Join(parts[1..], with)
  }

  lemma {:induction false} SplitAt(a: Text, at: Octet, b: Text)
    ensures Split(a + [at] + b, at) == Split(a, at) + Split(b, at)
  {
    if a == [] {
      assert (a + [at] + b)[1..] == b;
    } else {
      assert (a + [at] + b)[1..] == a[1..] + [at] + b;
      SplitAt(a[1..], at, b);
    }
  }

  lemma {:induction false} SplitOne(s: Text, at: Octet)
    requires at !in s
    ensures Split(s, at) == [s]
  {
    if s != [] {
      SplitOne(s[1..], at);
      assert s == [s[0]] + s[1..];
    }
  }

  lemma {:induction false} SplitJoin(parts: seq<Text>, at: Octet)
    requires parts != [] && forall i :: 0 <= i < |parts| ==> at !in parts[i]
    ensures Split(Join(parts, at), at) == parts
  {
    SplitOne(parts[0], at);
    if |parts| > 1 {
      SplitJoin(parts[1..], at);
      SplitAt(parts[0], at, Join(parts[1..], at));
    }
  }

  lemma {:induction false} SplitParts(s: Text, at: Octet)
    ensures forall i :: 0 <= i < |Split(s, at)| ==> at !in Split(s, at)[i]
  {
    if s != [] {
      SplitParts(s[1..], at);
    }
  }

  // Splitting undoes joining exactly when no part contains the separator.
  lemma SplitUndoesJoin(parts: seq<Text>, at: Octet)
    requires parts != []
    ensures Split(Join(parts, at), at) == parts <==> forall i :: 0 <= i < |parts| ==> at !in parts[i]
  {
    SplitParts(Join(parts, at), at);
    if forall i :: 0 <= i < |parts| ==> at !in parts[i] {
      SplitJoin(parts, at);
    }
  }

  // ---------- query strings ----------

  datatype Pair = Pair(name: Text, value: Text)

  function EncodePair(p: Pair): Text {
    Encode(p.name) + ['='] + Encode(p.value)
  }

  function EncodePairs(pairs: seq<Pair>): (r: seq<Text>)
    ensures |r| == |pairs|
    ensures forall i :: 0 <= i < |pairs| ==> r[i] == EncodePair(pairs[i])
  {
    seq(|pairs|, i requires 0 <= i < |pairs| => EncodePair(pairs[i]))
  }

  function QueryString(pairs: seq<Pair>): Text {
    Join(EncodePairs(pairs), '&')
  }

  // The texts before and after the first occurrence of a character.
  function CutAt(s: Text, at: Octet): Option<(Text, Text)> {
    if s == [] then None
    else if s[0] == at then Some(([], s[1..]))
    else
      var r := CutAt(s[1..], at);
      if r.Some? then Some(([s[0]] + r.value.0, r.value.1)) else None
  }

  function ReadPair(s: Text): Option<Pair> {
    var cut := CutAt(s, '=');
    if cut.None? then None
    else
      var (name, value) := (FormDecode(cut.value.0), FormDecode(cut.value.1));
      if name.None? || value.None? then None else Some(Pair(name.value, value.value))
  }

  function ReadPairs(parts: seq<Text>): Option<seq<Pair>> {
    if parts == [] then Some([])
    else
      var (first, rest) := (ReadPair(parts[0]), ReadPairs(parts[1..]));
      if first.None? || rest.None? then None else Some([first.value] + rest.value)
  }

  lemma {:induction false} CutAtFirst(a: Text, at: Octet, b: Text)
    requires at !in a
    ensures CutAt(a + [at] + b, at) == Some((a, b))
  {
    if a == [] {
      assert (a + [at] + b)[1..] == b;
    } else {
      assert (a + [at] + b)[1..] == a[1..] + [at] + b;
      CutAtFirst(a[1..], at, b);
      assert a == [a[0]] + a[1..];
    }
  }

  lemma ReadPairBack(p: Pair)
    ensures ReadPair(EncodePair(p)) == Some(p)
  {
    hide Encode, FormDecode;
    EncodedIsPlain(p.name);
    CutAtFirst(Encode(p.name), '=', Encode(p.value));
    DecodeEncode(p.name);
    DecodeEncode(p.value);
  }

  lemma {:induction false} ReadPairsBack(pairs: seq<Pair>)
    ensures ReadPairs(EncodePairs(pairs)) == Some(pairs)
  {
    hide EncodePair, ReadPair;
    if pairs != [] {
      ReadPairBack(pairs[0]);
      ReadPairsBack(pairs[1..]);
      assert EncodePairs(pairs)[1..] == EncodePairs(pairs[1..]);
      assert pairs == [pairs[0]] + pairs[1..];
    }
  }

  lemma PairIsPlain(p: Pair)
    ensures '&' !in EncodePair(p) && '?' !in EncodePair(p) && EncodePair(p) != []
  {
    EncodedIsPlain(p.name);
    EncodedIsPlain(p.value);
  }

  // A query string split at '&' and at the first '=' and form-decoded gives back its names and values.
  lemma QueryRoundTrip(pairs: seq<Pair>)
    requires pairs != []
    ensures ReadPairs(Split(QueryString(pairs), '&')) == Some(pairs)
  {
    hide EncodePair, ReadPairs, Split, Join;
    forall i | 0 <= i < |pairs| ensures '&' !in EncodePairs(pairs)[i] {
      PairIsPlain(pairs[i]);
    }
    SplitJoin(EncodePairs(pairs), '&');
    ReadPairsBack(pairs);
  }
}
