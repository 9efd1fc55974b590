/** UrlTemplateGenerator: URLs made from a template and the values of named parameters. */
module UrlTemplates {
  import opened Wrappers
  import opened Texts
  import opened Sequences
  import opened Substitution
  import opened UrlEncoding

  // The values of a named parameter; None is an exception.
  type Getter = Text -> Option<seq<Text>>

  // ---------- texts with references ----------

  // A text of a template: characters, escaped characters and references to parameters.
  datatype Part = Literal(c: Octet) | Escaped(c: Octet) | Reference(name: Text)

  predicate IsNameChar(c: Octet) {
    '0' <= c <= '9' || 'A' <= c <= 'Z' || 'a' <= c <= 'z' || c == '_'
  }

  predicate IsName(name: Text) {
    forall i :: 0 <= i < |name| ==> IsNameChar(name[i])
  }

  predicate IsPart(p: Part) {
    match p
    case Literal(c) => c != '\\' && c != '$'
    case Escaped(_) => true
    case Reference(name) => IsName(name)
  }

  function Written(p: Part): (r: Text)
    ensures r != []
  {
    match p
    case Literal(c) => [c]
    case Escaped(c) => ['\\', c]
    case Reference(name) => ['$', '{'] + name + ['}']
  }

  function WrittenAll(parts: seq<Part>): Text {
    if parts == [] then [] else Written(parts[0]) + WrittenAll(parts[1..])
  }

  function NameLength(text: Text): (n: nat)
    ensures n <= |text| && IsName(text[..n])
    ensures n < |text| ==> !IsNameChar(text[n])
  {
    if text == [] || !IsNameChar(text[0]) then 0 else 1 + NameLength(text[1..])
  }

  // The first part of a text.
  function FirstPart(text: Text): (r: Option<Part>)
    requires text != []
    ensures r.Some? ==> IsPart(r.value) && Written(r.value) <= text
  {
    if text[0] == '\\' then
      if |text| == 1 then None else Some(Escaped(text[1]))
    else if text[0] == '$' then
      if |text| == 1 || text[1] != '{' then None
      else
        var n := NameLength(text[2..]);
        if 2 + n == |text| || text[2 + n] != '}' then None else Some(Reference(text[2..][..n]))
    else Some(Literal(text[0]))
  }

  function Parts(text: Text): Option<seq<Part>> {
    if text == [] then Some([])
    else
      var first := FirstPart(text);
      if first.None? then None
      else
        var rest := Parts(text[|Written(first.value)|..]);
        if rest.None? then None else Some([first.value] + rest.value)
  }

  lemma FirstWritten(p: Part, rest: Text)
    requires IsPart(p)
    ensures FirstPart(Written(p) + rest) == Some(p)
  {
    var text := Written(p) + rest;
    if p.Reference? {
      assert text[2..] == p.name + (['}'] + rest);
      NameEnds(p.name, ['}'] + rest);
    }
  }

  lemma {:induction false} NameEnds(name: Text, rest: Text)
    requires IsName(name) && rest != [] && !IsNameChar(rest[0])
    ensures NameLength(name + rest) == |name| && (name + rest)[..|name|] == name
  {
    if name == [] {
      assert name + rest == rest;
    } else {
      NameEnds(name[1..], rest);
      assert (name + rest)[1..] == name[1..] + rest;
    }
  }

  // A text has one reading, if any.
  lemma {:induction false} PartsOfWritten(parts: seq<Part>)
    requires forall i :: 0 <= i < |parts| ==> IsPart(parts[i])
    ensures Parts(WrittenAll(parts)) == Some(parts)
  {
    hide FirstPart, Written, IsPart;
    if parts != [] {
      PartsOfWritten(parts[1..]);
      FirstWritten(parts[0], WrittenAll(parts[1..]));
      var w := Written(parts[0]);
      assert (w + WrittenAll(parts[1..]))[|w|..] == WrittenAll(parts[1..]);
      assert parts == [parts[0]] + parts[1..];
    }
  }

  lemma {:induction false} WrittenOfParts(text: Text)
    requires Parts(text).Some?
    ensures WrittenAll(Parts(text).value) == text
    ensures forall i :: 0 <= i < |Parts(text).value| ==> IsPart(Parts(text).value[i])
  {
    hide FirstPart, Written, IsPart;
    if text != [] {
      var w := Written(FirstPart(text).value);
      WrittenOfParts(text[|w|..]);
      assert text == w + text[|w|..];
    }
  }

  function Value(p: Part, getter: Getter, allow_list: bool): Option<Text> {
    match p
    case Literal(c) => Some([c])
    case Escaped(c) => Some([c])
    case Reference(name) =>
      var values := getter(name);
      if values.None? || (!allow_list && |values.value| > 1) then None else Some(Join(values.value, ','))
  }

  function Values(parts: seq<Part>, getter: Getter, allow_list: bool): Option<Text> {
    if parts == [] then Some([])
    else
      var (first, rest) := (Value(parts[0], getter, allow_list), Values(parts[1..], getter, allow_list));
      if first.None? || rest.None? then None else Some(first.value + rest.value)
  }

  function Eval(text: Text, getter: Getter, allow_list: bool): Option<Text> {
    var parts := Parts(text);
    if parts.None? then None else Values(parts.value, getter, allow_list)
  }

  // What has been put out, and what the rest of the text still yields.
  function After(done: Text, rest: Option<Text>): Option<Text> {
    if rest.None? then None else Some(done + rest.value)
  }

  lemma EvalStep(text: Text, getter: Getter, allow_list: bool, done: Text)
    requires text != []
    ensures var first := FirstPart(text);
      After(done, Eval(text, getter, allow_list)) ==
      if first.None? || Value(first.value, getter, allow_list).None? then None
      else After(done + Value(first.value, getter, allow_list).value,
                 Eval(text[|Written(first.value)|..], getter, allow_list))
  {
    hide FirstPart, Value, Written;
    var first := FirstPart(text);
    if first.Some? {
      var rest := text[|Written(first.value)|..];
      if Parts(rest).Some? {
        assert Parts(text).value[1..] == Parts(rest).value;
        if Value(first.value, getter, allow_list).Some? && Eval(rest, getter, allow_list).Some? {
          Regroup(done, Value(first.value, getter, allow_list).value, Eval(rest, getter, allow_list).value);
        }
      }
    }
  }

  lemma {:induction false} JoinMore(parts: seq<Text>, last: Text, with: Octet)
    requires parts != []
    ensures Join(parts + [last], with) == Join(parts, with) + [with] + last
  {
    if |parts| > 1 {
      assert (parts + [last])[1..] == parts[1..] + [last];
      JoinMore(parts[1..], last, with);
      assert Join(parts + [last], with) == parts[0] + [with] + (Join(parts[1..], with) + [with] + last);
    }
  }

  // '\0' behind the end, as in a C string
  function Peek(s: Text, at: int): Octet
    requires 0 <= at
  {
    if at < |s| then s[at] else NUL
  }

  // The parts of a reference, or what is missing of it.
  lemma ReferencePart(text: Text, at: nat, end: nat)
    requires at + 2 <= end <= |text| && text[at] == '$' && text[at + 1] == '{'
    requires end - at - 2 == NameLength(text[at + 2..])
    ensures var first := FirstPart(text[at..]);
      if end < |text| && text[end] == '}' then
        first == Some(Reference(text[at + 2..end])) && at + |Written(first.value)| == end + 1
      else first.None?
  {
    var rest := text[at..];
    assert rest[2..] == text[at + 2..];
    assert rest[2..][..end - at - 2] == text[at + 2..end];
  }

  lemma BraceMissing(text: Text, at: nat)
    requires at < |text| && text[at] == '$' && !(at + 1 < |text| && text[at + 1] == '{')
    ensures FirstPart(text[at..]).None?
  {
  }

  method NameEnd(text: Text, name: nat) returns (src: nat)
    requires name <= |text|
    ensures name <= src <= |text| && src - name == NameLength(text[name..])
  {
    src := name;
    while IsNameChar(Peek(text, src))
      invariant name <= src <= |text|
      invariant NameLength(text[name..]) == src - name + NameLength(text[src..])
      decreases |text| - src
    {
      assert text[src..][1..] == text[src + 1..];
      src := src + 1;
    }
  }

  // From the '$' of a reference to behind its end; None is an exception.
  method SubstituteParamRef(text: Text, at: nat, getter: Getter, allow_list: bool, result: Text)
    returns (r: Option<(nat, Text)>)
    requires at < |text| && text[at] == '$' && NUL !in text
    ensures var first := FirstPart(text[at..]);
      r == if first.None? || Value(first.value, getter, allow_list).None? then None
           else Some((at + |Written(first.value)|, result + Value(first.value, getter, allow_list).value))
  {
    hide Join, FirstPart, NameLength;
    if Peek(text, at + 1) != '{' {
      BraceMissing(text, at);
      return None;
    }
    var src := NameEnd(text, at + 2);
    ReferencePart(text, at, src);
    if Peek(text, src) != '}' {
      return None;
    }
    var ref_name := text[at + 2..src];
    var values := getter(ref_name);
    if values.None? || (!allow_list && |values.value| > 1) {
      return None;
    }
    var output := PutList(result, values.value);
    r := Some((src + 1, output));
  }

  // The values one after the other, with commas between them.
  method PutList(result: Text, values: seq<Text>) returns (output: Text)
    ensures output == result + Join(values, ',')
  {
    output := result;
    for i := 0 to |values|
      invariant output == result + Join(values[..i], ',')
    {
      assert values[..i + 1] == values[..i] + [values[i]];
      if i > 0 {
        JoinMore(values[..i], values[i], ',');
        output := output + [','];
      }
      output := output + values[i];
    }
    assert values[..|values|] == values;
  }

  method EvalStringParam(param_str: Text, getter: Getter, allow_list: bool) returns (r: Option<Text>)
    ensures r == Eval(CString(param_str), getter, allow_list)
  {
    hide Eval, Value, FirstPart, CString;
    var text := CString(param_str);
    var result := [];
    var src := 0;
    assert text[0..] == text;
    AfterNothing(Eval(text, getter, allow_list));
    while Peek(text, src) != NUL
      invariant src <= |text|
      invariant After(result, Eval(text[src..], getter, allow_list)) == Eval(text, getter, allow_list)
      decreases |text| - src
    {
      EvalStep(text[src..], getter, allow_list, result);
      if text[src] == '$' {
        var next := SubstituteParamRef(text, src, getter, allow_list, result);
        if next.None? {
          return None;
        }
        assert text[src..][|Written(FirstPart(text[src..]).value)|..] == text[next.value.0..];
        src, result := next.value.0, next.value.1;
      } else {
        SimplePart(text, src, getter, allow_list);
        if text[src] == '\\' {
          if Peek(text, src + 1) == NUL {
            return None;
          }
          result := result + [text[src + 1]];
          src := src + 2;
        } else {
          result := result + [text[src]];
          src := src + 1;
        }
      }
    }
    assert src == |text|;
    EvalNothing(text[src..], getter, allow_list);
    assert result + [] == result;
    r := Some(result);
  }

  lemma AfterNothing(r: Option<Text>)
    ensures After([], r) == r
  {
    if r.Some? {
      assert [] + r.value == r.value;
    }
  }

  lemma EvalNothing(text: Text, getter: Getter, allow_list: bool)
    requires text == []
    ensures Eval(text, getter, allow_list) == Some([])
  {
  }

  lemma SimplePart(text: Text, at: nat, getter: Getter, allow_list: bool)
    requires at < |text| && text[at] != '$'
    ensures var first := FirstPart(text[at..]);
      if text[at] == '\\' then
        if at + 1 == |text| then first.None?
        else
          && first.Some? && Value(first.value, getter, allow_list) == Some([text[at + 1]])
          && text[at..][|Written(first.value)|..] == text[at + 2..]
      else
        && first.Some? && Value(first.value, getter, allow_list) == Some([text[at]])
        && text[at..][|Written(first.value)|..] == text[at + 1..]
  {
  }

  // ---------- the query string ----------

  datatype Param =
    | ParamRef(name: Text, omit_empty: bool, separate_param: bool)
    | StringParam(name: Text, value: Text)

  // The check of list items looks only at what a C string sees of them.
  predicate IsListItem(item: Text) {
    ',' !in CString(item)
  }

  predicate AreListItems(values: seq<Text>) {
    forall i :: 0 <= i < |values| ==> IsListItem(values[i])
  }

  function SeparatePairs(name: Text, values: seq<Text>): (r: seq<Pair>)
    ensures |r| == |values|
    ensures forall i :: 0 <= i < |values| ==> r[i] == Pair(name, values[i])
  {
    seq(|values|, i requires 0 <= i < |values| => Pair(name, values[i]))
  }

  // The names and values a parameter stands for.
  function PairsOf(p: Param, getter: Getter): Option<seq<Pair>> {
    match p
    case ParamRef(name, omit_empty, separate_param) =>
      var values := getter(name);
      if values.None? then None
      else if separate_param then Some(SeparatePairs(name, values.value))
      else if omit_empty && values.value == [] then Some([])
      else if !AreListItems(values.value) then None
      else Some([Pair(name, Join(values.value, ','))])
    case StringParam(name, value) =>
      var text := Eval(CString(value), getter, true);
      if text.None? then None else Some([Pair(name, text.value)])
  }

  function AllPairs(params: seq<Param>, getter: Getter): Option<seq<Pair>> {
    if params == [] then Some([])
    else
      var (rest, last) := (AllPairs(params[..|params| - 1], getter), PairsOf(params[|params| - 1], getter));
      if rest.None? || last.None? then None else Some(rest.value + last.value)
  }

  // What follows the address.
  function Query(sep: Text, pairs: seq<Pair>): Text {
    if pairs == [] then [] else sep + QueryString(pairs)
  }

  function NextSep(sep: Text, pairs: seq<Pair>): Text {
    if pairs == [] then sep else "&"
  }

  lemma QueryMore(sep: Text, pairs: seq<Pair>, last: Pair)
    ensures Query(sep, pairs + [last]) == Query(sep, pairs) + NextSep(sep, pairs) + EncodePair(last)
  {
    hide EncodePair;
    assert EncodePairs(pairs + [last]) == EncodePairs(pairs) + [EncodePair(last)];
    if pairs != [] {
      JoinMore(EncodePairs(pairs), EncodePair(last), '&');
      assert QueryString(pairs + [last]) == QueryString(pairs) + "&" + EncodePair(last);
    }
  }

  method EncodeTo(stream: Text, text: Text) returns (r: Text)
    ensures r == stream + Encode(text)
  {
    hide SPECIAL;
    r := stream;
    assert text[0..] == text;
    for i := 0 to |text|
      invariant r + Encode(text[i..]) == stream + Encode(text)
    {
      assert text[i..][1..] == text[i + 1..];
      Regroup(r, EncodeChar(text[i]), Encode(text[i + 1..]));
      var ch := text[i];
      if IsEscaped(ch) {
        r := r + ['%', DIGITS[ch as int / 16], DIGITS[ch as int % 16]];
      } else if ch == ' ' {
        r := r + ['+'];
      } else {
        r := r + [ch];
      }
    }
    assert r + [] == r;
  }

  // The separator of the first pair behind an address. strchr stops at '\0'.
  function FirstParamSeparator(url: Text): Text {
    if url != [] && url[|url| - 1] != '?' then
      if '?' in CString(url) then
        if url[|url| - 1] != '&' then "&" else ""
      else "?"
    else ""
  }

  method AppendPair(result: Text, sep: Text, pair: Pair) returns (r: Text)
    ensures r == result + sep + EncodePair(pair)
  {
    hide Encode;
    r := result + sep;
    r := EncodeTo(r, pair.name);
    r := r + "=";
    r := EncodeTo(r, pair.value);
    RegroupLast(result + sep, Encode(pair.name), "=", Encode(pair.value));
  }

  lemma RegroupLast(a: Text, b: Text, c: Text, d: Text)
    ensures a + b + c + d == a + (b + c + d)
  {
  }

  // Nothing is put out, and the separator stays, when the reference is left out.
  ghost predicate Appended(result: Text, sep: Text, pairs: seq<Pair>, result': Text, sep': Text) {
    result' == result + Query(sep, pairs) && sep' == NextSep(sep, pairs)
  }

  method AppendParamRef(result: Text, ref: Param, value_vect: seq<Text>, sep: Text, ghost getter: Getter)
    returns (r: Option<(Text, Text)>)
    requires ref.ParamRef? && getter(ref.name) == Some(value_vect)
    ensures r.Some? <==> PairsOf(ref, getter).Some?
    ensures r.Some? ==> Appended(result, sep, PairsOf(ref, getter).value, r.value.0, r.value.1)
  {
    hide Encode, EncodePair, CString, Join;
    if ref.separate_param {
      var output := AppendSeparate(result, ref.name, value_vect, sep);
      r := Some(output);
    } else if !(ref.omit_empty && value_vect == []) {
      r := AppendList(result, ref.name, value_vect, sep);
    } else {
      assert result + [] == result;
      r := Some((result, sep));
    }
  }

  method AppendSeparate(result: Text, name: Text, value_vect: seq<Text>, sep: Text) returns (r: (Text, Text))
    ensures Appended(result, sep, SeparatePairs(name, value_vect), r.0, r.1)
  {
    hide Encode, EncodePair, Join;
    var output: Text, next: Text := result, sep;
    assert result + [] == result;
    for i := 0 to |value_vect|
      invariant Appended(result, sep, SeparatePairs(name, value_vect[..i]), output, next)
    {
      var pairs := SeparatePairs(name, value_vect[..i]);
      var last := Pair(name, value_vect[i]);
      assert SeparatePairs(name, value_vect[..i + 1]) == pairs + [last];
      QueryMore(sep, pairs, last);
      RegroupLast(result, Query(sep, pairs), next, EncodePair(last));
      output := AppendPair(output, next, last);
      next := "&";
    }
    assert value_vect[..|value_vect|] == value_vect;
    r := (output, next);
  }

  method AppendList(result: Text, name: Text, value_vect: seq<Text>, sep: Text) returns (r: Option<(Text, Text)>)
    ensures r.Some? <==> AreListItems(value_vect)
    ensures r.Some? ==> Appended(result, sep, [Pair(name, Join(value_vect, ','))], r.value.0, r.value.1)
  {
    hide Encode, CString, IsListItem;
    var output := result + sep;
    output := EncodeTo(output, name);
    output := output + "=";
    ghost var start := output;
    var sep2 := "";
    EncodeNothing();
    assert start + [] == start;
    for i := 0 to |value_vect|
      invariant forall j :: 0 <= j < i ==> IsListItem(value_vect[j])
      invariant output == start + Encode(Join(value_vect[..i], ','))
      invariant sep2 == if i == 0 then "" else ","
    {
      if !IsListItem(value_vect[i]) {
        return None;
      }
      assert value_vect[..i + 1] == value_vect[..i] + [value_vect[i]];
      EncodeJoin(value_vect[..i], value_vect[i]);
      output := output + sep2;
      output := EncodeTo(output, value_vect[i]);
      sep2 := ",";
    }
    assert value_vect[..|value_vect|] == value_vect;
    RegroupLast(result + sep, Encode(name), "=", Encode(Join(value_vect, ',')));
    r := Some((output, "&"));
  }

  lemma EncodeNothing()
    ensures Encode([]) == []
  {
  }

  // A comma is not escaped.
  lemma EncodeJoin(parts: seq<Text>, last: Text)
    ensures Encode(Join(parts + [last], ',')) ==
            Encode(Join(parts, ',')) + (if parts == [] then "" else ",") + Encode(last)
  {
    hide SPECIAL;
    if parts == [] {
      assert parts + [last] == [last];
    } else {
      JoinMore(parts, last, ',');
      CommaIsPlain();
      EncodeJoined(Join(parts, ',') + [','], last);
      EncodeJoined(Join(parts, ','), [',']);
      assert Encode([',']) == EncodeChar(',') + Encode([]);
    }
  }

  function Generated(url: Text, params: seq<Param>, getter: Getter): Option<Text> {
    var (base, pairs) := (Eval(CString(url), getter, false), AllPairs(params, getter));
    if base.None? || pairs.None? then None
    else Some(base.value + Query(FirstParamSeparator(url), pairs.value))
  }

  lemma NoQuery(result: Text, sep: Text)
    ensures Appended(result, sep, [], result, sep)
  {
    assert result + [] == result;
  }

  lemma OnePair(result: Text, sep: Text, pair: Pair)
    ensures Appended(result, sep, [pair], result + sep + EncodePair(pair), "&")
  {
    hide EncodePair;
    assert EncodePairs([pair]) == [EncodePair(pair)];
    Regroup(result, sep, EncodePair(pair));
  }

  lemma {:induction false} JoinJoined(a: seq<Text>, b: seq<Text>, with: Octet)
    requires a != [] && b != []
    ensures Join(a + b, with) == Join(a, with) + [with] + Join(b, with)
  {
    assert (a + b)[1..] == a[1..] + b;
    if |a| == 1 {
      assert a[1..] + b == b;
    } else {
      JoinJoined(a[1..], b, with);
      assert a[0] + [with] + (Join(a[1..], with) + [with] + Join(b, with)) == Join(a, with) + [with] + Join(b, with);
    }
  }

  lemma AppendedBoth(base: Text, sep: Text, p: seq<Pair>, mid: Text, mid_sep: Text, q: seq<Pair>, end: Text,
                     end_sep: Text)
    requires Appended(base, sep, p, mid, mid_sep) && Appended(mid, mid_sep, q, end, end_sep)
    ensures Appended(base, sep, p + q, end, end_sep)
  {
    hide EncodePair, Join;
    Regroup(base, Query(sep, p), Query(mid_sep, q));
    if p == [] {
      assert p + q == q && Query(sep, p) + Query(mid_sep, q) == Query(sep, q);
    } else if q == [] {
      assert p + q == p && Query(sep, p) + Query(mid_sep, q) == Query(sep, p);
    } else {
      assert EncodePairs(p + q) == EncodePairs(p) + EncodePairs(q);
      JoinJoined(EncodePairs(p), EncodePairs(q), '&');
      assert Query(sep, p + q) == Query(sep, p) + Query(mid_sep, q);
    }
  }

  lemma AllPairsNext(params: seq<Param>, getter: Getter, i: nat)
    requires i < |params| && AllPairs(params[..i], getter).Some?
    ensures PairsOf(params[i], getter).None? ==> AllPairs(params, getter).None?
    ensures PairsOf(params[i], getter).Some? ==>
      AllPairs(params[..i + 1], getter) == Some(AllPairs(params[..i], getter).value + PairsOf(params[i], getter).value)
  {
    hide PairsOf;
    assert params[..i + 1][..i] == params[..i];
    if PairsOf(params[i], getter).None? {
      AllPairsFail(params, getter, i + 1);
    }
  }

  lemma {:induction false} AllPairsFail(params: seq<Param>, getter: Getter, n: nat)
    requires n <= |params| && AllPairs(params[..n], getter).None?
    ensures AllPairs(params, getter).None?
    decreases |params|
  {
    hide PairsOf;
    if n == |params| {
      assert params[..n] == params;
    } else {
      assert params[..|params| - 1][..n] == params[..n];
      AllPairsFail(params[..|params| - 1], getter, n);
    }
  }

  lemma GetterFails(p: Param, getter: Getter)
    requires p.ParamRef? && getter(p.name).None?
    ensures PairsOf(p, getter).None?
  {
  }

  lemma StringPairs(p: Param, getter: Getter)
    requires p.StringParam?
    ensures var text := Eval(CString(p.value), getter, true);
      PairsOf(p, getter) == if text.None? then None else Some([Pair(p.name, text.value)])
  {
  }

  class UrlTemplateGenerator {
    const url: Text
    const params: seq<Param>

    constructor (url: Text, params: seq<Param>)
      ensures this.url == url && this.params == params
    {
      this.url := url;
      this.params := params;
    }

    method Generate(getter: Getter) returns (r: Option<Text>)
      ensures r == Generated(url, params, getter)
    {
      hide Encode, EncodePair, Eval, CString, Join, PairsOf, Query, FirstParamSeparator;
      var base := EvalStringParam(url, getter, false);
      if base.None? {
        return None;
      }
      var result := base.value;
      var sep: Text := "";
      NoQuery(result, FirstParamSeparator(url));
      if params != [] {
        sep := FirstParamSeparator(url);
        ghost var first := sep;
        for i := 0 to |params|
          invariant AllPairs(params[..i], getter).Some?
          invariant Appended(base.value, first, AllPairs(params[..i], getter).value, result, sep)
        {
          AllPairsNext(params, getter, i);
          ghost var before, before_sep: Text := result, sep;
          match params[i] {
            case ParamRef(name, _, _) =>
              var value_vect := getter(name);
              if value_vect.None? {
                GetterFails(params[i], getter);
                return None;
              }
              var output := AppendParamRef(result, params[i], value_vect.value, sep, getter);
              if output.None? {
                return None;
              }
              result, sep := output.value.0, output.value.1;
            case StringParam(name, value) =>
              StringPairs(params[i], getter);
              var text := EvalStringParam(value, getter, true);
              if text.None? {
                return None;
              }
              OnePair(result, sep, Pair(name, text.value));
              result := AppendPair(result, sep, Pair(name, text.value));
              sep := "&";
          }
          AppendedBoth(base.value, first, AllPairs(params[..i], getter).value, before, before_sep,
                       PairsOf(params[i], getter).value, result, sep);
        }
        assert params[..|params|] == params;
      }
      r := Some(result);
    }
  }
}
