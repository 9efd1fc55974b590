/** What a reader of a generated URL gets back. */
module UrlReading {
  import opened Wrappers
  import opened Texts
  import opened Sequences
  import opened Substitution
  import opened UrlEncoding
  import opened UrlTemplates

  // A list value split at commas gives back the items exactly when none of them contains one.
  lemma ListRoundTrip(p: Param, getter: Getter)
    requires p.ParamRef? && !p.separate_param && getter(p.name).Some? && getter(p.name).value != []
    requires PairsOf(p, getter).Some?
    ensures |PairsOf(p, getter).value| == 1
    ensures Split(PairsOf(p, getter).value[0].value, ',') == getter(p.name).value <==>
            forall i :: 0 <= i < |getter(p.name).value| ==> ',' !in getter(p.name).value[i]
  {
    hide Split, Join, CString;
    SplitUndoesJoin(getter(p.name).value, ',');
  }

  // Without '\0' in the items, the list is either refused or read back.
  lemma ListAccepted(p: Param, getter: Getter)
    requires p.ParamRef? && !p.separate_param && getter(p.name).Some? && getter(p.name).value != []
    requires forall i :: 0 <= i < |getter(p.name).value| ==> NUL !in getter(p.name).value[i]
    ensures PairsOf(p, getter).Some? <==>
            forall i :: 0 <= i < |getter(p.name).value| ==> ',' !in getter(p.name).value[i]
    ensures PairsOf(p, getter).Some? ==> Split(PairsOf(p, getter).value[0].value, ',') == getter(p.name).value
  {
    hide Split, Join;
    forall i | 0 <= i < |getter(p.name).value| ensures CString(getter(p.name).value[i]) == getter(p.name).value[i] {
      CStringWhole(getter(p.name).value[i]);
    }
    hide CString;
    if PairsOf(p, getter).Some? {
      ListRoundTrip(p, getter);
    }
  }

  lemma CStringWhole(s: Text)
    requires NUL !in s
    ensures CString(s) == s
  {
  }

  // A comma behind a '\0' is not noticed.
  lemma CommaBehindNul(name: Text, getter: Getter)
    requires getter(name) == Some([[NUL, ',']])
    ensures PairsOf(ParamRef(name, false, false), getter) == Some([Pair(name, [NUL, ','])])
    ensures Split([NUL, ','], ',') == [[NUL], []]
  {
    assert Join([[NUL, ',']], ',') == [NUL, ','];
    SplitOne([NUL], ',');
    SplitOne([], ',');
    SplitAt([NUL], ',', []);
    assert [NUL] + [','] + [] == [NUL, ','];
  }

  // The fields of everything behind the first '?'.
  function Fields(url: Text): seq<Text> {
    var cut := CutAt(url, '?');
    if cut.None? then [] else NotEmpty(Split(cut.value.1, '&'))
  }

  function NotEmpty(parts: seq<Text>): seq<Text> {
    if parts == [] then []
    else (if parts[0] == [] then [] else [parts[0]]) + NotEmpty(parts[1..])
  }

  lemma {:induction false} NotEmptyJoined(a: seq<Text>, b: seq<Text>)
    ensures NotEmpty(a + b) == NotEmpty(a) + NotEmpty(b)
  {
    if a == [] {
      assert a + b == b;
    } else {
      assert (a + b)[1..] == a[1..] + b;
      NotEmptyJoined(a[1..], b);
    }
  }

  lemma {:induction false} AllNotEmpty(parts: seq<Text>)
    requires forall i :: 0 <= i < |parts| ==> parts[i] != []
    ensures NotEmpty(parts) == parts
  {
    if parts != [] {
      AllNotEmpty(parts[1..]);
      assert parts == [parts[0]] + parts[1..];
    }
  }

  lemma {:induction false} CutAtNone(s: Text, at: Octet)
    requires at !in s
    ensures CutAt(s, at).None?
  {
    if s != [] {
      CutAtNone(s[1..], at);
    }
  }

  lemma {:induction false} CutAtSome(s: Text, at: Octet)
    requires at in s
    ensures CutAt(s, at).Some?
    ensures var (a, b) := CutAt(s, at).value; at !in a && s == a + [at] + b
  {
    if s[0] == at {
      assert s == [] + [at] + s[1..];
    } else {
      CutAtSome(s[1..], at);
      var (a, b) := CutAt(s[1..], at).value;
      assert s == [s[0]] + (a + [at] + b);
      assert s == [s[0]] + a + [at] + b;
    }
  }

  function Glued(p: seq<Text>, q: seq<Text>): seq<Text>
    requires p != [] && q != []
  {
    p[..|p| - 1] + [p[|p| - 1] + q[0]] + q[1..]
  }

  // How one more character in front changes a split text.
  function Longer(c: Octet, at: Octet, parts: seq<Text>): (r: seq<Text>)
    requires parts != []
    ensures r != []
  {
    if c == at then [[]] + parts else [[c] + parts[0]] + parts[1..]
  }

  lemma LongerGlued(c: Octet, at: Octet, p: seq<Text>, q: seq<Text>)
    requires p != [] && q != []
    ensures Longer(c, at, Glued(p, q)) == Glued(Longer(c, at, p), q)
  {
    var r := Longer(c, at, p);
    if |p| == 1 {
      assert p[..0] == [] && Glued(p, q) == [p[0] + q[0]] + q[1..];
      if c == at {
        assert r[..1] == [[]] && Glued(r, q) == [[], p[0] + q[0]] + q[1..];
      } else {
        assert [c] + (p[0] + q[0]) == [c] + p[0] + q[0];
        assert r == [[c] + p[0]] && Glued(r, q) == [[c] + p[0] + q[0]] + q[1..];
      }
    } else {
      LongerFirst(c, at, p[..|p| - 1], [p[|p| - 1] + q[0]] + q[1..]);
      LongerFirst(c, at, p[..|p| - 1], [p[|p| - 1]]);
      var init := Longer(c, at, p[..|p| - 1]);
      assert p == p[..|p| - 1] + [p[|p| - 1]];
      assert r == init + [p[|p| - 1]] && r[..|r| - 1] == init;
      assert Glued(p, q) == p[..|p| - 1] + ([p[|p| - 1] + q[0]] + q[1..]);
      assert Glued(r, q) == init + ([p[|p| - 1] + q[0]] + q[1..]);
    }
  }

  lemma LongerFirst(c: Octet, at: Octet, a: seq<Text>, b: seq<Text>)
    requires a != []
    ensures Longer(c, at, a + b) == Longer(c, at, a) + b
  {
  }

  // Texts put together without a separator share a part.
  lemma {:induction false} SplitGlued(a: Text, b: Text, at: Octet)
    ensures Split(a + b, at) == Glued(Split(a, at), Split(b, at))
  {
    hide Glued;
    if a == [] {
      GluedToNothing(Split(b, at));
      assert a + b == b;
    } else {
      SplitGlued(a[1..], b, at);
      assert (a + b)[1..] == a[1..] + b;
      LongerGlued(a[0], at, Split(a[1..], at), Split(b, at));
    }
  }

  lemma GluedToNothing(q: seq<Text>)
    requires q != []
    ensures Glued([[]], q) == q
  {
    assert [] + q[0] == q[0];
  }

  lemma {:induction false} LastPart(s: Text, at: Octet)
    ensures var p := Split(s, at); p[|p| - 1] == [] <==> s == [] || s[|s| - 1] == at
  {
    if |s| > 0 {
      LastPart(s[1..], at);
    }
  }

  lemma QueryParts(pairs: seq<Pair>)
    requires pairs != []
    ensures Split(QueryString(pairs), '&') == EncodePairs(pairs) && NotEmpty(EncodePairs(pairs)) == EncodePairs(pairs)
    ensures '?' !in QueryString(pairs)
  {
    hide EncodePair, Split, Join;
    forall i | 0 <= i < |pairs|
      ensures '&' !in EncodePairs(pairs)[i] && '?' !in EncodePairs(pairs)[i] && EncodePairs(pairs)[i] != []
    {
      PairIsPlain(pairs[i]);
    }
    SplitJoin(EncodePairs(pairs), '&');
    AllNotEmpty(EncodePairs(pairs));
    JoinWithout(EncodePairs(pairs), '&', '?');
  }

  lemma {:induction false} JoinWithout(parts: seq<Text>, with: Octet, c: Octet)
    requires c != with && forall i :: 0 <= i < |parts| ==> c !in parts[i]
    ensures c !in Join(parts, with)
  {
    if |parts| > 1 {
      JoinWithout(parts[1..], with, c);
    }
  }

  lemma NotEmptyOne(s: Text)
    ensures NotEmpty([s]) == if s == [] then [] else [s]
  {
  }

  // Fields put behind other ones with nothing, or only a mark, in between: the last old field and the
  // first new one become one, unless there is no old one and no mark.
  lemma GluedFields(init: seq<Text>, last: Text, mark: Text, fields: seq<Text>)
    requires fields != [] && NotEmpty(fields) == fields
    ensures NotEmpty(init + [last + mark + fields[0]] + fields[1..]) == NotEmpty(init + [last]) + fields <==>
            last == [] && mark == []
  {
    hide NotEmpty;
    var first, rest := fields[0], fields[1..];
    assert fields == [first] + rest;
    NotEmptyJoined([first], rest);
    NotEmptyOne(first);
    FirstNotEmpty(fields);
    assert NotEmpty(rest) == rest;
    NotEmptyJoined(init + [last + mark + first], rest);
    NotEmptyJoined(init, [last + mark + first]);
    NotEmptyOne(last + mark + first);
    NotEmptyJoined(init, [last]);
    NotEmptyOne(last);
    var kept := NotEmpty(init);
    var glued := kept + [last + mark + first] + rest;
    assert NotEmpty(init + [last + mark + first] + rest) == glued;
    if last == [] {
      assert NotEmpty(init + [last]) + fields == kept + fields;
      assert glued[|kept|] == last + mark + first && (kept + fields)[|kept|] == first;
      assert mark == [] ==> last + mark + first == first;
    }
  }

  lemma {:induction false} FirstNotEmpty(fields: seq<Text>)
    requires fields != [] && NotEmpty(fields) == fields
    ensures fields[0] != []
  {
    NotEmptyShrinks(fields[1..]);
  }

  lemma {:induction false} NotEmptyShrinks(parts: seq<Text>)
    ensures |NotEmpty(parts)| <= |parts|
  {
    if parts != [] {
      NotEmptyShrinks(parts[1..]);
    }
  }

  // The separators with which a query can stand behind an address: '?' when the address has none yet;
  // else '&', or nothing when there is nothing, or a '&', at the end of the fields.
  predicate IsRightSeparator(base: Text, sep: Text) {
    var cut := CutAt(base, '?');
    if cut.None? then sep == "?" else sep == "&" || (sep == "" && EndsFields(cut.value.1))
  }

  predicate EndsFields(b: Text) {
    b == [] || b[|b| - 1] == '&'
  }

  // Behind any address, the fields that are there are kept and the new ones added exactly with such a
  // separator.
  lemma SeparatorFits(base: Text, sep: Text, pairs: seq<Pair>)
    requires pairs != [] && (sep == "" || sep == "?" || sep == "&")
    ensures Fields(base + sep + QueryString(pairs)) == Fields(base) + EncodePairs(pairs) <==>
            IsRightSeparator(base, sep)
  {
    hide EncodePair, Split, NotEmpty, QueryString, CutAt, EndsFields;
    QueryParts(pairs);
    var query := QueryString(pairs);
    if '?' in base {
      CutAtSome(base, '?');
      var (a, b) := CutAt(base, '?').value;
      assert base + sep + query == a + ['?'] + (b + sep + query);
      CutAtFirst(a, '?', b + sep + query);
      FitsFields(b, sep, pairs);
    } else {
      CutAtNone(base, '?');
      if sep == "?" {
        CutAtFirst(base, '?', query);
        assert [] + EncodePairs(pairs) == EncodePairs(pairs);
      } else {
        CutAtNone(base + sep + query, '?');
        assert |[] + EncodePairs(pairs)| > 0;
      }
    }
  }

  lemma FitsFields(b: Text, sep: Text, pairs: seq<Pair>)
    requires pairs != [] && (sep == "" || sep == "?" || sep == "&")
    ensures NotEmpty(Split(b + sep + QueryString(pairs), '&')) == NotEmpty(Split(b, '&')) + EncodePairs(pairs) <==>
            sep == "&" || (sep == "" && EndsFields(b))
  {
    hide EncodePair, Split, NotEmpty, QueryString, Glued;
    var query, q := QueryString(pairs), EncodePairs(pairs);
    QueryParts(pairs);
    if sep == "&" {
      SplitAt(b, '&', query);
      NotEmptyJoined(Split(b, '&'), q);
    } else {
      var p := Split(b, '&');
      LastPart(b, '&');
      assert p == p[..|p| - 1] + [p[|p| - 1]];
      GluedFields(p[..|p| - 1], p[|p| - 1], sep, q);
      GluedTwice(b, sep, query);
    }
  }

  lemma GluedTwice(b: Text, sep: Text, query: Text)
    requires sep == "" || sep == "?"
    ensures var (p, q) := (Split(b, '&'), Split(query, '&'));
      Split(b + sep + query, '&') == p[..|p| - 1] + [p[|p| - 1] + sep + q[0]] + q[1..]
  {
    hide Split;
    var p, q := Split(b, '&'), Split(query, '&');
    if sep == "" {
      assert b + sep == b && p[|p| - 1] + sep == p[|p| - 1];
      SplitGlued(b, query, '&');
    } else {
      SplitOne(sep, '&');
      SplitGlued(b, sep, '&');
      SplitGlued(b + sep, query, '&');
      var marked := Split(b + sep, '&');
      assert marked == p[..|p| - 1] + [p[|p| - 1] + sep];
      assert marked[..|marked| - 1] == p[..|p| - 1];
    }
  }

  // A URL gets the intended names and values, in order, behind the fields its evaluated address has,
  // exactly when the separator, which is chosen by the template, is right for the evaluated address.
  lemma GeneratedReadBack(url: Text, params: seq<Param>, getter: Getter)
    ensures Generated(url, params, getter).Some? <==>
            Eval(CString(url), getter, false).Some? && AllPairs(params, getter).Some?
    ensures Generated(url, params, getter).Some? && AllPairs(params, getter).value != [] ==>
      var base := Eval(CString(url), getter, false).value;
      var pairs := AllPairs(params, getter).value;
      var fields := Fields(Generated(url, params, getter).value);
      && (fields == Fields(base) + EncodePairs(pairs) <==> IsRightSeparator(base, FirstParamSeparator(url)))
      && (IsRightSeparator(base, FirstParamSeparator(url)) ==>
            |Fields(base)| <= |fields| && fields[..|Fields(base)|] == Fields(base)
            && ReadPairs(fields[|Fields(base)|..]) == Some(pairs))
  {
    hide Fields, EncodePair, AllPairs, Eval, QueryString, ReadPairs, CString, IsRightSeparator;
    if Generated(url, params, getter).Some? && AllPairs(params, getter).value != [] {
      var base, pairs := Eval(CString(url), getter, false).value, AllPairs(params, getter).value;
      SeparatorFits(base, FirstParamSeparator(url), pairs);
      ReadPairsBack(pairs);
      Regroup(base, FirstParamSeparator(url), QueryString(pairs));
    }
  }

  // An address that ends with a '?' which is not its first one.
  predicate EndsWithSecondMark(url: Text) {
    url != [] && url[|url| - 1] == '?' && '?' in url[..|url| - 1]
  }

  // An address that stands for itself gets a right separator exactly when it is not left out and does
  // not end with a second '?'.
  lemma OwnSeparator(url: Text)
    requires NUL !in url
    ensures IsRightSeparator(url, FirstParamSeparator(url)) <==> url != [] && !EndsWithSecondMark(url)
  {
    hide CString, CutAt;
    CStringWhole(url);
    if '?' in url {
      CutAtSome(url, '?');
      var (a, b) := CutAt(url, '?').value;
      if b == [] {
        assert url[..|url| - 1] == a;
      } else {
        assert url[|url| - 1] == b[|b| - 1];
        assert url[..|url| - 1][|a|] == '?';
      }
    } else {
      CutAtNone(url, '?');
    }
  }

  // An address that is a single reference gets a '?' whatever its value is, so that a value with fields
  // of its own gets the wrong one.
  lemma ReferencedAddress(name: Text, getter: Getter, base: Text)
    requires IsName(name) && getter(name) == Some([base])
    ensures var url := Written(Reference(name));
      && Eval(CString(url), getter, false) == Some(base)
      && (IsRightSeparator(base, FirstParamSeparator(url)) <==> '?' !in base)
  {
    hide CutAt;
    var url := Written(Reference(name));
    assert NUL !in url && '?' !in url;
    CStringWhole(url);
    hide CString;
    PartsOfWritten([Reference(name)]);
    assert WrittenAll([Reference(name)]) == url + [] == url;
    assert Values([Reference(name)], getter, false) == Some(base) by {
      assert base + [] == base;
    }
    if '?' in base {
      CutAtSome(base, '?');
    } else {
      CutAtNone(base, '?');
    }
  }

  // ---------- the fields a template stands for ----------

  // The names and values that one parameter of a template puts into the query string.
  ghost predicate FieldsOf(p: Param, getter: Getter, pairs: seq<Pair>) {
    match p
    case ParamRef(name, omit_empty, separate_param) =>
      && getter(name).Some?
      && var values := getter(name).value;
         if separate_param then
           |pairs| == |values| && forall i :: 0 <= i < |values| ==> pairs[i] == Pair(name, values[i])
         else if omit_empty && values == [] then pairs == []
         else
           && |pairs| == 1 && pairs[0].name == name
           && (values == [] ==> pairs[0].value == [])
           && (|values| == 1 ==> pairs[0].value == values[0])
           && (values != [] && (forall i :: 0 <= i < |values| ==> ',' !in values[i]) ==>
                 Split(pairs[0].value, ',') == values)
    case StringParam(name, value) =>
      Eval(CString(value), getter, true).Some? && pairs == [Pair(name, Eval(CString(value), getter, true).value)]
  }

  // It fails when its values or its text cannot be had, or when an item of a list has a comma.
  ghost predicate FieldsFail(p: Param, getter: Getter) {
    match p
    case ParamRef(name, omit_empty, separate_param) =>
      getter(name).None? || (!separate_param && exists v :: v in getter(name).value && ',' in CString(v))
    case StringParam(name, value) => Eval(CString(value), getter, true).None?
  }

  function Joined(parts: seq<seq<Pair>>): seq<Pair> {
    if parts == [] then [] else Joined(parts[..|parts| - 1]) + parts[|parts| - 1]
  }

  // The fields of a whole template, one part for each parameter, in order.
  ghost predicate AllFieldsOf(params: seq<Param>, getter: Getter, pairs: seq<Pair>) {
    exists parts: seq<seq<Pair>> ::
      && |parts| == |params| && pairs == Joined(parts)
      && forall i :: 0 <= i < |params| ==> FieldsOf(params[i], getter, parts[i])
  }

  lemma OneJoined(values: seq<Text>)
    ensures values == [] ==> Join(values, ',') == []
    ensures |values| == 1 ==> Join(values, ',') == values[0]
  {
  }

  lemma PairsAreFields(p: Param, getter: Getter)
    ensures PairsOf(p, getter).None? <==> FieldsFail(p, getter)
    ensures PairsOf(p, getter).Some? ==> FieldsOf(p, getter, PairsOf(p, getter).value)
  {
    hide CString, Join, Split, Eval;
    if p.ParamRef? && getter(p.name).Some? {
      var values := getter(p.name).value;
      OneJoined(values);
      if values != [] {
        SplitUndoesJoin(values, ',');
      }
    }
  }

  lemma {:induction false} AllPairsAreFields(params: seq<Param>, getter: Getter)
    ensures AllPairs(params, getter).None? <==> exists p :: p in params && FieldsFail(p, getter)
    ensures AllPairs(params, getter).Some? ==> AllFieldsOf(params, getter, AllPairs(params, getter).value)
  {
    hide PairsOf, FieldsOf, FieldsFail;
    if params == [] {
      assert Joined([]) == [] && AllFieldsOf([], getter, []);
    } else {
      var init, last := params[..|params| - 1], params[|params| - 1];
      AllPairsAreFields(init, getter);
      PairsAreFields(last, getter);
      assert forall p :: p in params <==> p in init || p == last;
      if AllPairs(params, getter).Some? {
        var parts: seq<seq<Pair>> :| |parts| == |init| && AllPairs(init, getter).value == Joined(parts)
          && forall i :: 0 <= i < |init| ==> FieldsOf(init[i], getter, parts[i]);
        MoreFields(init, last, getter, parts, PairsOf(last, getter).value);
      }
    }
  }

  lemma MoreFields(init: seq<Param>, last: Param, getter: Getter, parts: seq<seq<Pair>>, part: seq<Pair>)
    requires |parts| == |init| && forall i :: 0 <= i < |init| ==> FieldsOf(init[i], getter, parts[i])
    requires FieldsOf(last, getter, part)
    ensures AllFieldsOf(init + [last], getter, Joined(parts) + part)
  {
    hide FieldsOf;
    var more := parts + [part];
    assert more[..|parts|] == parts && more[|parts|] == part;
    assert Joined(more) == Joined(parts) + part;
  }

  // A URL is generated exactly when its address can be evaluated and no parameter fails. Behind the
  // evaluated address it has a query string that reads back as the fields of the template, in order, and
  // nothing when there are none.
  lemma GeneratedExactly(url: Text, params: seq<Param>, getter: Getter)
    ensures Generated(url, params, getter).Some? <==>
            Eval(CString(url), getter, false).Some? && forall p :: p in params ==> !FieldsFail(p, getter)
    ensures Generated(url, params, getter).Some? ==>
      exists pairs: seq<Pair> :: AllFieldsOf(params, getter, pairs) && (
        var base := Eval(CString(url), getter, false).value;
        if pairs == [] then Generated(url, params, getter).value == base
        else exists query ::
               && Generated(url, params, getter).value == base + FirstParamSeparator(url) + query
               && ReadPairs(Split(query, '&')) == Some(pairs))
  {
    hide AllPairs, Eval, CString, FieldsFail, AllFieldsOf, Split, ReadPairs, FirstParamSeparator, QueryString;
    AllPairsAreFields(params, getter);
    if Generated(url, params, getter).Some? {
      var base, pairs := Eval(CString(url), getter, false).value, AllPairs(params, getter).value;
      if pairs == [] {
        assert base + [] == base;
      } else {
        QueryRoundTrip(pairs);
        Regroup(base, FirstParamSeparator(url), QueryString(pairs));
      }
      assert AllFieldsOf(params, getter, pairs);
    }
  }

  // The fields of a template are determined, except for lists with items that hide a comma behind a '\0'.
  lemma FieldsAreThese(p: Param, getter: Getter, a: seq<Pair>, b: seq<Pair>)
    requires FieldsOf(p, getter, a) && FieldsOf(p, getter, b)
    requires p.ParamRef? ==> forall v :: v in getter(p.name).value ==> ',' !in v
    ensures a == b
  {
    hide Eval, CString, Split;
    if p.ParamRef? && !p.separate_param && getter(p.name).value != [] {
      JoinUndoesSplit(a[0].value, ',');
      JoinUndoesSplit(b[0].value, ',');
    }
  }

  lemma {:induction false} JoinUndoesSplit(s: Text, at: Octet)
    ensures Join(Split(s, at), at) == s
  {
    if s != [] {
      JoinUndoesSplit(s[1..], at);
      var parts := Split(s[1..], at);
      if s[0] == at {
        assert ([[]] + parts)[1..] == parts;
      } else {
        var grown := [[s[0]] + parts[0]] + parts[1..];
        assert grown[1..] == parts[1..];
        if |parts| > 1 {
          assert [s[0]] + (parts[0] + [at] + Join(parts[1..], at)) == [s[0]] + parts[0] + [at] + Join(parts[1..], at);
        }
      }
      assert s == [s[0]] + s[1..];
    }
  }

  // A reference in a text stands for its values with commas between them; where a single value is wanted,
  // more than one is refused.
  lemma ReferenceValue(name: Text, getter: Getter, allow_list: bool)
    requires IsName(name)
    ensures Eval(Written(Reference(name)), getter, allow_list) ==
            if getter(name).None? || (!allow_list && |getter(name).value| > 1) then None
            else Some(Join(getter(name).value, ','))
  {
    hide Join;
    PartsOfWritten([Reference(name)]);
    var url := Written(Reference(name));
    assert WrittenAll([Reference(name)]) == url + [] == url;
    ValuesOfOne(Reference(name), getter, allow_list);
  }

  lemma ValuesOfOne(p: Part, getter: Getter, allow_list: bool)
    ensures Values([p], getter, allow_list) == Value(p, getter, allow_list)
  {
    hide Value;
    assert [p][1..] == [];
    if Value(p, getter, allow_list).Some? {
      assert Value(p, getter, allow_list).value + [] == Value(p, getter, allow_list).value;
    }
  }

  // A '?' behind a '\0' is not seen.
  lemma MarkBehindNul()
    ensures FirstParamSeparator(['a', NUL, '?', 'b']) == "?" && FirstParamSeparator(['a', '?', 'b']) == "&"
  {
    assert CString(['a', '?', 'b'])[1] == '?';
    assert ['a', NUL, '?', 'b'][1..] == [NUL, '?', 'b'];
    assert CString([NUL, '?', 'b']) == [];
    assert CString(['a', NUL, '?', 'b']) == ['a'];
  }

  // Names of references have letters, digits and '_', and end with a '}'; nothing else is a reference.
  lemma ReferenceNames()
    ensures FirstPart("${a_B9}c") == Some(Reference("a_B9"))
    ensures FirstPart("${a-b}").None? && FirstPart("${a").None? && FirstPart("$a").None? && FirstPart("\\").None?
    ensures FirstPart("\\$").Some? && FirstPart("\\$") == Some(Escaped('$')) && FirstPart("{") == Some(Literal('{'))
  {
    FirstWritten(Reference("a_B9"), "c");
    assert Written(Reference("a_B9")) + "c" == "${a_B9}c";
    NameEnds("a", "-b}");
    assert "${a-b}"[2..] == "a" + "-b}";
    NoEnd("a");
    assert "${a"[2..] == "a";
  }

  lemma {:induction false} NoEnd(name: Text)
    requires IsName(name)
    ensures NameLength(name) == |name|
  {
    if name != [] {
      NoEnd(name[1..]);
    }
  }
}
