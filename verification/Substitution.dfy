/** RequestBase::substitute_all: the four markers of a response text and what is put in their place. */
module Substitution {
  import opened Wrappers
  import opened Texts
  import opened Sequences

  const NUL: Octet := '\0'
  const FMI_APIKEY_SUBST: Text := "@FMI_APIKEY@"
  const FMI_APIKEY_PREFIX_SUBST: Text := "@FMI_APIKEY_PREFIX@"
  const HOSTNAME_SUBST: Text := "@HOSTNAME@"
  const PROTOCOL_SUBST: Text := "@PROTOCOL@"

  datatype Subst = Subst(marker: Text, value: Text)

  // What a C string sees of a text.
  function CString(s: Text): (r: Text)
    ensures |r| <= |s| && r == s[..|r|] && NUL !in r
    ensures |r| < |s| ==> s[|r|] == NUL
  {
    if s == [] || s[0] == NUL then [] else [s[0]] + CString(s[1..])
  }

  // Markers are not empty, and none of them begins another one.
  predicate Markers(list: seq<Subst>) {
    && (forall i :: 0 <= i < |list| ==> list[i].marker != [] && NUL !in list[i].marker)
    && (forall i, j :: 0 <= i < |list| && 0 <= j < |list| && list[i].marker <= list[j].marker ==> i == j)
  }

  function Given(value: Option<Text>, default: Text): Text {
    if value.Some? then value.value else default
  }

  function SubstList(apikey: Option<Text>, prefix: Option<Text>, hostname: Option<Text>, protocol: Option<Text>)
    : seq<Subst>
  {
    [Subst(FMI_APIKEY_PREFIX_SUBST, Given(prefix, [])),
     Subst(FMI_APIKEY_SUBST, Given(apikey, [])),
     Subst(HOSTNAME_SUBST, Given(hostname, "localhost")),
     Subst(PROTOCOL_SUBST, Given(protocol, "http") + "://")]
  }

  lemma SubstListMarkers(apikey: Option<Text>, prefix: Option<Text>, hostname: Option<Text>, protocol: Option<Text>)
    ensures Markers(SubstList(apikey, prefix, hostname, protocol))
  {
    MarkersApart();
    SameMarkers(SubstList(None, None, None, None), SubstList(apikey, prefix, hostname, protocol));
  }

  lemma SameMarkers(list: seq<Subst>, other: seq<Subst>)
    requires Markers(list) && |list| == |other|
    requires forall i :: 0 <= i < |list| ==> list[i].marker == other[i].marker
    ensures Markers(other)
  {
  }

  lemma MarkersApart()
    ensures Markers(SubstList(None, None, None, None))
  {
    MarkersDiffer(FMI_APIKEY_PREFIX_SUBST, FMI_APIKEY_SUBST, 11);
    MarkersDiffer(FMI_APIKEY_PREFIX_SUBST, HOSTNAME_SUBST, 1);
    MarkersDiffer(FMI_APIKEY_PREFIX_SUBST, PROTOCOL_SUBST, 1);
    MarkersDiffer(FMI_APIKEY_SUBST, HOSTNAME_SUBST, 1);
    MarkersDiffer(FMI_APIKEY_SUBST, PROTOCOL_SUBST, 1);
    MarkersDiffer(HOSTNAME_SUBST, PROTOCOL_SUBST, 1);
  }

  lemma MarkersDiffer(a: Text, b: Text, i: nat)
    requires i < |a| && i < |b| && a[i] != b[i]
    ensures !(a <= b) && !(b <= a)
  {
  }

  // ---------- the meaning of a substitution ----------

  // A text is cut into markers and single characters.
  datatype Piece = Marked(s: Subst) | Plain(c: Octet)

  function Source(p: Piece): Text {
    if p.Marked? then p.s.marker else [p.c]
  }

  function Output(p: Piece): Text {
    if p.Marked? then p.s.value else [p.c]
  }

  function Sources(pieces: seq<Piece>): Text {
    if pieces == [] then [] else Source(pieces[0]) + Sources(pieces[1..])
  }

  function Outputs(pieces: seq<Piece>): Text {
    if pieces == [] then [] else Output(pieces[0]) + Outputs(pieces[1..])
  }

  // Leftmost cuts: no character stands alone where a marker begins.
  predicate IsCut(list: seq<Subst>, pieces: seq<Piece>) {
    pieces != [] ==>
      && IsCut(list, pieces[1..])
      && (pieces[0].Marked? ==> pieces[0].s in list)
      && (pieces[0].Plain? ==> forall s :: s in list ==> !(s.marker <= Sources(pieces)))
  }

  lemma OneMarker(list: seq<Subst>, text: Text, a: Subst, b: Subst)
    requires Markers(list) && a in list && b in list && a.marker <= text && b.marker <= text
    ensures a == b
  {
    var i :| 0 <= i < |list| && list[i] == a;
    var j :| 0 <= j < |list| && list[j] == b;
    assert a.marker <= b.marker || b.marker <= a.marker;
  }

  lemma SourceBegins(pieces: seq<Piece>)
    requires pieces != []
    ensures Source(pieces[0]) <= Sources(pieces) && Sources(pieces)[|Source(pieces[0])|..] == Sources(pieces[1..])
  {
  }

  // There is one leftmost cut of a text.
  lemma {:induction false} OneCut(list: seq<Subst>, p: seq<Piece>, q: seq<Piece>)
    requires Markers(list) && IsCut(list, p) && IsCut(list, q) && Sources(p) == Sources(q)
    ensures p == q
  {
    if p != [] && q != [] {
      SourceBegins(p);
      SourceBegins(q);
      if p[0].Marked? && q[0].Marked? {
        OneMarker(list, Sources(p), p[0].s, q[0].s);
      }
      assert p[0] == q[0];
      OneCut(list, p[1..], q[1..]);
      assert p == [p[0]] + p[1..] && q == [q[0]] + q[1..];
    }
  }

  // ---------- the scan ----------

  // The first entry of the list whose marker begins the text.
  function FirstMatch(list: seq<Subst>, text: Text): (r: Option<Subst>)
    ensures r.Some? ==> r.value in list && r.value.marker <= text
    ensures r.None? ==> forall s :: s in list ==> !(s.marker <= text)
  {
    if list == [] then None
    else if list[0].marker <= text then Some(list[0])
    else FirstMatch(list[1..], text)
  }

  function Cut(list: seq<Subst>, text: Text): (r: seq<Piece>)
    requires Markers(list)
  {
    if text == [] then []
    else
      var first := FirstMatch(list, text);
      if first.Some? then [Marked(first.value)] + Cut(list, text[|first.value.marker|..])
      else [Plain(text[0])] + Cut(list, text[1..])
  }

  function Substituted(list: seq<Subst>, text: Text): Text
    requires Markers(list)
  {
    Outputs(Cut(list, text))
  }

  lemma {:induction false} CutIsCut(list: seq<Subst>, text: Text)
    requires Markers(list)
    ensures IsCut(list, Cut(list, text)) && Sources(Cut(list, text)) == text
  {
    if text != [] {
      var first := FirstMatch(list, text);
      CutIsCut(list, if first.Some? then text[|first.value.marker|..] else text[1..]);
      var pieces := Cut(list, text);
      assert pieces[1..] == Cut(list, if first.Some? then text[|first.value.marker|..] else text[1..]);
      assert text == Source(pieces[0]) + text[|Source(pieces[0])|..];
    }
  }

  // Whatever the order of the list, a text becomes what its leftmost cut stands for; what was put in
  // is not looked at again.
  lemma SubstitutedByCut(list: seq<Subst>, text: Text, pieces: seq<Piece>)
    requires Markers(list) && IsCut(list, pieces) && Sources(pieces) == text
    ensures Substituted(list, text) == Outputs(pieces)
  {
    CutIsCut(list, text);
    OneCut(list, pieces, Cut(list, text));
  }

  lemma {:induction false} SameCuts(list: seq<Subst>, other: seq<Subst>, pieces: seq<Piece>)
    requires multiset(list) == multiset(other) && IsCut(list, pieces)
    ensures IsCut(other, pieces)
  {
    if pieces != [] {
      SameCuts(list, other, pieces[1..]);
      forall s ensures s in list <==> s in other {
        assert s in multiset(list) <==> s in multiset(other);
      }
    }
  }

  lemma OrderDoesNotMatter(list: seq<Subst>, other: seq<Subst>, text: Text)
    requires Markers(list) && Markers(other) && multiset(list) == multiset(other)
    ensures Substituted(list, text) == Substituted(other, text)
  {
    CutIsCut(list, text);
    SameCuts(list, other, Cut(list, text));
    SubstitutedByCut(other, text, Cut(list, text));
  }

  // A text put together from markers and from other text without '@' becomes the same text with the
  // values in the place of the markers.
  lemma {:induction false} TemplateFilled(list: seq<Subst>, pieces: seq<Piece>)
    requires Markers(list) && forall s :: s in list ==> s.marker[0] == '@'
    requires forall i :: 0 <= i < |pieces| ==> if pieces[i].Marked? then pieces[i].s in list else pieces[i].c != '@'
    ensures IsCut(list, pieces) && Substituted(list, Sources(pieces)) == Outputs(pieces)
  {
    if pieces != [] {
      TemplateFilled(list, pieces[1..]);
      SourceBegins(pieces);
    }
    SubstitutedByCut(list, Sources(pieces), pieces);
  }

  lemma MarkerFilled(list: seq<Subst>, s: Subst)
    requires Markers(list) && s in list
    ensures Substituted(list, s.marker) == s.value
  {
    hide Markers;
    var pieces := [Marked(s)];
    assert pieces[1..] == [];
    assert Sources([]) == [] && Outputs([]) == [];
    assert Sources(pieces) == s.marker + [];
    assert Outputs(pieces) == s.value + [];
    assert IsCut(list, []) && IsCut(list, pieces);
    SubstitutedByCut(list, s.marker, pieces);
  }

  // What each marker becomes, and what it becomes when nothing is known.
  lemma MarkersStandFor(apikey: Option<Text>, prefix: Option<Text>, hostname: Option<Text>, protocol: Option<Text>)
    ensures var list := SubstList(apikey, prefix, hostname, protocol);
      && Markers(list)
      && Substituted(list, "@FMI_APIKEY@") == (if apikey.Some? then apikey.value else "")
      && Substituted(list, "@FMI_APIKEY_PREFIX@") == (if prefix.Some? then prefix.value else "")
      && Substituted(list, "@HOSTNAME@") == (if hostname.Some? then hostname.value else "localhost")
      && Substituted(list, "@PROTOCOL@") == (if protocol.Some? then protocol.value + "://" else "http://")
  {
    hide Substituted, Markers;
    var list := SubstList(apikey, prefix, hostname, protocol);
    SubstListMarkers(apikey, prefix, hostname, protocol);
    MarkerFilled(list, list[0]);
    MarkerFilled(list, list[1]);
    MarkerFilled(list, list[2]);
    MarkerFilled(list, list[3]);
    assert protocol.None? ==> "http" + "://" == "http://";
  }

  // A text that contains no marker stays as it is.
  lemma {:induction false} MarkerFree(list: seq<Subst>, text: Text)
    requires Markers(list)
    requires forall i, s :: 0 <= i <= |text| && s in list ==> !(s.marker <= text[i..])
    ensures Substituted(list, text) == text
  {
    if text != [] {
      assert text[0..] == text;
      assert FirstMatch(list, text).None?;
      forall i, s | 0 <= i <= |text[1..]| && s in list ensures !(s.marker <= text[1..][i..]) {
        assert text[1..][i..] == text[i + 1..];
      }
      MarkerFree(list, text[1..]);
      var rest := Cut(list, text[1..]);
      assert Cut(list, text) == [Plain(text[0])] + rest && ([Plain(text[0])] + rest)[1..] == rest;
    }
  }

  // ---------- the program ----------

  // strncmp over the length of the marker
  predicate Matches(src: Text, at: nat, marker: Text)
    requires at <= |src|
  {
    marker <= src[at..]
  }

  lemma MatchesBeforeNul(src: Text, at: nat, marker: Text)
    requires at <= |src| && NUL !in marker
    ensures Matches(src, at, marker) <==> marker <= CString(src[at..])
    ensures Matches(src, at, marker) ==> CString(src[at..])[|marker|..] == CString(src[at + |marker|..])
  {
    var rest := src[at..];
    if marker <= rest {
      CStringCovers(rest, marker);
      CStringLater(rest, |marker|);
      assert rest[|marker|..] == src[at + |marker|..];
    }
  }

  lemma {:induction false} CStringCovers(s: Text, start: Text)
    requires start <= s && NUL !in start
    ensures start <= CString(s)
  {
    if start != [] {
      CStringCovers(s[1..], start[1..]);
    }
  }

  lemma {:induction false} CStringLater(s: Text, n: nat)
    requires n <= |CString(s)|
    ensures CString(s)[n..] == CString(s[n..])
  {
    if n > 0 {
      CStringLater(s[1..], n - 1);
      assert s[1..][n - 1..] == s[n..];
    }
  }

  // One step of the scan.
  lemma CutStep(list: seq<Subst>, text: Text)
    requires Markers(list) && text != []
    ensures var first := FirstMatch(list, text);
      Substituted(list, text) ==
      if first.Some? then first.value.value + Substituted(list, text[|first.value.marker|..])
      else [text[0]] + Substituted(list, text[1..])
  {
    var pieces := Cut(list, text);
    assert Outputs(pieces) == Output(pieces[0]) + Outputs(pieces[1..]);
  }

  lemma MatchIsFirst(list: seq<Subst>, text: Text, s: Subst)
    requires Markers(list) && s in list && s.marker <= text
    ensures FirstMatch(list, text) == Some(s)
  {
    OneMarker(list, text, s, FirstMatch(list, text).value);
  }

  class RequestBase {
    var fmi_apikey: Option<Text>
    var fmi_apikey_prefix: Option<Text>
    var hostname: Option<Text>
    var protocol: Option<Text>

    constructor ()
      ensures fmi_apikey.None? && fmi_apikey_prefix.None? && hostname.None? && protocol.None?
    {
      fmi_apikey, fmi_apikey_prefix, hostname, protocol := None, None, None, None;
    }

    function Values(): (list: seq<Subst>)
      reads this
      ensures Markers(list)
    {
      SubstListMarkers(fmi_apikey, fmi_apikey_prefix, hostname, protocol);
      SubstList(fmi_apikey, fmi_apikey_prefix, hostname, protocol)
    }

    method SubstituteAll(src: Text) returns (output: Text)
      ensures output == Substituted(Values(), CString(src))
    {
      hide Cut, CString, Substituted, Markers, SubstList, FirstMatch, Values, IsTable, Matches;
      var subst_list := Values();
      var chm := Table(subst_list);
      ghost var table := chm[..];
      var at := 0;
      output := [];
      CutNothing(subst_list);
      assert src[0..] == src;
      while at < |src| && src[at] != NUL
        invariant at <= |src| && chm[..] == table
        invariant output + Substituted(subst_list, CString(src[at..])) == Substituted(subst_list, CString(src))
      {
        var subst_done := false;
        ghost var before, from := output, at;
        if chm[src[at] as int] {
          var i := 0;
          while !subst_done && i < |subst_list|
            invariant i <= |subst_list| && chm[..] == table
            invariant !subst_done ==> at == from && output == before
            invariant !subst_done ==> forall j :: 0 <= j < i ==> !Matches(src, at, subst_list[j].marker)
            invariant at <= |src| && (subst_done ==> at > from)
            invariant subst_done ==>
              output + Substituted(subst_list, CString(src[at..])) == Substituted(subst_list, CString(src))
            decreases |subst_list| - i, !subst_done
          {
            var s := subst_list[i];
            if Matches(src, at, s.marker) {
              MarkerFound(subst_list, src, at, i);
              Regroup(output, s.value, Substituted(subst_list, CString(src[at + |s.marker|..])));
              output := output + s.value;
              at := at + |s.marker|;
              subst_done := true;
            } else {
              i := i + 1;
            }
          }
        }
        if !subst_done {
          NoMarkerFound(subst_list, src, at, table);
          Regroup(output, [src[at]], Substituted(subst_list, CString(src[at + 1..])));
          output := output + [src[at]];
          at := at + 1;
        }
      }
      Ends(src, at);
      assert output + [] == output;
    }
  }

  // Which characters begin a marker.
  predicate IsTable(list: seq<Subst>, chm: seq<bool>) {
    |chm| == 256 && forall c: Octet :: chm[c as int] <==> exists i :: 0 <= i < |list| && [c] <= list[i].marker
  }

  method Table(list: seq<Subst>) returns (chm: array<bool>)
    requires Markers(list)
    ensures fresh(chm) && IsTable(list, chm[..])
  {
    chm := new bool[256](i => false);
    for i := 0 to |list|
      invariant IsTable(list[..i], chm[..])
    {
      chm[list[i].marker[0] as int] := true;
      assert list[..i + 1] == list[..i] + [list[i]];
    }
    assert list[..|list|] == list;
  }

  lemma CutNothing(list: seq<Subst>)
    requires Markers(list)
    ensures Substituted(list, []) == []
  {
  }

  lemma Begins(src: Text, at: nat)
    requires at < |src| && src[at] != NUL
    ensures CString(src[at..]) == [src[at]] + CString(src[at + 1..])
  {
    assert src[at..][1..] == src[at + 1..];
  }

  lemma Ends(src: Text, at: nat)
    requires at == |src| || (at < |src| && src[at] == NUL)
    ensures CString(src[at..]) == []
  {
  }

  lemma MarkerFound(list: seq<Subst>, src: Text, at: nat, i: nat)
    requires Markers(list) && i < |list| && at < |src| && src[at] != NUL && Matches(src, at, list[i].marker)
    ensures var next := at + |list[i].marker|;
      && at < next <= |src|
      && Substituted(list, CString(src[at..])) == list[i].value + Substituted(list, CString(src[next..]))
  {
    hide Substituted, CString, FirstMatch;
    MatchesBeforeNul(src, at, list[i].marker);
    Begins(src, at);
    CutStep(list, CString(src[at..]));
    MatchIsFirst(list, CString(src[at..]), list[i]);
  }

  // A character of which the table says that it begins no marker, or where no marker was found.
  lemma NoMarkerFound(list: seq<Subst>, src: Text, at: nat, chm: seq<bool>)
    requires Markers(list) && at < |src| && src[at] != NUL && IsTable(list, chm)
    requires chm[src[at] as int] ==> forall j :: 0 <= j < |list| ==> !Matches(src, at, list[j].marker)
    ensures Substituted(list, CString(src[at..])) == [src[at]] + Substituted(list, CString(src[at + 1..]))
  {
    hide Substituted, CString, FirstMatch;
    var text, c := CString(src[at..]), src[at];
    Begins(src, at);
    CutStep(list, text);
    forall s | s in list ensures !(s.marker <= text) {
      var j :| 0 <= j < |list| && list[j] == s;
      MatchesBeforeNul(src, at, s.marker);
      assert s.marker <= text ==> [c] <= s.marker;
    }
  }
}
