/** Byte strings as the C++ code sees them: their order in ordered containers and ASCII case folding. */
module Texts {

  // A C++ `char` of a std::string, seen as an unsigned byte.
  type Octet = c: char | c as int < 256 witness 'a'

  type Text = seq<Octet>

  // std::string's operator<, the order of every std::map, std::set and std::multimap key.
  predicate Less(a: Text, b: Text) {
    b != [] && (a == [] || a[0] < b[0] || (a[0] == b[0] && Less(a[1..], b[1..])))
  }

  predicate AtMost(a: Text, b: Text) {
    !Less(b, a)
  }

  lemma {:induction false} AtMostReflexive(a: Text)
    ensures AtMost(a, a)
  {
    if a != [] {
      AtMostReflexive(a[1..]);
    }
  }

  lemma {:induction false} AtMostTransitive(a: Text, b: Text, c: Text)
    requires AtMost(a, b) && AtMost(b, c)
    ensures AtMost(a, c)
  {
    if a != [] && b != [] && c != [] && a[0] == c[0] {
      AtMostTransitive(a[1..], b[1..], c[1..]);
    }
  }

  lemma {:induction false} AtMostAntisymmetric(a: Text, b: Text)
    requires AtMost(a, b) && AtMost(b, a)
    ensures a == b
  {
    if a != [] && b != [] {
      AtMostAntisymmetric(a[1..], b[1..]);
      assert a == [a[0]] + a[1..] && b == [b[0]] + b[1..];
    }
  }

  lemma {:induction false} LessIsAtMost(a: Text, b: Text)
    requires Less(a, b)
    ensures AtMost(a, b) && a != b
  {
    if a != [] && a[0] == b[0] {
      LessIsAtMost(a[1..], b[1..]);
    }
  }

  function LowerChar(c: Octet): Octet {
    if 'A' <= c <= 'Z' then (c as int + 32) as char else c
  }

  // Fmi::ascii_tolower_copy
  function Lower(s: Text): (r: Text)
    ensures |r| == |s|
    ensures forall i :: 0 <= i < |s| ==> r[i] == LowerChar(s[i])
  {
    if s == [] then [] else [LowerChar(s[0])] + Lower(s[1..])
  }

  function Lowered(names: set<Text>): set<Text> {
    set n | n in names :: Lower(n)
  }

  predicate IsLower(s: Text) {
    Lower(s) == s
  }

  lemma LowerIsIdempotent(s: Text)
    ensures IsLower(Lower(s))
  {
    var l := Lower(s);
    assert forall i :: 0 <= i < |l| ==> Lower(l)[i] == l[i];
  }
}
