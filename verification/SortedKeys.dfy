/** The order in which std::set and std::map are walked. */
module SortedKeys {
  import opened Texts

  lemma LeastExists(s: set<Text>) returns (least: Text)
    requires s != {}
    ensures least in s && forall k :: k in s ==> AtMost(least, k)
    decreases |s|
  {
    least :| least in s;
    var first, rest := least, s - {least};
    AtMostReflexive(least);
    if rest != {} {
      var other := LeastExists(rest);
      if !AtMost(first, other) {
        LessIsAtMost(other, first);
        least := other;
      }
      forall k | k in s ensures AtMost(least, k) {
        if k != first {
          assert k in rest;
          if least == first {
            AtMostTransitive(first, other, k);
          }
        }
      }
    } else {
      forall k | k in s ensures k == first {
        assert k !in rest;
      }
    }
  }

  lemma LeastUnique(s: set<Text>, a: Text, b: Text)
    requires a in s && forall k :: k in s ==> AtMost(a, k)
    requires b in s && forall k :: k in s ==> AtMost(b, k)
    ensures a == b
  {
    AtMostAntisymmetric(a, b);
  }

  ghost predicate IsLeast(s: set<Text>, k: Text) {
    k in s && forall other :: other in s ==> AtMost(k, other)
  }

  lemma OneLeast(s: set<Text>)
    requires s != {}
    ensures exists k :: IsLeast(s, k)
    ensures forall a, b :: IsLeast(s, a) && IsLeast(s, b) ==> a == b
  {
    var least := LeastExists(s);
    assert IsLeast(s, least);
    forall a, b | IsLeast(s, a) && IsLeast(s, b) ensures a == b {
      LeastUnique(s, a, b);
    }
  }

  function Least(s: set<Text>): (least: Text)
    requires s != {}
    ensures IsLeast(s, least)
  {
    OneLeast(s);
    assert forall a | a in s && (forall k | k in s :: AtMost(a, k)) :: IsLeast(s, a);
    assert exists a :: IsLeast(s, a);
    var least :| least in s && forall k | k in s :: AtMost(least, k);
    least
  }

  // The keys from the least to the greatest.
  function InOrder(s: set<Text>): (r: seq<Text>)
    ensures forall k :: k in r <==> k in s
    ensures |r| == |s|
    decreases |s|
  {
    if s == {} then []
    else [Least(s)] + InOrder(s - {Least(s)})
  }

  lemma {:induction false} InOrderSorted(s: set<Text>)
    ensures forall i, j :: 0 <= i < j < |InOrder(s)| ==> Less(InOrder(s)[i], InOrder(s)[j])
    decreases |s|
  {
    if s != {} {
      var least, rest := Least(s), InOrder(s - {Least(s)});
      InOrderSorted(s - {least});
      forall k | k in rest ensures Less(least, k) {
        if AtMost(k, least) {
          AtMostAntisymmetric(least, k);
        }
      }
    }
  }
}
