/** Exactly which combinations of fes:Or branches fes:And accepts. */
module FilterAcceptance {
  import opened Texts
  import opened Values
  import opened Multimaps
  import opened Filters
  import opened FilterRuns

  function KeysIn(m: Multimap<Value>): set<Text> {
    set i | 0 <= i < |m| :: m[i].key
  }

  function KeysOf(qs: seq<Content>): set<Text> {
    if qs == [] then {} else KeysOf(qs[..|qs| - 1]) + KeysIn(qs[|qs| - 1].params)
  }

  lemma {:induction false} InsertCount(m: Multimap<Value>, key: Text, value: Value, k: Text)
    ensures |ValuesOf(Insert(m, key, value), k)| == |ValuesOf(m, k)| + if k == key then 1 else 0
  {
    if m == [] || AtMost(m[|m| - 1].key, key) {
      assert (m + [Entry(key, value)])[..|m|] == m;
    } else {
      InsertCount(m[..|m| - 1], key, value, k);
      assert Insert(m, key, value)[..|m|] == Insert(m[..|m| - 1], key, value);
    }
  }

  lemma {:induction false} InsertEntriesCount(m: Multimap<Value>, entries: Multimap<Value>, k: Text)
    ensures |ValuesOf(InsertEntries(m, entries), k)| == |ValuesOf(m, k)| + |ValuesOf(entries, k)|
  {
    if entries != [] {
      var n := |entries| - 1;
      InsertEntriesCount(m, entries[..n], k);
      InsertCount(InsertEntries(m, entries[..n]), entries[n].key, entries[n].value, k);
    }
  }

  lemma PairCount(x: Content, y: Content, k: Text)
    ensures |ValuesOf(MergePair(x, y).params, k)| == |ValuesOf(x.params, k)| + |ValuesOf(y.params, k)|
  {
    InsertEntriesCount([], x.params, k);
    InsertEntriesCount(Merge(x, NOTHING).params, y.params, k);
  }

  lemma {:induction false} AtMostOne(m: Multimap<Value>, k: Text)
    requires SingleValued(m)
    ensures |ValuesOf(m, k)| <= 1
  {
    if m != [] {
      var n := |m| - 1;
      AtMostOne(m[..n], k);
      ValuesNonEmpty(m[..n], k);
      if m[n].key == k {
        assert forall i :: 0 <= i < n ==> m[..n][i].key == m[i].key != m[n].key;
      }
    }
  }

  lemma HasKey(m: Multimap<Value>, k: Text)
    ensures k in KeysIn(m) <==> |ValuesOf(m, k)| > 0
  {
    ValuesNonEmpty(m, k);
  }

  lemma SingleByCount(m: Multimap<Value>)
    requires forall k :: |ValuesOf(m, k)| <= 1
    ensures SingleValued(m)
  {
    forall i, j | 0 <= i < j < |m| ensures m[i].key != m[j].key {
      if m[i].key == m[j].key {
        TwoValues(m, i, j);
      }
    }
  }

  // A merged query has one value per key exactly when its two halves have, and share no key.
  lemma PairSingleValued(x: Content, y: Content)
    ensures SingleValued(MergePair(x, y).params) <==>
            SingleValued(x.params) && SingleValued(y.params) && KeysIn(x.params) !! KeysIn(y.params)
    ensures KeysIn(MergePair(x, y).params) == KeysIn(x.params) + KeysIn(y.params)
  {
    hide SingleValued, KeysIn, MergePair, ValuesOf;
    var z := MergePair(x, y).params;
    forall k ensures k in KeysIn(z) <==> k in KeysIn(x.params) || k in KeysIn(y.params) {
      PairCount(x, y, k);
      HasKey(x.params, k);
      HasKey(y.params, k);
      HasKey(z, k);
    }
    if SingleValued(z) {
      forall k ensures |ValuesOf(x.params, k)| + |ValuesOf(y.params, k)| <= 1 {
        PairCount(x, y, k);
        AtMostOne(z, k);
      }
      SingleByCount(x.params);
      SingleByCount(y.params);
      forall k ensures !(k in KeysIn(x.params) && k in KeysIn(y.params)) {
        HasKey(x.params, k);
        HasKey(y.params, k);
      }
    }
    if SingleValued(x.params) && SingleValued(y.params) && KeysIn(x.params) !! KeysIn(y.params) {
      forall k ensures |ValuesOf(z, k)| <= 1 {
        PairCount(x, y, k);
        AtMostOne(x.params, k);
        AtMostOne(y.params, k);
        HasKey(x.params, k);
        HasKey(y.params, k);
        assert !(k in KeysIn(x.params) && k in KeysIn(y.params));
      }
      SingleByCount(z);
    }
  }

  lemma {:induction false} KeysOfConcat(a: seq<Content>, b: seq<Content>)
    ensures KeysOf(a + b) == KeysOf(a) + KeysOf(b)
  {
    if b == [] {
      assert a + b == a;
    } else {
      assert (a + b)[..|a + b| - 1] == a + b[..|b| - 1];
      KeysOfConcat(a, b[..|b| - 1]);
    }
  }

  lemma AllSingleConcat(a: seq<Content>, b: seq<Content>)
    ensures AllSingleValued(a + b) <==> AllSingleValued(a) && AllSingleValued(b)
  {
    if AllSingleValued(a + b) {
      forall i | 0 <= i < |a| ensures SingleValued(a[i].params) {
        assert (a + b)[i] == a[i];
      }
      forall i | 0 <= i < |b| ensures SingleValued(b[i].params) {
        assert (a + b)[|a| + i] == b[i];
      }
    }
  }

  lemma OneQuery(q: Content)
    ensures AllSingleValued([q]) <==> SingleValued(q.params)
    ensures KeysOf([q]) == KeysIn(q.params)
  {
    assert AllSingleValued([q]) <==> SingleValued([q][0].params);
    assert [q][..0] == [];
  }

  // What holds of all queries of a set, by its last query and the others.
  lemma SplitLast(a: seq<Content>)
    requires a != []
    ensures var n := |a| - 1;
      && (AllSingleValued(a) <==> AllSingleValued(a[..n]) && SingleValued(a[n].params))
      && KeysOf(a) == KeysOf(a[..n]) + KeysIn(a[n].params)
  {
    var n := |a| - 1;
    AllSingleConcat(a[..n], [a[n]]);
    OneQuery(a[n]);
    assert a == a[..n] + [a[n]];
  }

  lemma {:induction false} RowSingleValued(x: Content, b: seq<Content>)
    ensures b != [] ==>
            (AllSingleValued(Row(x, b)) <==>
             SingleValued(x.params) && AllSingleValued(b) && KeysIn(x.params) !! KeysOf(b))
    ensures b != [] ==> KeysOf(Row(x, b)) == KeysIn(x.params) + KeysOf(b)
  {
    hide SingleValued, KeysIn, MergePair, AllSingleValued, KeysOf;
    if b != [] {
      var n := |b| - 1;
      RowSingleValued(x, b[..n]);
      PairSingleValued(x, b[n]);
      SplitLast(b);
      SplitLast(Row(x, b));
      assert Row(x, b)[..n] == Row(x, b[..n]);
      NoQueries();
    }
  }

  lemma NoQueries()
    ensures AllSingleValued([]) && KeysOf([]) == {}
  {
  }

  lemma {:induction false} CrossSingleValued(a: seq<Content>, b: seq<Content>)
    requires b != []
    ensures a != [] ==>
            (AllSingleValued(Cross(a, b)) <==> AllSingleValued(a) && AllSingleValued(b) && KeysOf(a) !! KeysOf(b))
    ensures a != [] ==> KeysOf(Cross(a, b)) == KeysOf(a) + KeysOf(b)
  {
    hide SingleValued, KeysIn, AllSingleValued, KeysOf, Row;
    if a != [] {
      var n := |a| - 1;
      CrossSingleValued(a[..n], b);
      RowSingleValued(a[n], b);
      SplitLast(a);
      AllSingleConcat(Cross(a[..n], b), Row(a[n], b));
      KeysOfConcat(Cross(a[..n], b), Row(a[n], b));
      NoQueries();
    }
  }

  predicate PairwiseDisjoint(sets: seq<seq<Content>>) {
    forall i, j :: 0 <= i < j < |sets| ==> KeysOf(sets[i]) !! KeysOf(sets[j])
  }

  function UnionOfKeys(sets: seq<seq<Content>>): set<Text> {
    if sets == [] then {} else UnionOfKeys(sets[..|sets| - 1]) + KeysOf(sets[|sets| - 1])
  }

  lemma {:induction false} DisjointFromUnion(sets: seq<seq<Content>>, keys: set<Text>)
    ensures UnionOfKeys(sets) !! keys <==> forall i :: 0 <= i < |sets| ==> KeysOf(sets[i]) !! keys
  {
    if sets != [] {
      DisjointFromUnion(sets[..|sets| - 1], keys);
    }
  }

  predicate AllSetsSingle(sets: seq<seq<Content>>) {
    forall k :: 0 <= k < |sets| ==> AllSingleValued(sets[k])
  }

  lemma {:induction false} ProductSingleValued(sets: seq<seq<Content>>)
    requires NonEmptyUsed(sets) && sets != []
    ensures AllSingleValued(Product(sets)) <==> AllSetsSingle(sets) && PairwiseDisjoint(sets)
    ensures KeysOf(Product(sets)) == UnionOfKeys(sets)
    decreases |sets|
  {
    hide AllSingleValued, KeysOf;
    var n := |sets| - 1;
    var init := sets[..n];
    SetsByLast(sets);
    if n == 1 {
      assert init == [sets[0]];
      SetsByLast(init);
      assert init[..0] == [];
      CrossSingleValued(sets[0], sets[1]);
    } else if n > 1 {
      ProductSingleValued(init);
      ProductNonEmpty(init);
      CrossSingleValued(sets[n], Product(init));
      DisjointFromUnion(init, KeysOf(sets[n]));
    }
  }

  lemma SetsByLast(sets: seq<seq<Content>>)
    requires sets != []
    ensures var n := |sets| - 1;
      && (AllSetsSingle(sets) <==> AllSetsSingle(sets[..n]) && AllSingleValued(sets[n]))
      && (PairwiseDisjoint(sets) <==>
          PairwiseDisjoint(sets[..n]) && forall i :: 0 <= i < n ==> KeysOf(sets[..n][i]) !! KeysOf(sets[n]))
      && UnionOfKeys(sets) == UnionOfKeys(sets[..n]) + KeysOf(sets[n])
  {
    hide AllSingleValued, KeysOf, PairwiseDisjoint;
    var n := |sets| - 1;
    assert forall i :: 0 <= i < n ==> sets[..n][i] == sets[i];
    DisjointByLast(sets[..n], sets[n]);
    assert sets == sets[..n] + [sets[n]];
  }

  lemma DisjointByLast(init: seq<seq<Content>>, last: seq<Content>)
    ensures PairwiseDisjoint(init + [last]) <==>
            PairwiseDisjoint(init) && forall i :: 0 <= i < |init| ==> KeysOf(init[i]) !! KeysOf(last)
  {
    hide KeysOf;
    var sets := init + [last];
    assert sets[|init|] == last && forall i :: 0 <= i < |init| ==> sets[i] == init[i];
    if PairwiseDisjoint(sets) {
      forall i | 0 <= i < |init| ensures KeysOf(init[i]) !! KeysOf(last) {
        assert KeysOf(sets[i]) !! KeysOf(sets[|init|]);
      }
    }
  }

  // fes:Or sets can be combined exactly when no branch repeats a parameter and no two sets other
  // than the last one share a parameter.
  lemma CombinableExactly(sets: seq<seq<Content>>)
    requires NonEmptyUsed(sets) && |sets| >= 2
    ensures Combinable(sets) <==> AllSetsSingle(sets) && PairwiseDisjoint(sets[..|sets| - 1])
  {
    hide SingleValued, KeysOf;
    var init := sets[..|sets| - 1];
    forall k | 2 <= k < |sets|
      ensures AllSingleValued(Product(sets[..k])) <==> AllSetsSingle(sets[..k]) && PairwiseDisjoint(sets[..k]) {
      ProductSingleValued(sets[..k]);
    }
    if |sets| > 2 {
      assert sets[..|sets| - 1] == init;
    }
    forall k | 2 <= k < |sets| && PairwiseDisjoint(init) ensures PairwiseDisjoint(sets[..k]) {
      assert sets[..k] == init[..k];
    }
  }

  // ---------- how many queries ----------

  // The number of ways to choose one query from each set.
  function Choices(sets: seq<seq<Content>>): nat {
    if sets == [] then 1 else Choices(sets[..|sets| - 1]) * |sets[|sets| - 1]|
  }

  lemma OneTimesMore(n: nat, m: nat)
    ensures (n + 1) * m == n * m + m
  {
  }

  lemma {:induction false} CrossCount(a: seq<Content>, b: seq<Content>)
    ensures |Cross(a, b)| == |a| * |b|
  {
    hide Row;
    if a != [] {
      var n := |a| - 1;
      CrossCount(a[..n], b);
      assert |Cross(a, b)| == |Cross(a[..n], b)| + |b|;
      OneTimesMore(n, |b|);
    }
  }

  // Combining fes:Or sets makes one query for every choice.
  lemma {:induction false} ProductCount(sets: seq<seq<Content>>)
    requires sets != []
    ensures |Product(sets)| == Choices(sets)
  {
    hide Cross;
    var n := |sets| - 1;
    if n == 0 {
      assert Choices(sets) == Choices([]) * |sets[0]|;
    } else {
      ProductCount(sets[..n]);
      if n == 1 {
        CrossCount(sets[0], sets[1]);
      } else {
        CrossCount(sets[n], Product(sets[..n]));
      }
    }
  }
}
