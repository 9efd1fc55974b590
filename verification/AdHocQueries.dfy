/** AdHocQuery: turning the element tree of a filter into a list of query objects, in place. */
module AdHocQueries {
  import opened Wrappers
  import opened Texts
  import opened Values
  import opened Multimaps
  import opened Conditions
  import opened Filters
  import opened FilterMeaning
  import opened FilterDnf
  import opened FilterRules
  import opened FilterRuns

  class Query {
    var params: Multimap<Value>
    var filter_expression: string
    ghost var conditions: seq<string>  // what the filter expression joins

    ghost predicate Valid()
      reads this
    {
      filter_expression == Render(conditions)
    }

    ghost function View(): Content
      reads this
    {
      Content(params, conditions)
    }

    constructor ()
      ensures Valid() && View() == NOTHING
    {
      params := [];
      filter_expression := "";
      conditions := [];
    }

    method IsUsed() returns (r: bool)
      requires Valid()
      ensures r == Used(View())
    {
      r := |params| != 0 || filter_expression != "";
    }

    method AddComparison(condition: string)
      requires Valid()
      modifies this
      ensures Valid()
      ensures View() == old(View()).(conditions := old(View()).conditions + [condition])
    {
      AddConditionAppends(conditions, condition);
      if filter_expression == "" {
        filter_expression := "//wfs:member[(" + condition + ")]";
      } else {
        filter_expression := filter_expression[..|filter_expression| - 1];
        filter_expression := filter_expression + " and (" + condition + ")]";
      }
      conditions := conditions + [condition];
    }
  }

  // The keys of a multimap, each once.
  function Keys(m: Multimap<Value>): (keys: seq<Text>)
    ensures forall i :: 0 <= i < |m| ==> m[i].key in keys
    ensures forall k :: k in keys ==> exists i :: 0 <= i < |m| && m[i].key == k
  {
    if m == [] then []
    else
      var keys := Keys(m[..|m| - 1]);
      if m[|m| - 1].key in keys then keys else keys + [m[|m| - 1].key]
  }

  lemma {:induction false} SingleValuedKeys(m: Multimap<Value>)
    requires SingleValued(m)
    ensures |Keys(m)| == |m|
    ensures forall i :: 0 <= i < |m| ==> Keys(m)[i] == m[i].key && ValuesOf(m, m[i].key) == [m[i].value]
  {
    if m != [] {
      var n := |m| - 1;
      SingleValuedKeys(m[..n]);
      ValuesNonEmpty(m[..n], m[n].key);
    }
  }

  lemma OneValueEach(m: Multimap<Value>)
    requires forall k :: k in Keys(m) ==> |ValuesOf(m, k)| == 1
    ensures SingleValued(m)
  {
    forall i, j | 0 <= i < j < |m| ensures m[i].key != m[j].key {
      if m[i].key == m[j].key {
        TwoValues(m, i, j);
      }
    }
  }

  lemma InsertNext(m: Multimap<Value>, source: Multimap<Value>, i: nat)
    requires i < |source|
    ensures InsertEntries(m, source[..i + 1]) == Insert(InsertEntries(m, source[..i]), source[i].key, source[i].value)
  {
    assert source[..i + 1][..i] == source[..i];
  }

  // Every key's only value; fails when a key has more than one.
  method CopyValues(src_query: Query, target_query: Query) returns (ok: bool)
    requires src_query != target_query
    modifies target_query`params
    ensures ok <==> SingleValued(src_query.params)
    ensures ok ==> target_query.params == InsertEntries(old(target_query.params), src_query.params)
  {
    hide ValuesOf, Insert, Keys, InsertEntries;
    var source := src_query.params;
    var keys := Keys(source);
    ghost var single := SingleValued(source);
    if single {
      SingleValuedKeys(source);
    }
    hide SingleValued;
    NoEntries(target_query.params, source);
    for i := 0 to |keys|
      invariant src_query.params == source
      invariant forall j :: 0 <= j < i ==> |ValuesOf(source, keys[j])| == 1
      invariant single ==> target_query.params == InsertEntries(old(target_query.params), source[..i])
    {
      var values := ValuesOf(source, keys[i]);
      if |values| != 1 {
        return false;
      }
      if single {
        InsertNext(old(target_query.params), source, i);
      }
      target_query.params := Insert(target_query.params, keys[i], values[0]);
    }
    OneValueEach(source);
    assert source[..|source|] == source;
    ok := true;
  }

  lemma NoEntries(m: Multimap<Value>, source: Multimap<Value>)
    ensures InsertEntries(m, source[..0]) == m
  {
  }

  // Fails when a parameter of the source has more than one value.
  method CopyParams(src_query: Query, target_query: Query) returns (ok: bool)
    requires src_query.Valid() && target_query.Valid() && src_query != target_query
    modifies target_query
    ensures ok <==> SingleValued(src_query.params)
    ensures ok ==> target_query.Valid() && target_query.View() == Merge(src_query.View(), old(target_query.View()))
  {
    hide Render, Joined, SingleValued, InsertEntries;
    ok := CopyValues(src_query, target_query);
    if !ok {
      return;
    }
    MergeExpressionConcatenates(src_query.conditions, target_query.conditions);
    if src_query.filter_expression != "" {
      if target_query.filter_expression == "" {
        target_query.filter_expression := src_query.filter_expression;
      } else {
        var target := target_query.filter_expression;
        target_query.filter_expression := target[..|target| - 1];
        target_query.filter_expression := target_query.filter_expression + " and ";
        var start_of_src := AfterFirst(src_query.filter_expression, '[');
        target_query.filter_expression := target_query.filter_expression + src_query.filter_expression[start_of_src..];
      }
    }
    target_query.conditions := target_query.conditions + src_query.conditions;
  }

  // ---------- lists of queries ----------

  ghost predicate AllValid(qs: seq<Query>)
    reads qs
  {
    && (forall i :: 0 <= i < |qs| ==> qs[i].Valid())
    && (forall i, j :: 0 <= i < j < |qs| ==> qs[i] != qs[j])
  }

  ghost predicate Shows(qs: seq<Query>, vs: seq<Content>)
    reads qs
  {
    |qs| == |vs| && forall i :: 0 <= i < |qs| ==> qs[i].View() == vs[i]
  }

  lemma ShowsOneMore(qs: seq<Query>, vs: seq<Content>, q: Query)
    requires Shows(qs, vs) && q.View() == NOTHING
    ensures Shows(qs + [q], vs + [NOTHING])
  {
  }

  lemma BackShown(qs: seq<Query>, vs: seq<Content>)
    requires Shows(qs, vs) && vs != []
    ensures qs[|qs| - 1].View() == vs[|vs| - 1]
  {
  }

  // The queries from the given index on show the given contents.
  ghost predicate ShowsAt(qs: seq<Query>, from: nat, vs: seq<Content>)
    reads qs
  {
    from + |vs| <= |qs| && forall i :: 0 <= i < |vs| ==> qs[from + i].View() == vs[i]
  }

  lemma RowStart(x: Content, b: seq<Content>)
    ensures Row(x, b[..0]) == [] && AllSingleValued(b[..0])
  {
  }

  lemma RowNext(x: Content, b: seq<Content>, n: nat)
    requires n < |b|
    ensures Row(x, b[..n + 1]) == Row(x, b[..n]) + [MergePair(x, b[n])]
    ensures AllSingleValued(b[..n + 1]) <==> AllSingleValued(b[..n]) && SingleValued(b[n].params)
    ensures AllSingleValued(b) ==> SingleValued(b[n].params)
  {
    assert b[..n + 1][..n] == b[..n];
    if AllSingleValued(b[..n + 1]) {
      assert b[..n + 1][n] == b[n];
    }
  }

  lemma CrossStart(a: seq<Content>, b: seq<Content>)
    ensures Cross(a[..0], b) == [] && AllSingleValued(a[..0])
  {
  }

  lemma CrossNext(a: seq<Content>, b: seq<Content>, n: nat)
    requires n < |a|
    ensures Cross(a[..n + 1], b) == Cross(a[..n], b) + Row(a[n], b)
    ensures AllSingleValued(a[..n + 1]) <==> AllSingleValued(a[..n]) && SingleValued(a[n].params)
    ensures AllSingleValued(a) ==> SingleValued(a[n].params)
  {
    assert a[..n + 1][..n] == a[..n];
    if AllSingleValued(a[..n + 1]) {
      assert a[..n + 1][n] == a[n];
    }
  }

  lemma ProductNext(sets: seq<seq<Content>>, k: nat)
    requires 2 <= k < |sets|
    ensures Product(sets[..k + 1]) == Cross(sets[k], Product(sets[..k]))
  {
    assert sets[..k + 1][..k] == sets[..k];
  }

  lemma ShowsParts(qs: seq<Query>, a: seq<Content>, b: seq<Content>)
    requires Shows(qs, a + b)
    ensures Shows(qs[..|a|], a) && ShowsAt(qs, |a|, b)
  {
    forall i | 0 <= i < |a| ensures qs[i].View() == a[i] {
      assert qs[i].View() == (a + b)[i];
    }
    forall i | 0 <= i < |b| ensures qs[|a| + i].View() == b[i] {
      assert qs[|a| + i].View() == (a + b)[|a| + i];
    }
  }

  lemma ShowsWhole(qs: seq<Query>, a: seq<Content>, b: seq<Content>)
    requires |qs| == |a| + |b| && Shows(qs[..|a|], a) && ShowsAt(qs, |a|, b)
    ensures Shows(qs, a + b)
  {
    forall i | 0 <= i < |qs| ensures qs[i].View() == (a + b)[i] {
      if i < |a| {
        assert qs[i] == qs[..|a|][i];
      } else {
        assert qs[i] == qs[|a| + (i - |a|)];
      }
    }
  }

  // The queries before an index are none of those behind it.
  lemma Unaffected(qs: seq<Query>, index: nat)
    requires AllValid(qs) && index < |qs|
    ensures forall i :: 0 <= i < index ==> qs[i] !in qs[index + 1..]
  {
  }

  lemma SamePrefix<T>(a: seq<T>, b: seq<T>, c: seq<T>, k: nat, n: nat)
    requires |a| <= |b| && b[..|a|] == a
    requires k <= |b| && k <= |c| && c[..k] == b[..k]
    requires n <= k && n <= |a|
    ensures c[..n] == a[..n]
  {
    assert c[..n] == c[..k][..n] == b[..k][..n] == b[..|a|][..n];
  }

  lemma KeptBefore(place: Place, s: State)
    requires s.views != []
    ensures FilterCompiler.Kept(place, s.views) <= |s.views|
    ensures var n := |Prepared(place, s).views|;
      FilterCompiler.Kept(place, s.views) <= if place == Terms then n - 1 else n
  {
  }

  lemma AmongViews(qs: seq<Query>, views: seq<Content>, w: World)
    requires Shows(qs, views)
    ensures (exists i :: 0 <= i < |qs| && Satisfied(qs[i].View(), w)) <==>
            (exists q :: q in views && Satisfied(q, w))
  {
    if q :| q in views && Satisfied(q, w) {
      var i :| 0 <= i < |views| && views[i] == q;
      assert Satisfied(qs[i].View(), w);
    }
  }

  lemma SameMeaning(qs: seq<Query>, config: Config, path: seq<string>, term: Element)
    requires IsTerm(config, path, term) && Compile(config, path, term).Some?
    requires Shows(qs, Compile(config, path, term).value)
    ensures forall w: World ::
      (exists i :: 0 <= i < |qs| && Satisfied(qs[i].View(), w)) <==> Holds(path, term, w)
  {
    hide Compile, IsTerm, Satisfied, Holds;
    forall w: World
      ensures (exists i :: 0 <= i < |qs| && Satisfied(qs[i].View(), w)) <==> Holds(path, term, w) {
      CompileKeepsMeaning(config, path, term, w);
      AmongViews(qs, Compile(config, path, term).value, w);
    }
  }

  lemma FirstTerm(config: Config, path: seq<string>, term: Element, s: State)
    requires IsTerm(config, path, term) && path == ["fes:filter"] && s == State([NOTHING], [], NEW_SCOPE, true)
    ensures Ready(Terms, path, s, 0) && AllFit(config, Terms, path, [term])
    ensures var r := Run(config, Terms, path, [term], s, 0);
      var qs := Compile(config, path, term);
      && (r.Some? <==> qs.Some?)
      && (r.Some? ==> r.value.views == qs.value)
  {
    RunTerms(config, path, [term], s, 0);
    assert [term][..0] == [];
    assert CompileAll(config, path, [term]).Some? <==> Compile(config, path, term).Some?;
    if Compile(config, path, term).Some? {
      assert CompileAll(config, path, [term]).value == [] + Compile(config, path, term).value;
      assert s.views[..0] == [];
    }
  }

  lemma SameObjects(o: seq<Query>, longer: seq<Query>, from: nat, vs: seq<Content>)
    requires ShowsAt(o, from, vs) && |o| <= |longer| && longer[..|o|] == o
    ensures ShowsAt(longer, from, vs)
  {
    forall i | 0 <= i < |vs| ensures longer[from + i].View() == vs[i] {
      assert longer[from + i] == o[from + i];
    }
  }

  lemma StillShows(o: seq<Query>, longer: seq<Query>, from: nat, vs: seq<Content>, more: seq<Content>)
    requires ShowsAt(o, from, vs) && |o| == from + |vs| <= |longer| && longer[..|o|] == o
    requires ShowsAt(longer, |o|, more)
    ensures ShowsAt(longer, from, vs + more)
  {
    SameObjects(o, longer, from, vs);
    forall i | 0 <= i < |vs + more| ensures longer[from + i].View() == (vs + more)[i] {
      if i >= |vs| {
        assert longer[from + i] == longer[|o| + (i - |vs|)];
      }
    }
  }

  // The set number k lies between its start and the next one.
  lemma SetShown(qs: seq<Query>, from: nat, sets: seq<seq<Content>>, k: nat)
    requires k < |sets| && ShowsAt(qs, from, Flat(sets))
    ensures ShowsAt(qs, Starts(from, sets)[k], sets[k])
    ensures Starts(from, sets)[k] + |sets[k]| ==
            if k < |sets| - 1 then Starts(from, sets)[k + 1] else from + |Flat(sets)|
  {
    SetsAt(from, sets, k);
    if k < |sets| - 1 {
      SetsAt(from, sets, k + 1);
    } else {
      assert sets[..k + 1] == sets;
    }
    var start := |Flat(sets[..k])|;
    forall i | 0 <= i < |sets[k]| ensures qs[from + start + i].View() == sets[k][i] {
      assert qs[from + (start + i)].View() == Flat(sets)[start + i];
    }
  }

  lemma ProductPrefixNonEmpty(sets: seq<seq<Content>>, k: nat)
    requires NonEmptyUsed(sets) && 0 < k <= |sets|
    ensures Product(sets[..k]) != []
  {
    ProductNonEmpty(sets[..k]);
  }

  lemma NextProduct(sets: seq<seq<Content>>, k: nat)
    requires k < |sets| && |sets| >= 2 && k != 1
    ensures k == 0 ==> Product(sets[..2]) == Cross(sets[0], sets[1])
    ensures k != 0 ==> Product(sets[..k + 1]) == Cross(sets[k], Product(sets[..k]))
  {
    if k != 0 {
      ProductNext(sets, k);
    }
  }

  lemma ErasedAt<T>(s: seq<T>, lo: nat, hi: nat, i: nat)
    requires lo <= hi <= |s| && i < lo + (|s| - hi)
    ensures (s[..lo] + s[hi..])[i] == s[if i < lo then i else hi + (i - lo)]
  {
  }

  // What stays when the queries between two indexes are erased.
  lemma Erased(qs: seq<Query>, lo: nat, hi: nat)
    requires lo <= hi <= |qs| && AllValid(qs)
    ensures AllValid(qs[..lo] + qs[hi..])
  {
    hide Render;
    var erased := qs[..lo] + qs[hi..];
    forall i | 0 <= i < |erased| ensures erased[i].Valid() {
      ErasedAt(qs, lo, hi, i);
    }
    forall i, j | 0 <= i < j < |erased| ensures erased[i] != erased[j] {
      ErasedAt(qs, lo, hi, i);
      ErasedAt(qs, lo, hi, j);
    }
  }

  lemma ErasedShows(qs: seq<Query>, lo: nat, hi: nat, vs: seq<Content>)
    requires lo <= hi && |qs| == hi + |vs| && ShowsAt(qs, hi, vs)
    ensures ShowsAt(qs[..lo] + qs[hi..], lo, vs)
  {
    forall i | 0 <= i < |vs| ensures (qs[..lo] + qs[hi..])[lo + i].View() == vs[i] {
      ErasedAt(qs, lo, hi, lo + i);
    }
  }

  lemma {:induction false} StartOfFirst(from: nat, sets: seq<seq<Content>>)
    requires sets != []
    ensures Starts(from, sets)[0] == from
  {
    SetsAt(from, sets, 0);
  }

  lemma OneSet(sets: seq<seq<Content>>)
    requires |sets| < 2
    ensures Flat(sets) == if sets == [] then [] else Product(sets)
  {
    if sets != [] {
      assert sets[..0] == [];
      assert [] + sets[0] == sets[0];
    }
  }

  // The end of fes:And once the combinations of its fes:Or branches are known.
  function FinishWith(base: Content, vs: seq<Content>): Option<seq<Content>> {
    if !Used(base) then Some(vs)
    else if vs == [] then Some([base])
    else if !SingleValued(base.params) then None
    else Some(MergeEach(base, vs))
  }

  lemma FinishInSteps(base: Content, sets: seq<seq<Content>>)
    requires NonEmptyUsed(sets)
    ensures Finish(base, sets) ==
            if |sets| >= 2 && !Combinable(sets) then None
            else FinishWith(base, if sets == [] then [] else Product(sets))
  {
    if sets != [] {
      ProductNonEmpty(sets);
    }
  }

  class FilterCompiler {
    const config: Config
    var queries: seq<Query>
    var or_query_indexes: seq<nat>
    var element_tree: seq<string>

    ghost predicate Valid()
      reads this, queries
    {
      AllValid(queries)
    }

    method CreateQuery() returns (query: Query)
      requires Valid()
      modifies this`queries
      ensures Valid() && fresh(query) && query.Valid() && query.View() == NOTHING
      ensures queries == old(queries) + [query]
    {
      query := new Query();
      queries := queries + [query];
    }

    // A new query with the parameters of two others.
    method AddCombined(or_query_1: Query, or_query_2: Query) returns (ok: bool)
      requires Valid() && or_query_1 in queries && or_query_2 in queries
      modifies this`queries
      ensures ok <==> SingleValued(or_query_1.params) && SingleValued(or_query_2.params)
      ensures ok ==> Valid() && |queries| == |old(queries)| + 1 && queries[..|old(queries)|] == old(queries)
      ensures ok ==> fresh(queries[|old(queries)|])
      ensures ok ==> queries[|old(queries)|].View() == MergePair(or_query_1.View(), or_query_2.View())
    {
      hide Render, SingleValued, Merge;
      assert or_query_1.Valid() && or_query_2.Valid();
      var combined_query := CreateQuery();
      ok := CopyParams(or_query_1, combined_query);
      if ok {
        ok := CopyParams(or_query_2, combined_query);
      }
    }

    // One new query for each query of the second set, combined with the given one of the first set.
    method CombineRow(or_query_1: Query, first_index_2: nat, last_index_2: nat, ghost b: seq<Content>)
      returns (ok: bool)
      requires Valid() && or_query_1 in queries
      requires first_index_2 < last_index_2 == first_index_2 + |b| <= |queries| && ShowsAt(queries, first_index_2, b)
      modifies this`queries
      ensures ok <==> SingleValued(or_query_1.params) && AllSingleValued(b)
      ensures ok ==> Valid() && |queries| == |old(queries)| + |b| && queries[..|old(queries)|] == old(queries)
      ensures ok ==> ShowsAt(queries, |old(queries)|, Row(or_query_1.View(), b))
      ensures ok ==> forall i :: |old(queries)| <= i < |queries| ==> fresh(queries[i])
    {
      hide FilterCompiler.Valid, AllValid, SingleValued, MergePair, Row, AllSingleValued;
      ghost var o := queries;
      ghost var x := or_query_1.View();
      RowStart(x, b);
      for index_2 := first_index_2 to last_index_2
        invariant Valid() && |queries| == |o| + (index_2 - first_index_2) && queries[..|o|] == o
        invariant ShowsAt(queries, |o|, Row(x, b[..index_2 - first_index_2]))
        invariant forall i :: |o| <= i < |queries| ==> fresh(queries[i])
        invariant index_2 > first_index_2 ==> SingleValued(x.params)
        invariant AllSingleValued(b[..index_2 - first_index_2])
      {
        ghost var n := index_2 - first_index_2;
        var or_query_2 := queries[index_2];
        assert or_query_2 == o[first_index_2 + n] && or_query_2.View() == b[n];
        ghost var before := queries;
        RowNext(x, b, n);
        ok := AddCombined(or_query_1, or_query_2);
        if !ok {
          return;
        }
        assert queries == before + [queries[|before|]];
      }
      assert b[..|b|] == b;
      ok := true;
    }

    // Every query of one set combined with every query of another.
    method CombineSets(first_index_1: nat, last_index_1: nat, first_index_2: nat, last_index_2: nat,
                       ghost a: seq<Content>, ghost b: seq<Content>) returns (ok: bool)
      requires Valid()
      requires first_index_1 < last_index_1 == first_index_1 + |a| <= |queries| && ShowsAt(queries, first_index_1, a)
      requires first_index_2 < last_index_2 == first_index_2 + |b| <= |queries| && ShowsAt(queries, first_index_2, b)
      modifies this`queries
      ensures ok <==> AllSingleValued(a) && AllSingleValued(b)
      ensures ok ==> Valid() && |queries| == |old(queries)| + |Cross(a, b)| && queries[..|old(queries)|] == old(queries)
      ensures ok ==> ShowsAt(queries, |old(queries)|, Cross(a, b))
      ensures ok ==> forall i :: |old(queries)| <= i < |queries| ==> fresh(queries[i])
    {
      hide FilterCompiler.Valid, AllValid, SingleValued, Row, Cross, AllSingleValued;
      ghost var o := queries;
      CrossStart(a, b);
      for index_1 := first_index_1 to last_index_1
        invariant Valid() && |queries| == |o| + |Cross(a[..index_1 - first_index_1], b)| && queries[..|o|] == o
        invariant ShowsAt(queries, |o|, Cross(a[..index_1 - first_index_1], b))
        invariant forall i :: |o| <= i < |queries| ==> fresh(queries[i])
        invariant index_1 > first_index_1 ==> AllSingleValued(b)
        invariant AllSingleValued(a[..index_1 - first_index_1])
      {
        ghost var n := index_1 - first_index_1;
        var or_query_1 := queries[index_1];
        assert or_query_1 == o[first_index_1 + n] && or_query_1.View() == a[n];
        ghost var before := queries;
        SameObjects(o, before, first_index_2, b);
        CrossNext(a, b, n);
        ok := CombineRow(or_query_1, first_index_2, last_index_2, b);
        if !ok {
          return;
        }
        assert queries[..|o|] == before[..|o|];
        StillShows(before, queries, |o|, Cross(a[..n], b), Row(a[n], b));
      }
      assert a[..|a|] == a;
      ok := true;
    }

    // One round: the next fes:Or set is multiplied into the combinations made so far, whose queries
    // then go away.
    method CombineRound(or_set: nat, queries_size_1: nat, ghost from: nat, ghost sets: seq<seq<Content>>)
      returns (ok: bool)
      requires Valid() && or_set < |sets| && |sets| >= 2 && or_set != 1 && NonEmptyUsed(sets)
      requires or_query_indexes == Starts(from, sets) && queries_size_1 == from + |Flat(sets)|
      requires ShowsAt(queries, from, Flat(sets))
      requires |queries| == queries_size_1 + if or_set == 0 then 0 else |Product(sets[..or_set])|
      requires or_set > 0 ==> ShowsAt(queries, queries_size_1, Product(sets[..or_set]))
      modifies this`queries
      ensures ok <==>
        && AllSingleValued(sets[or_set])
        && AllSingleValued(if or_set == 0 then sets[1] else Product(sets[..or_set]))
      ensures ok ==> var p := Product(sets[..if or_set == 0 then 2 else or_set + 1]);
        |queries| == queries_size_1 + |p| && ShowsAt(queries, queries_size_1, p)
      ensures ok ==> Valid() && queries[..queries_size_1] == old(queries)[..queries_size_1]
      ensures ok ==> forall i :: queries_size_1 <= i < |queries| ==> fresh(queries[i])
    {
      hide AllValid, SingleValued, Cross, AllSingleValued, Product, Starts, Flat;
      ghost var o := queries;
      var queries_size_2 := |queries|;
      var last_index_1 := if or_set < |or_query_indexes| - 1 then or_query_indexes[or_set + 1] else queries_size_1;
      var first_index_2 := if or_set == 0 then or_query_indexes[1] else queries_size_1;
      var last_index_2 :=
        if or_set == 0 && |or_query_indexes| > 2 then or_query_indexes[or_set + 2] else queries_size_2;
      ghost var a := sets[or_set];
      ghost var b := if or_set == 0 then sets[1] else Product(sets[..or_set]);
      SetShown(queries, from, sets, or_set);
      assert sets[or_set] != [] && sets[1] != [];
      if or_set == 0 {
        SetShown(queries, from, sets, 1);
      } else {
        ProductPrefixNonEmpty(sets, or_set);
      }
      ok := CombineSets(or_query_indexes[or_set], last_index_1, first_index_2, last_index_2, a, b);
      if !ok {
        return;
      }
      ghost var p := Cross(a, b);
      NextProduct(sets, or_set);
      Erased(queries, queries_size_1, queries_size_2);
      ErasedShows(queries, queries_size_1, queries_size_2, p);
      queries := queries[..queries_size_1] + queries[queries_size_2..];
    }

    // The fes:Or sets of a fes:And, at the end of the list, are replaced by their product.
    method CombineOrQueries(ghost from: nat, ghost sets: seq<seq<Content>>) returns (ok: bool)
      requires Valid() && |sets| >= 2 && NonEmptyUsed(sets)
      requires or_query_indexes == Starts(from, sets)
      requires |queries| == from + |Flat(sets)| && ShowsAt(queries, from, Flat(sets))
      modifies this`queries
      ensures ok <==> Combinable(sets)
      ensures ok ==> |queries| == from + |Product(sets)| && ShowsAt(queries, from, Product(sets))
      ensures ok ==> Valid() && queries[..from] == old(queries)[..from]
      ensures ok ==> forall i :: from <= i < |queries| ==> fresh(queries[i])
    {
      hide AllValid, SingleValued, Cross, AllSingleValued, Product, Starts, Flat, NonEmptyUsed;
      ghost var o := queries;
      var queries_size_1 := |queries|;
      var or_set := 0;
      while or_set < |or_query_indexes|
        invariant or_set == 0 || 2 <= or_set <= |sets|
        invariant Valid() && or_query_indexes == Starts(from, sets)
        invariant |queries| == queries_size_1 + (if or_set == 0 then 0 else |Product(sets[..or_set])|)
        invariant queries[..queries_size_1] == o
        invariant or_set > 0 ==> ShowsAt(queries, queries_size_1, Product(sets[..or_set]))
        invariant forall i :: queries_size_1 <= i < |queries| ==> fresh(queries[i])
        invariant forall k :: 0 <= k < or_set ==> AllSingleValued(sets[k])
        invariant forall k :: 2 <= k < or_set ==> AllSingleValued(Product(sets[..k]))
      {
        SameObjects(o, queries, from, Flat(sets));
        ok := CombineRound(or_set, queries_size_1, from, sets);
        if !ok {
          return;
        }
        or_set := if or_set == 0 then or_set + 2 else or_set + 1;
      }
      assert sets[..or_set] == sets;
      StartOfFirst(from, sets);
      Erased(queries, or_query_indexes[0], queries_size_1);
      ErasedShows(queries, or_query_indexes[0], queries_size_1, Product(sets));
      assert queries[..from] == o[..from];
      queries := queries[..or_query_indexes[0]] + queries[queries_size_1..];
      ok := true;
    }

    // The parameters of fes:And go into each of the queries behind its own one.
    method CopyToTail(and_query_index: nat, and_query: Query, ghost vs: seq<Content>) returns (ok: bool)
      requires Valid() && and_query_index < |queries| && queries[and_query_index] == and_query
      requires vs != [] && |queries| == and_query_index + 1 + |vs| && ShowsAt(queries, and_query_index + 1, vs)
      modifies queries[and_query_index + 1..]
      ensures ok <==> SingleValued(and_query.View().params)
      ensures ok ==> Valid() && ShowsAt(queries, and_query_index + 1, MergeEach(old(and_query.View()), vs))
      ensures and_query.View() == old(and_query.View())
    {
      hide Render, SingleValued, Merge;
      ghost var base := and_query.View();
      ghost var from := and_query_index + 1;
      for or_query_index := and_query_index + 1 to |queries|
        invariant Valid() && and_query.View() == base
        invariant or_query_index > from ==> SingleValued(base.params)
        invariant forall i :: 0 <= i < or_query_index - from ==> queries[from + i].View() == Merge(base, vs[i])
        invariant forall i :: or_query_index - from <= i < |vs| ==> queries[from + i].View() == vs[i]
      {
        var or_query := queries[or_query_index];
        assert or_query == queries[from + (or_query_index - from)];
        ok := CopyParams(and_query, or_query);
        if !ok {
          return;
        }
        assert Valid();
      }
      ok := true;
    }

    method EraseQuery(index: nat, ghost vs: seq<Content>)
      requires Valid() && index < |queries| == index + 1 + |vs| && ShowsAt(queries, index + 1, vs)
      modifies this`queries
      ensures |queries| == index + |vs| && ShowsAt(queries, index, vs)
      ensures Valid() && queries[..index] == old(queries)[..index]
      ensures forall i :: index <= i < |queries| ==> queries[i] in old(queries)[index..]
    {
      Erased(queries, index, index + 1);
      ErasedShows(queries, index, index + 1, vs);
      hide AllValid, ShowsAt;
      ghost var o := queries;
      queries := queries[..index] + queries[index + 1..];
      forall i | index <= i < |queries| ensures queries[i] in o[index..] {
        assert queries[i] == o[index..][i + 1 - index];
      }
    }

    // The query of fes:And goes away, unless it is all there is.
    method DropAndQuery(and_query_index: nat, and_query: Query, ghost vs: seq<Content>) returns (ok: bool)
      requires Valid() && and_query_index < |queries| && queries[and_query_index] == and_query
      requires |queries| == and_query_index + 1 + |vs| && ShowsAt(queries, and_query_index + 1, vs)
      modifies this`queries, queries[and_query_index + 1..]
      ensures ok <==> FinishWith(old(and_query.View()), vs).Some?
      ensures ok ==> var result := FinishWith(old(and_query.View()), vs).value;
        |queries| == and_query_index + |result| && ShowsAt(queries, and_query_index, result)
      ensures ok ==> Valid() && queries[..and_query_index] == old(queries)[..and_query_index]
      ensures ok ==> forall i :: and_query_index <= i < |queries| ==> queries[i] in old(queries)[and_query_index..]
    {
      assert and_query.Valid();
      hide Render, SingleValued, Merge, AllValid;
      ghost var base := and_query.View();
      var used := and_query.IsUsed();
      if !used {
        EraseQuery(and_query_index, vs);
      } else if |queries| > and_query_index + 1 {
        ok := CopyToTail(and_query_index, and_query, vs);
        if !ok {
          return;
        }
        EraseQuery(and_query_index, MergeEach(base, vs));
      }
      ok := true;
    }

    method HandleEndOfAndElement(and_query_index: nat, and_query: Query, ghost sets: seq<seq<Content>>)
      returns (ok: bool)
      requires Valid() && and_query_index < |queries| && queries[and_query_index] == and_query
      requires NonEmptyUsed(sets) && or_query_indexes == Starts(and_query_index + 1, sets)
      requires |queries| == and_query_index + 1 + |Flat(sets)| && ShowsAt(queries, and_query_index + 1, Flat(sets))
      modifies this, queries[and_query_index + 1..]
      ensures ok <==> Finish(old(and_query.View()), sets).Some?
      ensures ok ==> var result := Finish(old(and_query.View()), sets).value;
        |queries| == and_query_index + |result| && ShowsAt(queries, and_query_index, result)
      ensures ok ==> Valid() && or_query_indexes == [] && queries[..and_query_index] == old(queries)[..and_query_index]
      ensures element_tree == old(element_tree)
      ensures ok ==> forall i :: and_query_index <= i < |queries| ==>
        queries[i] in old(queries)[and_query_index..] || fresh(queries[i])
    {
      hide Render, SingleValued, Merge, Combinable, Product, Starts, AllValid, NonEmptyUsed, Flat;
      ghost var o := queries;
      ghost var from := and_query_index + 1;
      ghost var base := and_query.View();
      FinishInSteps(base, sets);
      if |or_query_indexes| >= 2 {
        ok := CombineOrQueries(from, sets);
        if !ok {
          return;
        }
      } else {
        OneSet(sets);
      }
      or_query_indexes := [];
      assert queries[and_query_index] == queries[..from][and_query_index] == and_query;
      hide Finish, FinishWith;
      ghost var middle := queries;
      assert forall i :: and_query_index <= i < |middle| ==> middle[i] in o[and_query_index..] || fresh(middle[i]);
      ok := DropAndQuery(and_query_index, and_query, if sets == [] then [] else Product(sets));
      assert middle[..and_query_index] == middle[..from][..and_query_index] == o[..and_query_index];
    }

    // Inside fes:Or every element gets a query of its own; the start of a fes:Or inside fes:And is
    // kept in the index list.
    method PrepareQuery(element: Element, upper: Query?, scope: Scope, first: bool)
      returns (query: Query, scope': Scope, first': bool)
      requires Valid() && queries != []
      requires Last(element_tree) == "fes:or" ==> |element_tree| >= 2
      modifies this`queries, this`or_query_indexes
      ensures Valid() && queries != [] && query == queries[|queries| - 1] && query.Valid()
      ensures var back := old(queries)[|old(queries)| - 1];
        var created := Last(element_tree) == "fes:or" && (Used(old(back.View())) || back == upper);
        var noted := created && first && element_tree[|element_tree| - 2] == "fes:and" &&
                     !IsAnd(element) && !IsOr(element);
        && (created ==> fresh(query) && queries == old(queries) + [query] && query.View() == NOTHING)
        && (!created ==> queries == old(queries))
        && or_query_indexes == old(or_query_indexes) + (if noted then [|old(queries)|] else [])
        && scope' == (if created then NEW_SCOPE else scope)
        && first' == (first && !noted)
    {
      hide Used, Render;
      query := queries[|queries| - 1];
      scope', first' := scope, first;
      var used := query.IsUsed();
      if element_tree != [] && element_tree[|element_tree| - 1] == "fes:or" && (used || query == upper) {
        query := CreateQuery();
        scope' := NEW_SCOPE;
        if first && element_tree[|element_tree| - 2] == "fes:and" && !IsAnd(element) && !IsOr(element) {
          first' := false;
          or_query_indexes := or_query_indexes + [|queries| - 1];
        }
      }
    }

    method ReadQueryParameter(localName: Text, values: seq<Value>, withinLimits: bool, scope: Scope, query: Query)
      returns (ok: bool, scope': Scope)
      requires query.Valid()
      modifies query
      ensures var r := Read(config, element_tree, Parameter(localName, values, withinLimits), scope, old(query.View()));
        && (ok <==> r.Some?)
        && (ok ==> query.Valid() && (scope', query.View()) == r.value)
    {
      hide Render, Insert;
      scope' := scope;
      var param_name := ParamName(element_tree, localName);
      if param_name !in config {
        return true, scope;
      }
      var param_desc := config[param_name];
      if param_name in scope.forbidden {
        return false, scope;
      }
      var forbidden := scope.forbidden + Lowered(param_desc.conflictsWith);
      if scope.names[param_name] + 1 > param_desc.maxOccurs {
        return false, scope;
      }
      if !withinLimits {
        return false, scope;
      }
      ghost var before := query.View();
      assert values[..0] == [];
      for i := 0 to |values|
        invariant query.Valid() && query.View() == before.(params := InsertAll(before.params, param_name, values[..i]))
      {
        assert values[..i + 1][..i] == values[..i];
        query.params := Insert(query.params, param_name, values[i]);
      }
      assert values[..|values|] == values;
      return true, Scope(scope.names + multiset{param_name}, forbidden);
    }

    // Outside fes:Or the query of the enclosing fes:And is the one that is read into.
    method ReadFilterParameter(element: Element, scope: Scope, query: Query, upper: Query?)
      returns (ok: bool, scope': Scope)
      requires !element.Node? && element_tree != []
      requires query.Valid() && (upper != null ==> upper.Valid())
      modifies if upper != null && Last(element_tree) != "fes:or" then upper else query
      ensures var target := if upper != null && Last(element_tree) != "fes:or" then upper else query;
        var r := Read(config, element_tree, element, scope, old(target.View()));
        && (ok <==> r.Some?)
        && (ok ==> target.Valid() && (scope', target.View()) == r.value)
    {
      var target := query;
      if upper != null && element_tree[|element_tree| - 1] != "fes:or" {
        target := upper;
      }
      match element
      case Comparison(condition) =>
        target.AddComparison(condition);
        ok, scope' := true, scope;
      case Parameter(localName, values, withinLimits) =>
        ok, scope' := ReadQueryParameter(localName, values, withinLimits, scope, target);
    }

    // The list shows the given contents, from its first query to its last one.
    ghost predicate ShowsAll(views: seq<Content>)
      reads this, queries
    {
      |queries| == |views| && Shows(queries, views)
    }

    // The query at index t is the one that elements outside fes:Or are read into.
    ghost predicate ReadsInto(upper: Query?, t: nat)
      reads this
      requires t < |queries|
    {
      if upper != null && Last(element_tree) != "fes:or" then queries[t] == upper else t == |queries| - 1
    }

    // The same inside an element of the given name.
    ghost predicate ReadsFor(inner: Place, name: string, and_query: Query?, t: nat)
      reads this
      requires t < |queries|
    {
      match inner
      case Terms => and_query == null
      case Leaves => if and_query != null && name != "fes:or" then queries[t] == and_query else t == |queries| - 1
      case _ => queries[t] == and_query
    }

    // How many queries at the front of the list stay the same objects.
    static ghost function Kept(place: Place, views: seq<Content>): nat {
      if place == Terms then |Finished(views)| else |views|
    }

    // An element that is neither a parameter nor a comparison is read through its children.
    method ExtractGroup(element: Element, upper: Query?, ghost place: Place, ghost t: nat, ghost p: seq<Content>)
      returns (ok: bool)
      requires Valid() && ShowsAll(p) && GroupReady(place, element_tree, p, or_query_indexes, t)
      requires element.Node? && !IsNot(element) && Fits(config, place, element_tree, element)
      requires ReadsInto(upper, t)
      requires place == Terms ==> upper == null
      requires place == Conjuncts ==> upper != null
      modifies this, queries
      ensures ok <==> Group(config, old(element_tree), element, p, old(or_query_indexes), t).Some?
      ensures ok ==> Valid() && element_tree == old(element_tree)
      ensures ok ==>
        var (views, indexes) := Group(config, element_tree, element, p, old(or_query_indexes), t).value;
        ShowsAll(views) && or_query_indexes == indexes
      ensures ok ==> var kept := if place == Terms then |p| - 1 else |p|;
        |queries| >= kept && queries[..kept] == old(queries)[..kept]
      ensures ok ==> forall i :: 0 <= i < |queries| ==> queries[i] in old(queries) || fresh(queries[i])
      decreases element, 3
    {
      hide Run, Group, Fits, Ready, AllFit, AllValid, Shows;
      ghost var path := element_tree;
      InnerReady(config, place, path, element, p, or_query_indexes, t);
      if element.name == "fes:and" {
        ok := ExtractAnd(element, t, p);
        return;
      }
      var and_query: Query? := null;
      if element_tree[|element_tree| - 1] != "fes:or" {
        and_query := upper;
      }
      ghost var s := State(p, or_query_indexes, NEW_SCOPE, true);
      InnerRun(config, place, path, element, p, or_query_indexes, t);
      ok := ExtractChildren(element, and_query, Inner(place, element), s, t);
    }

    // fes:And: the last query of the list takes its own parameters, and is dropped or copied at the end.
    method ExtractAnd(element: Element, ghost t: nat, ghost p: seq<Content>) returns (ok: bool)
      requires Valid() && ShowsAll(p) && GroupReady(Terms, element_tree, p, or_query_indexes, t)
      requires IsAnd(element) && Fits(config, Terms, element_tree, element)
      modifies this, queries
      ensures ok <==> Group(config, old(element_tree), element, p, [], t).Some?
      ensures ok ==> Valid() && element_tree == old(element_tree)
      ensures ok ==>
        var (views, indexes) := Group(config, element_tree, element, p, [], t).value;
        ShowsAll(views) && or_query_indexes == indexes
      ensures ok ==> |queries| >= t && queries[..t] == old(queries)[..t]
      ensures ok ==> forall i :: 0 <= i < |queries| ==> queries[i] in old(queries) || fresh(queries[i])
      decreases element, 2
    {
      hide Group, Fits, AllValid, Starts, Flat, Finish, ReadOwn, OrSets, NonEmptyUsed, Shows;
      ghost var path, o := element_tree, queries;
      ghost var path' := path + [element.name];
      AndRun(config, path, element, p, t);
      var and_query := queries[|queries| - 1];
      var and_query_index := |queries| - 1;
      ok := ExtractConjuncts(element, and_query, t, p);
      if !ok {
        return;
      }
      ghost var middle := queries;
      ok := EndAnd(and_query_index, and_query, p, ReadOwn(config, path', element.children).value.1,
                   OrSets(config, path', element.children).value);
      assert middle[..t] == middle[..|o|][..t] == o[..t];
    }

    // The children of fes:And. Afterwards the query that was the last one is still at its index, with
    // the own parameters of fes:And in it; the queries behind it are the fes:Or sets in document order,
    // and the index list says where each of them starts.
    method ExtractConjuncts(element: Element, and_query: Query, ghost t: nat, ghost p: seq<Content>) returns (ok: bool)
      requires Valid() && ShowsAll(p) && GroupReady(Terms, element_tree, p, or_query_indexes, t)
      requires IsAnd(element) && Fits(config, Terms, element_tree, element)
      requires queries != [] && and_query == queries[|queries| - 1]
      modifies this, queries
      ensures var path := old(element_tree) + [element.name];
        ok <==> ReadOwn(config, path, element.children).Some? && OrSets(config, path, element.children).Some?
      ensures ok ==> Valid() && element_tree == old(element_tree)
      ensures ok ==> |p| == t + 1 && t < |queries| && queries[t] == and_query
      ensures ok ==>
        var path := element_tree + [element.name];
        var base := ReadOwn(config, path, element.children).value.1;
        var sets := OrSets(config, path, element.children).value;
        && ShowsAll(p[t := base] + Flat(sets))
        && or_query_indexes == Starts(t + 1, sets) && NonEmptyUsed(sets)
      ensures ok ==> |queries| >= |p| && queries[..|p|] == old(queries)
      ensures ok ==> forall i :: 0 <= i < |queries| ==> queries[i] in old(queries) || fresh(queries[i])
      decreases element, 1
    {
      hide Run, Group, Fits, Ready, AllFit, AllValid, Starts, Flat, Finish, ReadOwn, OrSets, NonEmptyUsed, Shows;
      ghost var path, o := element_tree, queries;
      InnerReady(config, Terms, path, element, p, [], t);
      AndRun(config, path, element, p, t);
      ok := ExtractChildren(element, and_query, Conjuncts, State(p, [], NEW_SCOPE, true), t);
      if ok {
        assert queries[t] == queries[..|o|][t] == and_query;
      }
    }

    // The children of an element, with its name on the stack of names.
    method ExtractChildren(element: Element, and_query: Query?, ghost inner: Place, ghost s: State, ghost t: nat)
      returns (ok: bool)
      requires element.Node?
      requires Valid() && ShowsAll(s.views) && s.indexes == or_query_indexes && s.scope == NEW_SCOPE && s.first
      requires t < |s.views| && Ready(inner, element_tree + [element.name], s, t)
      requires AllFit(config, inner, element_tree + [element.name], element.children)
      requires inner == Terms ==> element.name == "fes:or"
      requires ReadsFor(inner, element.name, and_query, t)
      modifies this, queries
      ensures var r := Run(config, inner, old(element_tree) + [element.name], element.children, s, t);
        && (ok <==> r.Some?)
        && (ok ==> ShowsAll(r.value.views) && or_query_indexes == r.value.indexes)
      ensures ok ==> Valid() && element_tree == old(element_tree)
      ensures ok ==> |queries| >= Kept(inner, s.views)
      ensures ok ==> queries[..Kept(inner, s.views)] == old(queries)[..Kept(inner, s.views)]
      ensures ok ==> forall i :: 0 <= i < |queries| ==> queries[i] in old(queries) || fresh(queries[i])
      decreases element, 0
    {
      hide Run, Ready, AllFit, AllValid, Shows;
      ghost var path := element_tree;
      element_tree := element_tree + [element.name];
      ok := ExtractFilterElements(element.children, and_query, inner, s, t);
      if ok {
        element_tree := element_tree[..|element_tree| - 1];
        assert element_tree == path;
      }
    }

    // The end of fes:And, for a list whose last part are the queries of the fes:And.
    method EndAnd(and_query_index: nat, and_query: Query, ghost p: seq<Content>, ghost base: Content,
                  ghost sets: seq<seq<Content>>) returns (ok: bool)
      requires Valid() && and_query_index < |queries| && queries[and_query_index] == and_query
      requires |p| == and_query_index + 1 && ShowsAll(p[and_query_index := base] + Flat(sets))
      requires NonEmptyUsed(sets) && or_query_indexes == Starts(and_query_index + 1, sets)
      modifies this, queries
      ensures ok <==> Finish(base, sets).Some?
      ensures ok ==> Valid() && element_tree == old(element_tree)
      ensures ok ==> ShowsAll(p[..and_query_index] + Finish(base, sets).value) && or_query_indexes == []
      ensures ok ==> |queries| >= and_query_index && queries[..and_query_index] == old(queries)[..and_query_index]
      ensures ok ==> forall i :: 0 <= i < |queries| ==> queries[i] in old(queries) || fresh(queries[i])
    {
      hide AllValid, Starts, Flat, Finish, NonEmptyUsed;
      ghost var front := p[and_query_index := base];
      ShowsParts(queries, front, Flat(sets));
      assert queries[and_query_index] == queries[..|front|][and_query_index];
      assert Shows(queries[..and_query_index], p[..and_query_index]) by {
        forall i | 0 <= i < and_query_index ensures queries[i].View() == p[i] {
          assert queries[i] == queries[..|front|][i];
        }
      }
      ghost var before := queries[..and_query_index];
      Unaffected(queries, and_query_index);
      ok := HandleEndOfAndElement(and_query_index, and_query, sets);
      if ok {
        assert Shows(before, p[..and_query_index]);
        ShowsWhole(queries, p[..and_query_index], Finish(base, sets).value);
      }
    }

    // In the fragment a query is created exactly where one is needed.
    method PrepareInPlace(element: Element, upper: Query?, scope: Scope, first: bool,
                          ghost place: Place, ghost s: State, ghost t: nat)
      returns (query: Query, scope': Scope, first': bool)
      requires Valid() && ShowsAll(s.views) && s.indexes == or_query_indexes && s.scope == scope && s.first == first
      requires t < |s.views| && Ready(place, element_tree, s, t) && Fits(config, place, element_tree, element)
      requires ReadsFor(place, Last(element_tree), upper, t)
      modifies this`queries, this`or_query_indexes
      ensures var p := Prepared(place, s);
        && ShowsAll(p.views) && or_query_indexes == p.indexes && scope' == p.scope && first' == p.first
      ensures Valid() && |queries| > 0 && query == queries[|queries| - 1] && query.Valid()
      ensures TargetIndex(place, s, t) < |queries| && ReadsInto(upper, TargetIndex(place, s, t))
      ensures |queries| >= |s.views| && queries[..|s.views|] == old(queries)
      ensures forall i :: 0 <= i < |queries| ==> queries[i] in old(queries) || fresh(queries[i])
    {
      hide FilterCompiler.Valid, Query.Valid, Used, Ready, Fits, Prepared, TargetIndex, Shows;
      ghost var o := queries;
      BackShown(o, s.views);
      PreparedParts(config, place, element_tree, element, s, t, o[|o| - 1] == upper);
      query, scope', first' := PrepareQuery(element, upper, scope, first);
      if |queries| > |o| {
        ShowsOneMore(o, s.views, query);
      } else {
        assert s.views + [] == s.views;
      }
    }

    // A parameter or comparison goes into the query at the target index.
    method ReadInPlace(element: Element, scope: Scope, query: Query, upper: Query?, ghost t: nat, ghost p: seq<Content>)
      returns (ok: bool, scope': Scope)
      requires !element.Node? && element_tree != []
      requires Valid() && ShowsAll(p) && t < |p| && ReadsInto(upper, t)
      requires query == queries[|queries| - 1]
      modifies queries
      ensures var r := Read(config, element_tree, element, scope, p[t]);
        && (ok <==> r.Some?)
        && (ok ==> Valid() && scope' == r.value.0 && ShowsAll(p[t := r.value.1]))
    {
      hide Read;
      assert queries[t].Valid();
      ghost var o := queries;
      var outer: Query? := if Last(element_tree) != "fes:or" then upper else null;
      ok, scope' := ReadFilterParameter(element, scope, query, outer);
      if ok {
        forall i | 0 <= i < |queries| ensures queries[i].Valid() && queries[i].View() == p[t := queries[t].View()][i] {
          assert i != t ==> queries[i] != queries[t];
        }
      }
    }

    // Reading one element into the query prepared for it.
    method ReadElement(element: Element, scope: Scope, query: Query, upper: Query?,
                       ghost place: Place, ghost s: State, ghost t: nat)
      returns (ok: bool, scope': Scope)
      requires t < |s.views| && Ready(place, element_tree, s, t) && Fits(config, place, element_tree, element)
      requires var p := Prepared(place, s);
        Valid() && ShowsAll(p.views) && or_query_indexes == p.indexes && scope == p.scope
      requires queries != [] && query == queries[|queries| - 1] && !IsNot(element)
      requires TargetIndex(place, s, t) < |queries| && ReadsInto(upper, TargetIndex(place, s, t))
      requires (place == Terms ==> upper == null) && (place == Conjuncts ==> upper != null)
      modifies this, queries
      ensures var r := Step(config, place, old(element_tree), element, s, t);
        && (ok <==> r.Some?)
        && (ok ==> ShowsAll(r.value.views) && or_query_indexes == r.value.indexes)
        && (ok ==> scope' == r.value.scope && r.value.first == Prepared(place, s).first)
      ensures ok ==> Valid() && element_tree == old(element_tree)
      ensures ok ==>
        var stay := if place == Terms then |Prepared(place, s).views| - 1 else |Prepared(place, s).views|;
        |queries| >= stay >= 0 && queries[..stay] == old(queries)[..stay]
      ensures ok ==> forall i :: 0 <= i < |queries| ==> queries[i] in old(queries) || fresh(queries[i])
      decreases element, 4
    {
      hide Step, Group, Fits, Ready, GroupReady, AllValid, Shows, Read, Prepared, TargetIndex, Finished;
      ghost var p, t' := Prepared(place, s), TargetIndex(place, s, t);
      if element.Node? {
        StepByGroup(config, place, element_tree, element, s, t);
        ok := ExtractGroup(element, upper, place, t', p.views);
        scope' := scope;
      } else {
        StepByRead(config, place, element_tree, element, s, t);
        ok, scope' := ReadInPlace(element, scope, query, upper, t', p.views);
      }
    }

    // One round of the loop over the child elements.
    method ExtractElement(element: Element, upper: Query?, scope: Scope, first: bool,
                          ghost place: Place, ghost s: State, ghost t: nat)
      returns (ok: bool, scope': Scope, first': bool)
      requires Valid() && ShowsAll(s.views) && s.indexes == or_query_indexes && s.scope == scope && s.first == first
      requires t < |s.views| && Ready(place, element_tree, s, t) && Fits(config, place, element_tree, element)
      requires ReadsFor(place, Last(element_tree), upper, t)
      modifies this, queries
      ensures var r := Step(config, place, old(element_tree), element, s, t);
        && (ok <==> r.Some?)
        && (ok ==> ShowsAll(r.value.views) && or_query_indexes == r.value.indexes)
        && (ok ==> scope' == r.value.scope && first' == r.value.first)
      ensures ok ==> Valid() && element_tree == old(element_tree)
      ensures ok ==> |queries| >= Kept(place, s.views)
      ensures ok ==> queries[..Kept(place, s.views)] == old(queries)[..Kept(place, s.views)]
      ensures ok ==> forall i :: 0 <= i < |queries| ==> queries[i] in old(queries) || fresh(queries[i])
      decreases element, 5
    {
      hide Step, Fits, Ready, AllValid, Shows, Prepared, TargetIndex, Finished, FilterCompiler.ReadsInto;
      hide FilterCompiler.Valid, Query.Valid;
      scope', first' := scope, first;
      if IsNot(element) {
        NotRefused(config, place, element_tree, element, s, t);
        return false, scope', first';
      }
      ghost var o := queries;
      KeptBefore(place, s);
      assert place == Conjuncts ==> upper != null;
      var query;
      query, scope', first' := PrepareInPlace(element, upper, scope, first, place, s, t);
      ghost var middle := queries;
      ok, scope' := ReadElement(element, scope', query, upper, place, s, t);
      if ok {
        ghost var n := |Prepared(place, s).views|;
        SamePrefix(o, middle, queries, if place == Terms then n - 1 else n, Kept(place, s.views));
      }
    }

    method ExtractFilterElements(elements: seq<Element>, upper: Query?, ghost place: Place, ghost s: State,
                                 ghost t: nat)
      returns (ok: bool)
      requires Valid() && ShowsAll(s.views) && s.indexes == or_query_indexes && s.scope == NEW_SCOPE && s.first
      requires t < |s.views| && Ready(place, element_tree, s, t) && AllFit(config, place, element_tree, elements)
      requires place == Terms && Last(element_tree) != "fes:or" ==> |elements| <= 1
      requires ReadsFor(place, Last(element_tree), upper, t)
      modifies this, queries
      ensures ok <==> Run(config, place, old(element_tree), elements, s, t).Some?
      ensures ok ==> Valid() && element_tree == old(element_tree)
      ensures ok ==>
        var r := Run(config, place, element_tree, elements, s, t).value;
        ShowsAll(r.views) && or_query_indexes == r.indexes
      ensures ok ==> |queries| >= Kept(place, s.views)
      ensures ok ==> queries[..Kept(place, s.views)] == old(queries)[..Kept(place, s.views)]
      ensures ok ==> forall i :: 0 <= i < |queries| ==> queries[i] in old(queries) || fresh(queries[i])
      decreases elements, 6
    {
      hide Run, Step, Fits, Ready, AllValid, Shows;
      ghost var o, path := queries, element_tree;
      ghost var r := s;
      RunStart(config, place, path, elements, s, t);
      var scope := NEW_SCOPE;
      var first := true;
      for i := 0 to |elements|
        invariant Valid() && element_tree == path
        invariant Run(config, place, path, elements[..i], s, t) == Some(r)
        invariant ShowsAll(r.views) && or_query_indexes == r.indexes
        invariant scope == r.scope && first == r.first
        invariant t < |r.views| && Kept(place, r.views) >= Kept(place, s.views)
        invariant i < |elements| ==> Ready(place, element_tree, r, t) && ReadsFor(place, Last(element_tree), upper, t)
        invariant |queries| >= Kept(place, s.views) && queries[..Kept(place, s.views)] == o[..Kept(place, s.views)]
        invariant place != Terms ==> queries[t] == o[t]
        invariant place == Leaves ==> |queries| == |o|
        invariant forall k :: 0 <= k < |queries| ==> queries[k] in o || fresh(queries[k])
      {
        ghost var before := queries;
        assert elements[i] in elements;
        RunNext(config, place, path, elements, s, t, i);
        ok, scope, first := ExtractElement(elements[i], upper, scope, first, place, r, t);
        if !ok {
          RunFailed(config, place, path, elements, s, t, i + 1);
          return;
        }
        StepReady(config, place, path, elements[i], r, t);
        ghost var k, k' := Kept(place, s.views), Kept(place, r.views);
        assert queries[..k] == queries[..k'][..k] == before[..k'][..k] == before[..k];
        assert place != Terms ==> queries[t] == queries[..k'][t] == before[..k'][t];
        r := Step(config, place, path, elements[i], r, t).value;
      }
      assert elements[..|elements|] == elements;
      ok := true;
    }

    constructor (config: Config)
      ensures Valid() && queries == [] && or_query_indexes == [] && element_tree == ["fes:filter"]
      ensures this.config == config
    {
      this.config := config;
      queries := [];
      or_query_indexes := [];
      element_tree := ["fes:filter"];
    }

    // fes:Filter around a term. The queries left are the normal form of the term, none of them is
    // empty, and a world satisfies one of them exactly when the term holds in it.
    method ExtractXmlParameters(term: Element) returns (ok: bool)
      requires queries == [] && or_query_indexes == [] && element_tree == ["fes:filter"]
      requires IsTerm(config, element_tree, term)
      modifies this
      ensures ok <==> Compile(config, ["fes:filter"], term).Some?
      ensures ok <==> TermFine(config, ["fes:filter"], term)
      ensures ok ==> Valid() && ShowsAll(Compile(config, ["fes:filter"], term).value)
      ensures ok ==> multiset(AtomsOfAll(Compile(config, ["fes:filter"], term).value)) ==
              multiset(Dnf(["fes:filter"], term))
      ensures ok ==> queries != [] && forall i :: 0 <= i < |queries| ==> Used(queries[i].View()) && fresh(queries[i])
      ensures ok ==> forall w: World ::
        (exists i :: 0 <= i < |queries| && Satisfied(queries[i].View(), w)) <==> Holds(["fes:filter"], term, w)
    {
      hide Compile, Dnf, IsTerm, Run, AtomsOfAll, Satisfied, Used, Holds, Ready, AllFit, AllValid, TermFine;
      CompileExactly(config, element_tree, term);
      var query := CreateQuery();
      ghost var s := State([NOTHING], [], NEW_SCOPE, true);
      ghost var path := element_tree;
      FirstTerm(config, path, term, s);
      ok := ExtractFilterElements([term], null, Terms, s, 0);
      if ok {
        ghost var qs := Compile(config, path, term).value;
        CompileIsDnf(config, path, term);
        CompileUsed(config, path, term);
        assert queries[0] in queries;
        SameMeaning(queries, config, path, term);
      }
    }
  }
}
