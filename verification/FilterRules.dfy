/** Which filters are accepted, and what reading a leaf leaves in a query, said of the element tree alone. */
module FilterRules {
  import opened Wrappers
  import opened Texts
  import opened Sequences
  import opened Values
  import opened Multimaps
  import opened Filters
  import opened FilterRuns
  import opened FilterAcceptance

  // ---------- what stands in a leaf ----------

  // The values given for a parameter, in document order.
  function ValuesBelow(path: seq<string>, e: Element, key: Text): seq<Value>
    decreases e, 0
  {
    match e
    case Comparison(_) => []
    case Parameter(localName, values, _) => if ParamName(path, localName) == key then values else []
    case Node(name, children) => ValuesBelowAll(path + [name], children, key)
  }

  function ValuesBelowAll(path: seq<string>, es: seq<Element>, key: Text): seq<Value>
    decreases es, 1
  {
    if es == [] then [] else ValuesBelowAll(path, es[..|es| - 1], key) + ValuesBelow(path, es[|es| - 1], key)
  }

  // The conditions of comparisons, in document order.
  function ConditionsBelow(e: Element): seq<string>
    decreases e, 0
  {
    match e
    case Comparison(condition) => [condition]
    case Parameter(_, _, _) => []
    case Node(_, children) => ConditionsBelowAll(children)
  }

  function ConditionsBelowAll(es: seq<Element>): seq<string>
    decreases es, 1
  {
    if es == [] then [] else ConditionsBelowAll(es[..|es| - 1]) + ConditionsBelow(es[|es| - 1])
  }

  // ---------- the rule ----------

  // How often a parameter stands directly among the elements.
  function Occurrences(path: seq<string>, es: seq<Element>, name: Text): nat {
    if es == [] then 0
    else
      var e := es[|es| - 1];
      Occurrences(path, es[..|es| - 1], name)
      + if e.Parameter? && ParamName(path, e.localName) == name then 1 else 0
  }

  // The parameters that stand directly among elements read by one call: each is within its limits, none
  // occurs too often, and none is forbidden by an earlier one.
  ghost predicate ScopeFine(config: Config, path: seq<string>, es: seq<Element>) {
    forall i :: 0 <= i < |es| && es[i].Parameter? && ParamName(path, es[i].localName) in config ==>
      var name := ParamName(path, es[i].localName);
      && es[i].withinLimits
      && Occurrences(path, es, name) <= config[name].maxOccurs
      && forall j :: 0 <= j < i && es[j].Parameter? && ParamName(path, es[j].localName) in config ==>
           name !in Lowered(config[ParamName(path, es[j].localName)].conflictsWith)
  }

  // The same in every scope below the elements, and there is no fes:Not.
  ghost predicate LeavesFine(config: Config, path: seq<string>, es: seq<Element>)
    decreases es, 1
  {
    ScopeFine(config, path, es) && forall e :: e in es ==> BelowFine(config, path, e)
  }

  ghost predicate BelowFine(config: Config, path: seq<string>, e: Element)
    decreases e, 0
  {
    e.Node? ==> e.name != "fes:not" && LeavesFine(config, path + [e.name], e.children)
  }

  function OwnLeaves(es: seq<Element>): seq<Element> {
    if es == [] then []
    else OwnLeaves(es[..|es| - 1]) + if IsOr(es[|es| - 1]) then [] else [es[|es| - 1]]
  }

  function OrElements(es: seq<Element>): seq<Element> {
    if es == [] then []
    else OrElements(es[..|es| - 1]) + if IsOr(es[|es| - 1]) then [es[|es| - 1]] else []
  }

  // No parameter has two values.
  ghost predicate OneValueEach(path: seq<string>, es: seq<Element>) {
    forall key :: |ValuesBelowAll(path, es, key)| <= 1
  }

  // A parameter has a value in some branch of fes:Or.
  ghost predicate Mentions(path: seq<string>, or: Element, key: Text)
    requires or.Node?
  {
    exists c :: c in or.children && ValuesBelow(path + [or.name], c, key) != []
  }

  // Several fes:Or elements: no branch repeats a parameter, and no two of them but the last share one.
  ghost predicate OrsFit(path: seq<string>, ors: seq<Element>)
    requires forall o :: o in ors ==> o.Node?
  {
    && (forall i, c :: 0 <= i < |ors| && c in ors[i].children ==> OneValueEach(path + [ors[i].name], [c]))
    && (forall i, j, key :: 0 <= i < j < |ors| - 1 ==> !(Mentions(path, ors[i], key) && Mentions(path, ors[j], key)))
  }

  // fes:And over leaves and fes:Or elements of leaves: several fes:Or elements fit together, and next to
  // any of them the own leaves give no parameter two values.
  ghost predicate AndFine(config: Config, path: seq<string>, es: seq<Element>)
    requires forall o :: o in OrElements(es) ==> o.Node?
  {
    var own, ors := OwnLeaves(es), OrElements(es);
    && LeavesFine(config, path, own)
    && (forall i, c :: 0 <= i < |ors| && c in ors[i].children ==> LeavesFine(config, path + [ors[i].name], [c]))
    && (|ors| >= 2 ==> OrsFit(path, ors))
    && (|ors| >= 1 ==> OneValueEach(path, own))
  }

  ghost predicate TermFine(config: Config, path: seq<string>, e: Element)
    decreases e
  {
    if IsOr(e) then forall c :: c in e.children ==> TermFine(config, path + [e.name], c)
    else if IsAnd(e) then
      OrsAreNodes(e.children);
      AndFine(config, path + [e.name], e.children)
    else LeavesFine(config, path, [e])
  }

  lemma {:induction false} OrsAreNodes(es: seq<Element>)
    ensures forall o :: o in OrElements(es) ==> IsOr(o) && o in es
  {
    if es != [] {
      OrsAreNodes(es[..|es| - 1]);
    }
  }

  // ---------- one scope ----------

  // What one call has noted after reading the elements.
  ghost predicate Noted(config: Config, path: seq<string>, es: seq<Element>, scope: Scope) {
    && (forall name :: name in config ==> scope.names[name] == Occurrences(path, es, name))
    && (forall name :: name in scope.forbidden <==>
          exists j :: 0 <= j < |es| && es[j].Parameter? && ParamName(path, es[j].localName) in config
                      && name in Lowered(config[ParamName(path, es[j].localName)].conflictsWith))
  }

  // Whether the next element may stand behind those noted.
  ghost predicate NextFine(config: Config, path: seq<string>, e: Element, scope: Scope) {
    if e.Parameter? && ParamName(path, e.localName) in config then
      var name := ParamName(path, e.localName);
      e.withinLimits && scope.names[name] + 1 <= config[name].maxOccurs && name !in scope.forbidden
    else BelowFine(config, path, e)
  }

  lemma {:induction false} OccurrencesGrow(path: seq<string>, es: seq<Element>, n: nat, name: Text)
    requires n <= |es|
    ensures Occurrences(path, es[..n], name) <= Occurrences(path, es, name)
    decreases |es|
  {
    if n == |es| {
      assert es[..n] == es;
    } else {
      var init := es[..|es| - 1];
      OccurrencesGrow(path, init, n, name);
      assert init[..n] == es[..n];
    }
  }

  lemma OccurrencesMore(path: seq<string>, init: seq<Element>, e: Element, name: Text)
    ensures Occurrences(path, init + [e], name) ==
            Occurrences(path, init, name) + if e.Parameter? && ParamName(path, e.localName) == name then 1 else 0
  {
    assert (init + [e])[..|init|] == init;
  }

  lemma ScopeByLast(config: Config, path: seq<string>, init: seq<Element>, e: Element, scope: Scope)
    requires Noted(config, path, init, scope) && (e.Parameter? ==> ParamName(path, e.localName) in config)
    ensures ScopeFine(config, path, init + [e]) <==>
            ScopeFine(config, path, init) && (e.Parameter? ==> NextFine(config, path, e, scope))
  {
    hide ParamName, Lowered, Occurrences;
    var es := init + [e];
    assert es[|init|] == e && forall i :: 0 <= i < |init| ==> es[i] == init[i];
    forall name ensures Occurrences(path, es, name) ==
      Occurrences(path, init, name) + if e.Parameter? && ParamName(path, e.localName) == name then 1 else 0
    {
      OccurrencesMore(path, init, e, name);
    }
  }

  lemma NotedMore(config: Config, path: seq<string>, init: seq<Element>, e: Element, scope: Scope, scope': Scope)
    requires Noted(config, path, init, scope)
    requires e.Parameter? ==> ParamName(path, e.localName) in config
    requires if e.Parameter? then
               var name := ParamName(path, e.localName);
               scope' == Scope(scope.names + multiset{name}, scope.forbidden + Lowered(config[name].conflictsWith))
             else scope' == scope
    ensures Noted(config, path, init + [e], scope')
  {
    hide ParamName, Lowered, Occurrences;
    var es := init + [e];
    assert es[|init|] == e && forall i :: 0 <= i < |init| ==> es[i] == init[i];
    forall name ensures Occurrences(path, es, name) ==
      Occurrences(path, init, name) + if e.Parameter? && ParamName(path, e.localName) == name then 1 else 0
    {
      OccurrencesMore(path, init, e, name);
    }
  }

  // ---------- reading accepts exactly what is fine ----------

  lemma {:induction false} ReadExactly(config: Config, path: seq<string>, e: Element, scope: Scope, q: Content)
    requires IsLeaf(config, path, e)
    ensures Read(config, path, e, scope, q).Some? <==> NextFine(config, path, e, scope)
    ensures Read(config, path, e, scope, q).Some? ==>
      var scope' := Read(config, path, e, scope, q).value.0;
      if e.Parameter? then
        var name := ParamName(path, e.localName);
        scope' == Scope(scope.names + multiset{name}, scope.forbidden + Lowered(config[name].conflictsWith))
      else scope' == scope
    decreases e, 0
  {
    hide ParamName, Lowered;
    if e.Node? && e.name != "fes:not" {
      ReadAllExactly(config, path + [e.name], e.children, q);
    }
  }

  lemma {:induction false} ReadAllExactly(config: Config, path: seq<string>, es: seq<Element>, q: Content)
    requires AreLeaves(config, path, es)
    ensures ReadAll(config, path, es, NEW_SCOPE, q).Some? <==> LeavesFine(config, path, es)
    ensures ReadAll(config, path, es, NEW_SCOPE, q).Some? ==>
      Noted(config, path, es, ReadAll(config, path, es, NEW_SCOPE, q).value.0)
    decreases es, 1
  {
    hide Read, IsLeaf, ParamName, BelowFine, Lowered;
    if es != [] {
      var init, e := es[..|es| - 1], es[|es| - 1];
      assert es == init + [e];
      ReadAllExactly(config, path, init, q);
      LeafParameter(config, path, e);
      if LeavesFine(config, path, init) {
        var (scope, q') := ReadAll(config, path, init, NEW_SCOPE, q).value;
        ReadExactly(config, path, e, scope, q');
        ScopeByLast(config, path, init, e, scope);
        if Read(config, path, e, scope, q').Some? {
          NotedMore(config, path, init, e, scope, Read(config, path, e, scope, q').value.0);
        }
        ParameterHasNoneBelow(config, path, e);
        assert forall c :: c in es <==> c in init || c == e;
      } else if LeavesFine(config, path, es) {
        InitFine(config, path, es);
      }
    }
  }

  lemma LeafParameter(config: Config, path: seq<string>, e: Element)
    requires IsLeaf(config, path, e)
    ensures e.Parameter? ==> ParamName(path, e.localName) in config
  {
  }

  lemma ParameterHasNoneBelow(config: Config, path: seq<string>, e: Element)
    ensures e.Parameter? ==> BelowFine(config, path, e)
  {
  }

  lemma InitFine(config: Config, path: seq<string>, es: seq<Element>)
    requires es != [] && LeavesFine(config, path, es)
    ensures LeavesFine(config, path, es[..|es| - 1])
  {
    hide ParamName, Lowered, Occurrences, BelowFine;
    var init := es[..|es| - 1];
    forall i | 0 <= i < |init| && init[i].Parameter?
      ensures Occurrences(path, init, ParamName(path, init[i].localName)) <=
              Occurrences(path, es, ParamName(path, init[i].localName))
    {
      OccurrencesGrow(path, es, |init|, ParamName(path, init[i].localName));
    }
    assert forall i :: 0 <= i < |init| ==> init[i] == es[i];
  }

  // ---------- what is read ----------

  ghost predicate Gains(path: seq<string>, q: Content, q': Content, es: seq<Element>) {
    && Sorted(q'.params)
    && (forall key :: ValuesOf(q'.params, key) == ValuesOf(q.params, key) + ValuesBelowAll(path, es, key))
    && q'.conditions == q.conditions + ConditionsBelowAll(es)
  }

  lemma {:induction false} InsertAllValues(m: Multimap<Value>, key: Text, values: seq<Value>, k: Text)
    requires Sorted(m)
    ensures Sorted(InsertAll(m, key, values))
    ensures ValuesOf(InsertAll(m, key, values), k) == ValuesOf(m, k) + if k == key then values else []
  {
    hide Sorted, ValuesOf, Insert;
    if values != [] {
      var n := |values| - 1;
      InsertAllValues(m, key, values[..n], k);
      InsertSorted(InsertAll(m, key, values[..n]), key, values[n]);
      InsertValues(InsertAll(m, key, values[..n]), key, values[n], k);
      assert values == values[..n] + [values[n]];
    }
  }

  lemma OneBelow(path: seq<string>, e: Element, key: Text)
    ensures ValuesBelowAll(path, [e], key) == ValuesBelow(path, e, key)
    ensures ConditionsBelowAll([e]) == ConditionsBelow(e)
  {
    assert [e][..0] == [];
  }

  // Reading a leaf adds its values, each key in document order, and its conditions.
  lemma {:induction false} ReadGains(config: Config, path: seq<string>, e: Element, scope: Scope, q: Content)
    requires IsLeaf(config, path, e) && Sorted(q.params) && Read(config, path, e, scope, q).Some?
    ensures Gains(path, q, Read(config, path, e, scope, q).value.1, [e])
    decreases e, 0
  {
    hide Sorted, ValuesOf, ValuesBelowAll, ConditionsBelowAll, InsertAll, ParamName, Insert;
    var q' := Read(config, path, e, scope, q).value.1;
    forall key ensures ValuesBelowAll(path, [e], key) == ValuesBelow(path, e, key)
                       && ConditionsBelowAll([e]) == ConditionsBelow(e)
    {
      OneBelow(path, e, key);
    }
    OneBelow(path, e, []);
    match e
    case Comparison(condition) =>
    case Parameter(localName, values, _) =>
      forall key
        ensures Sorted(q'.params)
        ensures ValuesOf(q'.params, key) == ValuesOf(q.params, key) + ValuesBelow(path, e, key)
      {
        InsertAllValues(q.params, ParamName(path, localName), values, key);
      }
      InsertAllValues(q.params, ParamName(path, localName), values, []);
    case Node(name, children) =>
      ReadAllGains(config, path + [name], children, NEW_SCOPE, q);
  }

  lemma GainsMore(path: seq<string>, q: Content, q': Content, q'': Content, es: seq<Element>)
    requires es != [] && Gains(path, q, q', es[..|es| - 1]) && Gains(path, q', q'', [es[|es| - 1]])
    ensures Gains(path, q, q'', es)
  {
    hide Sorted, ValuesOf, ValuesBelow, ConditionsBelow;
    var e := es[|es| - 1];
    forall key
      ensures ValuesOf(q''.params, key) == ValuesOf(q.params, key) + ValuesBelowAll(path, es, key)
    {
      OneBelow(path, e, key);
      hide ValuesBelowAll;
      Regroup(ValuesOf(q.params, key), ValuesBelowAll(path, es[..|es| - 1], key), ValuesBelow(path, e, key));
    }
    OneBelow(path, e, []);
    Regroup(q.conditions, ConditionsBelowAll(es[..|es| - 1]), ConditionsBelow(e));
  }

  lemma {:induction false} ReadAllGains(config: Config, path: seq<string>, es: seq<Element>, scope: Scope, q: Content)
    requires AreLeaves(config, path, es) && Sorted(q.params) && ReadAll(config, path, es, scope, q).Some?
    ensures Gains(path, q, ReadAll(config, path, es, scope, q).value.1, es)
    decreases es, 1
  {
    hide Sorted, ValuesOf, Read, IsLeaf, ValuesBelowAll, ConditionsBelowAll;
    if es == [] {
      GainsNothing(path, q);
    } else {
      var n := |es| - 1;
      ReadAllGains(config, path, es[..n], scope, q);
      var (scope', q') := ReadAll(config, path, es[..n], scope, q).value;
      ReadGains(config, path, es[n], scope', q');
      GainsMore(path, q, q', Read(config, path, es[n], scope', q').value.1, es);
    }
  }

  lemma GainsNothing(path: seq<string>, q: Content)
    requires Sorted(q.params)
    ensures Gains(path, q, q, [])
  {
    hide ValuesOf, Sorted;
    forall key ensures ValuesOf(q.params, key) + ValuesBelowAll(path, [], key) == ValuesOf(q.params, key) {
      assert ValuesBelowAll(path, [], key) == [];
    }
  }

  // ---------- one value for each parameter ----------

  ghost predicate NoneTwice(m: Multimap<Value>) {
    forall k :: |ValuesOf(m, k)| <= 1
  }

  lemma SingleExactly(m: Multimap<Value>)
    ensures SingleValued(m) <==> NoneTwice(m)
  {
    hide ValuesOf;
    if NoneTwice(m) {
      SingleByCount(m);
    } else {
      var k :| |ValuesOf(m, k)| > 1;
      if SingleValued(m) {
        AtMostOne(m, k);
        assert false;
      }
    }
  }

  lemma NoValuesOf(key: Text)
    ensures ValuesOf(NOTHING.params, key) == []
  {
  }

  lemma GainsFromNothing(path: seq<string>, q: Content, es: seq<Element>)
    requires Gains(path, NOTHING, q, es)
    ensures SingleValued(q.params) <==> OneValueEach(path, es)
    ensures forall key :: key in KeysIn(q.params) <==> ValuesBelowAll(path, es, key) != []
  {
    hide ValuesBelowAll, ValuesOf, KeysIn, Sorted, SingleValued;
    SingleExactly(q.params);
    forall key ensures ValuesOf(q.params, key) == ValuesBelowAll(path, es, key)
                       && (key in KeysIn(q.params) <==> |ValuesOf(q.params, key)| > 0)
    {
      NoValuesOf(key);
      HasKey(q.params, key);
    }
  }

  // ---------- fes:And ----------

  lemma {:induction false} OwnIsAll(config: Config, path: seq<string>, es: seq<Element>)
    ensures ReadOwn(config, path, es) == ReadAll(config, path, OwnLeaves(es), NEW_SCOPE, NOTHING)
  {
    hide Read;
    if es != [] {
      var init, e := es[..|es| - 1], es[|es| - 1];
      OwnIsAll(config, path, init);
      if IsOr(e) {
        assert OwnLeaves(es) == OwnLeaves(init);
        if ReadOwn(config, path, init).Some? {
          var (scope, q) := ReadOwn(config, path, init).value;
          assert ReadOwn(config, path, es) == Some((scope, q));
        }
      } else {
        assert (OwnLeaves(init) + [e])[..|OwnLeaves(init)|] == OwnLeaves(init);
      }
    }
  }

  lemma {:induction false} OwnAreLeaves(config: Config, path: seq<string>, es: seq<Element>)
    requires AreConjuncts(config, path, es)
    ensures AreLeaves(config, path, OwnLeaves(es))
  {
    if es != [] {
      var e := es[|es| - 1];
      OwnAreLeaves(config, path, es[..|es| - 1]);
      assert IsConjunct(config, path, e);
    }
  }

  // A branch read on its own.
  ghost predicate IsBranch(path: seq<string>, q: Content, e: Element) {
    Gains(path, NOTHING, q, [e])
  }

  lemma NothingSorted()
    ensures Sorted(NOTHING.params)
  {
  }

  lemma BranchExactly(config: Config, path: seq<string>, e: Element)
    requires IsLeaf(config, path, e)
    ensures Read(config, path, e, NEW_SCOPE, NOTHING).Some? <==> LeavesFine(config, path, [e])
    ensures Read(config, path, e, NEW_SCOPE, NOTHING).Some? ==>
      IsBranch(path, Read(config, path, e, NEW_SCOPE, NOTHING).value.1, e)
  {
    hide Read, LeavesFine, Gains;
    ReadAllExactly(config, path, [e], NOTHING);
    assert [e][..0] == [];
    if Read(config, path, e, NEW_SCOPE, NOTHING).Some? {
      NothingSorted();
      ReadGains(config, path, e, NEW_SCOPE, NOTHING);
    }
  }

  lemma {:induction false} EachExactly(config: Config, path: seq<string>, es: seq<Element>)
    requires AreLeaves(config, path, es)
    ensures ReadEach(config, path, es).Some? <==> forall c :: c in es ==> LeavesFine(config, path, [c])
    ensures ReadEach(config, path, es).Some? ==>
      var qs := ReadEach(config, path, es).value;
      |qs| == |es| && forall i :: 0 <= i < |es| ==> IsBranch(path, qs[i], es[i])
  {
    hide Read, IsLeaf, LeavesFine, IsBranch;
    if es != [] {
      var init, e := es[..|es| - 1], es[|es| - 1];
      EachExactly(config, path, init);
      BranchExactly(config, path, e);
      assert forall c :: c in es <==> c in init || c == e;
    }
  }

  // The queries of a fes:Or inside fes:And.
  ghost predicate IsSet(path: seq<string>, qs: seq<Content>, or: Element)
    requires or.Node?
  {
    |qs| == |or.children| && forall i :: 0 <= i < |qs| ==> IsBranch(path + [or.name], qs[i], or.children[i])
  }

  lemma {:induction false} SetsExactly(config: Config, path: seq<string>, es: seq<Element>)
    requires AreConjuncts(config, path, es)
    ensures forall o :: o in OrElements(es) ==> o.Node?
    ensures OrSets(config, path, es).Some? <==>
            forall i, c :: 0 <= i < |OrElements(es)| && c in OrElements(es)[i].children ==>
              LeavesFine(config, path + [OrElements(es)[i].name], [c])
    ensures OrSets(config, path, es).Some? ==>
      var sets := OrSets(config, path, es).value;
      |sets| == |OrElements(es)| && forall i :: 0 <= i < |sets| ==> IsSet(path, sets[i], OrElements(es)[i])
  {
    hide ReadEach, IsLeaf, LeavesFine, IsBranch;
    OrsAreNodes(es);
    if es != [] {
      var init, e := es[..|es| - 1], es[|es| - 1];
      SetsExactly(config, path, init);
      OrsAreNodes(init);
      assert IsConjunct(config, path, e);
      if IsOr(e) {
        EachExactly(config, path + [e.name], e.children);
        var ors := OrElements(init);
        assert OrElements(es) == ors + [e] && OrElements(es)[|ors|] == e;
        assert forall i :: 0 <= i < |ors| ==> OrElements(es)[i] == ors[i];
      } else {
        assert OrElements(es) == OrElements(init);
      }
    }
  }

  lemma {:induction false} KeysOfAll(qs: seq<Content>, key: Text)
    ensures key in KeysOf(qs) <==> exists i :: 0 <= i < |qs| && key in KeysIn(qs[i].params)
  {
    hide KeysIn;
    if qs != [] {
      KeysOfAll(qs[..|qs| - 1], key);
    }
  }

  lemma SetFits(path: seq<string>, qs: seq<Content>, or: Element)
    requires or.Node? && IsSet(path, qs, or)
    ensures AllSingleValued(qs) <==> forall c :: c in or.children ==> OneValueEach(path + [or.name], [c])
    ensures forall key :: key in KeysOf(qs) <==> Mentions(path, or, key)
  {
    hide SingleValued, KeysIn, KeysOf, OneValueEach, ValuesBelow, ValuesBelowAll, Gains;
    forall i | 0 <= i < |qs|
      ensures SingleValued(qs[i].params) <==> OneValueEach(path + [or.name], [or.children[i]])
      ensures forall key :: key in KeysIn(qs[i].params) <==> ValuesBelow(path + [or.name], or.children[i], key) != []
    {
      GainsFromNothing(path + [or.name], qs[i], [or.children[i]]);
      forall key ensures ValuesBelowAll(path + [or.name], [or.children[i]], key) ==
                         ValuesBelow(path + [or.name], or.children[i], key)
      {
        OneBelow(path + [or.name], or.children[i], key);
      }
    }
    forall key ensures key in KeysOf(qs) <==> Mentions(path, or, key) {
      KeysOfAll(qs, key);
      if c :| c in or.children && ValuesBelow(path + [or.name], c, key) != [] {
        var i :| 0 <= i < |or.children| && or.children[i] == c;
        assert key in KeysIn(qs[i].params);
      }
    }
  }

  lemma SetsFit(path: seq<string>, sets: seq<seq<Content>>, ors: seq<Element>)
    requires |sets| == |ors| >= 2 && NonEmptyUsed(sets) && forall o :: o in ors ==> o.Node?
    requires forall i :: 0 <= i < |sets| ==> IsSet(path, sets[i], ors[i])
    ensures Combinable(sets) <==> OrsFit(path, ors)
  {
    hide AllSingleValued, KeysOf, OneValueEach, Mentions, Combinable, NonEmptyUsed, IsSet;
    CombinableExactly(sets);
    forall i | 0 <= i < |sets|
      ensures AllSingleValued(sets[i]) <==> forall c :: c in ors[i].children ==> OneValueEach(path + [ors[i].name], [c])
      ensures forall key :: key in KeysOf(sets[i]) <==> Mentions(path, ors[i], key)
    {
      SetFits(path, sets[i], ors[i]);
    }
    var init := sets[..|sets| - 1];
    assert forall i :: 0 <= i < |init| ==> init[i] == sets[i];
  }

  lemma AndExactly(config: Config, path: seq<string>, es: seq<Element>)
    requires AreConjuncts(config, path, es)
    ensures forall o :: o in OrElements(es) ==> o.Node?
    ensures AndFine(config, path, es) <==>
            && ReadOwn(config, path, es).Some? && OrSets(config, path, es).Some?
            && Finish(ReadOwn(config, path, es).value.1, OrSets(config, path, es).value).Some?
  {
    hide ReadAll, LeavesFine, IsSet, Product, Combinable, SingleValued, NonEmptyUsed, Gains, OrsFit, OneValueEach;
    var own, ors := OwnLeaves(es), OrElements(es);
    OwnIsAll(config, path, es);
    OwnAreLeaves(config, path, es);
    ReadAllExactly(config, path, own, NOTHING);
    SetsExactly(config, path, es);
    if ReadOwn(config, path, es).Some? && OrSets(config, path, es).Some? {
      var base, sets := ReadOwn(config, path, es).value.1, OrSets(config, path, es).value;
      NothingSorted();
      ReadAllGains(config, path, own, NEW_SCOPE, NOTHING);
      GainsFromNothing(path, base, own);
      UnusedIsSingle(base);
      if |sets| >= 2 {
        OrSetsUsed(config, path, es);
        SetsFit(path, sets, ors);
      }
    }
  }

  lemma UnusedIsSingle(q: Content)
    ensures !Used(q) ==> SingleValued(q.params)
  {
  }

  // ---------- whole filters ----------

  // A filter of the fragment is accepted exactly when it is fine.
  lemma {:induction false} CompileExactly(config: Config, path: seq<string>, e: Element)
    requires IsTerm(config, path, e)
    ensures Compile(config, path, e).Some? <==> TermFine(config, path, e)
    decreases e, 0
  {
    hide ReadAll, Read, Finish, ReadOwn, OrSets, AndFine, LeavesFine, CompileAll, IsLeaf, AreConjuncts, IsBranch;
    if IsOr(e) {
      CompileAllExactly(config, path + [e.name], e.children);
    } else if IsAnd(e) {
      AndExactly(config, path + [e.name], e.children);
    } else {
      BranchExactly(config, path, e);
    }
  }

  lemma {:induction false} CompileAllExactly(config: Config, path: seq<string>, es: seq<Element>)
    requires AreTerms(config, path, es)
    ensures CompileAll(config, path, es).Some? <==> forall c :: c in es ==> TermFine(config, path, c)
    decreases es, 1
  {
    hide TermFine, Compile, IsTerm;
    if es != [] {
      var init, e := es[..|es| - 1], es[|es| - 1];
      CompileAllExactly(config, path, init);
      CompileExactly(config, path, e);
      assert forall c :: c in es <==> c in init || c == e;
    }
  }

  // ---------- time periods ----------

  // Inside the time period of fes:During the positions of begin and end are the parameters starttime and
  // endtime; everywhere else an element is the parameter of its own name.
  lemma PeriodNames(path: seq<string>, localName: Text)
    requires path != []
    ensures ParamName(path + ["fes:during", "gml:timeperiod", "gml:begin", "gml:timeinstant"], "timeposition") ==
            "starttime"
    ensures ParamName(path + ["fes:during", "gml:timeperiod", "gml:end", "gml:timeinstant"], "timeposition") ==
            "endtime"
    ensures localName != "timeposition" ==> ParamName(path, localName) == localName
    ensures ParamName(path, localName) != localName ==>
      exists outer, end :: outer != [] && path == outer + ["fes:during", "gml:timeperiod", end, "gml:timeinstant"]
                           && (end == "gml:begin" || end == "gml:end")
  {
    if ParamName(path, localName) != localName {
      var n := |path|;
      assert path == path[..n - 4] + ["fes:during", "gml:timeperiod", path[n - 2], "gml:timeinstant"];
    }
  }
}
