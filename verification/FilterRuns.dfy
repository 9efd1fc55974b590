/** What one call of extract_filter_elements does, by the place it is called for. */
module FilterRuns {
  import opened Wrappers
  import opened Sequences
  import opened Filters
  import opened FilterDnf

  // The places of the fragment: below a wrapper, in fes:And, in fes:Or inside fes:And, and where a
  // whole term may stand (fes:Filter, and fes:Or outside fes:And).
  datatype Place = Leaves | Conjuncts | Alternatives | Terms

  // The list of queries, the starts of the fes:Or sets, and the local variables of the call.
  datatype State = State(views: seq<Content>, indexes: seq<nat>, scope: Scope, first: bool)

  function Last(path: seq<string>): string {
    if path == [] then "" else path[|path| - 1]
  }

  // The elements a place takes.
  predicate Fits(config: Config, place: Place, path: seq<string>, e: Element) {
    match place
    case Leaves => IsLeaf(config, path, e)
    case Conjuncts => IsConjunct(config, path, e)
    case Alternatives => IsLeaf(config, path, e)
    case Terms => IsTerm(config, path, e)
  }

  predicate AllFit(config: Config, place: Place, path: seq<string>, es: seq<Element>) {
    forall e :: e in es ==> Fits(config, place, path, e)
  }

  // Where a place may stand, and what is known there before an element is read.
  predicate Ready(place: Place, path: seq<string>, s: State, t: nat) {
    && t < |s.views|
    && path != []
    && match place
       case Leaves => Last(path) != "fes:or"
       case Conjuncts => Last(path) == "fes:and" && (t == |s.views| - 1 || Used(s.views[|s.views| - 1]))
       case Alternatives =>
         && |path| >= 2 && Last(path) == "fes:or" && path[|path| - 2] == "fes:and"
         && (t == |s.views| - 1 || Used(s.views[|s.views| - 1]))
       case Terms =>
         && Last(path) != "fes:and"
         && (Last(path) == "fes:or" ==> |path| >= 2 && path[|path| - 2] != "fes:and")
         && (Used(s.views[|s.views| - 1]) ==> Last(path) == "fes:or")
         && (!Used(s.views[|s.views| - 1]) ==> s.scope == NEW_SCOPE)
         && s.indexes == []
  }

  // The list without a last query that nothing has been read into yet.
  function Finished(views: seq<Content>): seq<Content> {
    if views == [] || Used(views[|views| - 1]) then views else views[..|views| - 1]
  }

  // Reading one element; t is the index of the query that fes:And, or a wrapper, reads into.
  function Step(config: Config, place: Place, path: seq<string>, e: Element, s: State, t: nat): Option<State>
    requires t < |s.views|
  {
    match place
    case Leaves =>
      var (scope, q) :- Read(config, path, e, s.scope, s.views[t]);
      Some(s.(views := s.views[t := q], scope := scope))
    case Conjuncts =>
      if IsOr(e) then
        var branches :- ReadEach(config, path + [e.name], e.children);
        Some(s.(views := s.views + branches, indexes := s.indexes + [|s.views|]))
      else
        var (scope, q) :- Read(config, path, e, s.scope, s.views[t]);
        Some(s.(views := s.views[t := q], scope := scope))
    case Alternatives =>
      var (scope, q) :- Read(config, path, e, NEW_SCOPE, NOTHING);
      Some(State(s.views + [q], if s.first then s.indexes + [|s.views|] else s.indexes, scope, false))
    case Terms =>
      var qs :- Compile(config, path, e);
      var scope := if IsAnd(e) || IsOr(e) then NEW_SCOPE else Read(config, path, e, NEW_SCOPE, NOTHING).Extract().0;
      Some(s.(views := Finished(s.views) + qs, scope := scope))
  }

  function Run(config: Config, place: Place, path: seq<string>, es: seq<Element>, s: State, t: nat): (r: Option<State>)
    requires t < |s.views|
  {
    if es == [] then Some(s)
    else
      var s' :- Run(config, place, path, es[..|es| - 1], s, t);
      if t < |s'.views| then Step(config, place, path, es[|es| - 1], s', t) else None
  }

  // ---------- sets of queries ----------

  // The queries of all sets, one set after the other.
  function Flat(sets: seq<seq<Content>>): seq<Content> {
    if sets == [] then [] else Flat(sets[..|sets| - 1]) + sets[|sets| - 1]
  }

  // Where each set starts, the first one at the given index.
  function Starts(from: nat, sets: seq<seq<Content>>): (r: seq<nat>)
    ensures |r| == |sets|
  {
    if sets == [] then []
    else
      var init := sets[..|sets| - 1];
      Starts(from, init) + [from + |Flat(init)|]
  }

  predicate NonEmptyUsed(sets: seq<seq<Content>>) {
    forall k :: 0 <= k < |sets| ==> sets[k] != [] && forall i :: 0 <= i < |sets[k]| ==> Used(sets[k][i])
  }

  lemma {:induction false} SetsAt(from: nat, sets: seq<seq<Content>>, k: nat)
    requires k < |sets|
    ensures Starts(from, sets)[k] == from + |Flat(sets[..k])|
    ensures |Flat(sets[..k])| + |sets[k]| == |Flat(sets[..k + 1])| <= |Flat(sets)|
    ensures forall i :: 0 <= i < |sets[k]| ==> Flat(sets)[|Flat(sets[..k])| + i] == sets[k][i]
  {
    var n := |sets| - 1;
    if k == n {
      assert sets[..n + 1] == sets;
    } else {
      SetsAt(from, sets[..n], k);
      assert sets[..n][..k] == sets[..k] && sets[..n][..k + 1] == sets[..k + 1];
    }
  }

  lemma {:induction false} CrossNonEmpty(a: seq<Content>, b: seq<Content>)
    requires b != []
    ensures a != [] ==> Cross(a, b) != []
  {
  }

  lemma ProductNonEmpty(sets: seq<seq<Content>>)
    requires NonEmptyUsed(sets) && sets != []
    ensures Product(sets) != []
  {
    if |sets| == 2 {
      CrossNonEmpty(sets[0], sets[1]);
    } else if |sets| > 2 {
      ProductNonEmpty(sets[..|sets| - 1]);
      CrossNonEmpty(sets[|sets| - 1], Product(sets[..|sets| - 1]));
    }
  }

  // ---------- whole calls ----------

  lemma {:induction false} RunLeaves(config: Config, path: seq<string>, es: seq<Element>, s: State, t: nat)
    requires t < |s.views|
    ensures Run(config, Leaves, path, es, s, t) ==
            match ReadAll(config, path, es, s.scope, s.views[t])
            case None => None
            case Some((scope, q)) => Some(s.(views := s.views[t := q], scope := scope))
  {
    if es == [] {
      assert s.views[t := s.views[t]] == s.views;
    } else {
      RunLeaves(config, path, es[..|es| - 1], s, t);
      var before := ReadAll(config, path, es[..|es| - 1], s.scope, s.views[t]);
      var after := ReadAll(config, path, es, s.scope, s.views[t]);
      if after.Some? {
        assert s.views[t := before.value.1][t := after.value.1] == s.views[t := after.value.1];
      }
    }
  }

  lemma {:induction false} RunAlternatives(config: Config, path: seq<string>, es: seq<Element>, s: State, t: nat)
    requires t < |s.views| && s.first
    ensures var r := Run(config, Alternatives, path, es, s, t);
      match ReadEach(config, path, es)
      case None => r.None?
      case Some(qs) =>
        && r.Some? && r.value.views == s.views + qs
        && r.value.indexes == (if es == [] then s.indexes else s.indexes + [|s.views|])
        && (r.value.first <==> es == [])
  {
    if es == [] {
      assert s.views + [] == s.views;
    } else {
      RunAlternatives(config, path, es[..|es| - 1], s, t);
      if ReadEach(config, path, es).Some? {
        var qs := ReadEach(config, path, es[..|es| - 1]).value;
        var q := Read(config, path, es[|es| - 1], NEW_SCOPE, NOTHING).value.1;
        assert s.views + qs + [q] == s.views + (qs + [q]);
        if |es| > 1 {
          assert es[..|es| - 1] != [];
        }
      }
    }
  }

  // What fes:Or elements of leaves yield is never empty.
  lemma {:induction false} OrSetsUsed(config: Config, path: seq<string>, es: seq<Element>)
    requires AreConjuncts(config, path, es) && OrSets(config, path, es).Some?
    ensures NonEmptyUsed(OrSets(config, path, es).value)
  {
    if es != [] {
      var e := es[|es| - 1];
      OrSetsUsed(config, path, es[..|es| - 1]);
      assert IsConjunct(config, path, e);
      if IsOr(e) {
        ReadEachDnf(config, path + [e.name], e.children);
      }
    }
  }

  lemma UpdateInFront<T>(a: seq<T>, b: seq<T>, i: nat, x: T, y: T)
    requires i < |a|
    ensures (a[i := x] + b)[i := y] == a[i := y] + b && (a[i := x] + b)[i] == x
  {
  }

  lemma NoSets(from: nat)
    ensures Flat([]) == [] && Starts(from, []) == []
  {
  }

  lemma OneMoreSet(sets: seq<seq<Content>>, last: seq<Content>, from: nat)
    ensures Flat(sets + [last]) == Flat(sets) + last
    ensures Starts(from, sets + [last]) == Starts(from, sets) + [from + |Flat(sets)|]
  {
    assert (sets + [last])[..|sets|] == sets;
  }

  lemma {:induction false} RunConjuncts(config: Config, path: seq<string>, es: seq<Element>, s: State)
    requires s.views != [] && s.views[|s.views| - 1] == NOTHING && s.scope == NEW_SCOPE && s.indexes == []
    ensures var t := |s.views| - 1;
      var r := Run(config, Conjuncts, path, es, s, t);
      && (r.Some? <==> ReadOwn(config, path, es).Some? && OrSets(config, path, es).Some?)
      && (r.Some? ==>
          var (scope, base) := ReadOwn(config, path, es).value;
          var sets := OrSets(config, path, es).value;
          && r.value.views == s.views[t := base] + Flat(sets)
          && r.value.indexes == Starts(|s.views|, sets)
          && r.value.scope == scope)
  {
    hide Read, ReadEach, Starts, Flat;
    var t := |s.views| - 1;
    NoSets(|s.views|);
    if es == [] {
      assert s.views[t := NOTHING] + [] == s.views;
    } else {
      var init, e := es[..|es| - 1], es[|es| - 1];
      RunConjuncts(config, path, init, s);
      if Run(config, Conjuncts, path, init, s, t).Some? {
        var (scope, base) := ReadOwn(config, path, init).value;
        var sets := OrSets(config, path, init).value;
        if IsOr(e) {
          var more := ReadEach(config, path + [e.name], e.children);
          if more.Some? {
            OneMoreSet(sets, more.value, |s.views|);
            Regroup(s.views[t := base], Flat(sets), more.value);
          }
        } else {
          var more := Read(config, path, e, scope, base);
          if more.Some? {
            UpdateInFront(s.views, Flat(sets), t, base, more.value.1);
          }
        }
      }
    }
  }

  lemma {:induction false} CrossUsed(a: seq<Content>, b: seq<Content>)
    requires forall q :: q in a ==> Used(q)
    ensures forall q :: q in Cross(a, b) ==> Used(q)
  {
    if a != [] {
      var n := |a| - 1;
      CrossUsed(a[..n], b);
      forall i | 0 <= i < |b| ensures Used(Row(a[n], b)[i]) {
        RowAt(a[n], b, i);
        MergeUsed(a[n], NOTHING);
        MergeUsed(b[i], Merge(a[n], NOTHING));
      }
    }
  }

  lemma ProductUsed(sets: seq<seq<Content>>)
    requires NonEmptyUsed(sets) && sets != []
    ensures forall q :: q in Product(sets) ==> Used(q)
  {
    var last := sets[if |sets| == 2 then 0 else |sets| - 1];
    assert forall q :: q in last ==> Used(q);
    if |sets| == 2 {
      CrossUsed(last, sets[1]);
    } else if |sets| > 2 {
      CrossUsed(last, Product(sets[..|sets| - 1]));
    }
  }

  // Every query compiled from a term demands something, and there is at least one.
  lemma {:induction false} CompileUsed(config: Config, path: seq<string>, e: Element)
    requires IsTerm(config, path, e) && Compile(config, path, e).Some?
    ensures Compile(config, path, e).value != []
    ensures forall q :: q in Compile(config, path, e).value ==> Used(q)
    decreases e, 0
  {
    if IsOr(e) {
      CompileAllUsed(config, path + [e.name], e.children);
    } else if IsAnd(e) {
      var path' := path + [e.name];
      var base, sets := ReadOwn(config, path', e.children).value.1, OrSets(config, path', e.children).value;
      OwnUsed(config, path', e.children);
      OrSetsUsed(config, path', e.children);
      if sets != [] {
        ProductNonEmpty(sets);
        ProductUsed(sets);
        forall q | q in Product(sets) ensures Used(Merge(base, q)) {
          MergeUsed(base, q);
        }
      }
    } else {
      ReadAtoms(config, path, e, NEW_SCOPE, NOTHING);
    }
  }

  lemma {:induction false} CompileAllUsed(config: Config, path: seq<string>, es: seq<Element>)
    requires AreTerms(config, path, es) && CompileAll(config, path, es).Some?
    ensures es != [] ==> CompileAll(config, path, es).value != []
    ensures forall q :: q in CompileAll(config, path, es).value ==> Used(q)
    decreases es, 1
  {
    if es != [] {
      CompileAllUsed(config, path, es[..|es| - 1]);
      CompileUsed(config, path, es[|es| - 1]);
    }
  }

  lemma {:induction false} RunTerms(config: Config, path: seq<string>, es: seq<Element>, s: State, t: nat)
    requires t < |s.views| && AreTerms(config, path, es)
    requires t == |s.views| - 1 && !Used(s.views[t])
    ensures var r := Run(config, Terms, path, es, s, t);
      match CompileAll(config, path, es)
      case None => r.None?
      case Some(qs) =>
        && r.Some? && r.value.indexes == s.indexes
        && r.value.views == (if es == [] then s.views else s.views[..t] + qs)
        && (es != [] ==> r.value.views != [] && Used(r.value.views[|r.value.views| - 1]))
  {
    if es != [] {
      var init, e := es[..|es| - 1], es[|es| - 1];
      RunTerms(config, path, init, s, t);
      if CompileAll(config, path, init).Some? && Compile(config, path, e).Some? {
        var qs, more := CompileAll(config, path, init).value, Compile(config, path, e).value;
        assert IsTerm(config, path, e);
        CompileUsed(config, path, e);
        CompileAllUsed(config, path, init);
        Regroup(s.views[..t], qs, more);
        if init == [] {
          assert qs + more == more;
        }
      }
    }
  }

  // ---------- one element ----------

  // What the children of a logical operator or wrapper do, once the list ends with the query to read into.
  function Group(config: Config, path: seq<string>, e: Element, p: seq<Content>, indexes: seq<nat>, t: nat)
    : Option<(seq<Content>, seq<nat>)>
    requires e.Node? && t < |p|
  {
    if IsOr(e) && Last(path) == "fes:and" then
      var branches :- ReadEach(config, path + [e.name], e.children);
      Some((p + branches, indexes + [|p|]))
    else if IsOr(e) || IsAnd(e) then
      var qs :- Compile(config, path, e);
      Some((p[..|p| - 1] + qs, indexes))
    else
      var (_, q) :- Read(config, path, e, NEW_SCOPE, p[t]);
      Some((p[t := q], indexes))
  }

  predicate GroupReady(place: Place, path: seq<string>, p: seq<Content>, indexes: seq<nat>, t: nat) {
    && t < |p|
    && path != []
    && match place
       case Leaves => Last(path) != "fes:or"
       case Conjuncts => Last(path) == "fes:and" && (t == |p| - 1 || Used(p[|p| - 1]))
       case Alternatives => Last(path) == "fes:or"
       case Terms => Last(path) != "fes:and" && t == |p| - 1 && p[t] == NOTHING && indexes == []
  }

  // The place of the children of an element.
  function Inner(place: Place, e: Element): Place {
    if IsAnd(e) then Conjuncts
    else if !IsOr(e) then Leaves
    else if place == Conjuncts then Alternatives
    else Terms
  }

  lemma InnerReady(config: Config, place: Place, path: seq<string>, e: Element, p: seq<Content>, indexes: seq<nat>,
                   t: nat)
    requires e.Node? && !IsNot(e) && Fits(config, place, path, e) && GroupReady(place, path, p, indexes, t)
    ensures Ready(Inner(place, e), path + [e.name], State(p, indexes, NEW_SCOPE, true), t)
    ensures AllFit(config, Inner(place, e), path + [e.name], e.children)
    ensures IsAnd(e) ==> place == Terms
    ensures IsOr(e) ==> place == Terms || place == Conjuncts
    ensures Inner(place, e) == Terms ==> place == Terms && IsOr(e)
  {
    var path' := path + [e.name];
    assert Last(path') == e.name && path'[|path'| - 2] == Last(path);
  }

  lemma InnerRun(config: Config, place: Place, path: seq<string>, e: Element, p: seq<Content>, indexes: seq<nat>,
                 t: nat)
    requires e.Node? && !IsNot(e) && Fits(config, place, path, e) && GroupReady(place, path, p, indexes, t)
    requires !IsAnd(e)
    ensures var r := Run(config, Inner(place, e), path + [e.name], e.children, State(p, indexes, NEW_SCOPE, true), t);
      var g := Group(config, path, e, p, indexes, t);
      && (r.Some? <==> g.Some?)
      && (r.Some? ==> r.value.views == g.value.0 && r.value.indexes == g.value.1)
  {
    var path', s := path + [e.name], State(p, indexes, NEW_SCOPE, true);
    InnerReady(config, place, path, e, p, indexes, t);
    if !IsOr(e) {
      RunLeaves(config, path', e.children, s, t);
    } else if place == Conjuncts {
      RunAlternatives(config, path', e.children, s, t);
    } else {
      RunTerms(config, path', e.children, s, t);
    }
  }

  lemma AndRun(config: Config, path: seq<string>, e: Element, p: seq<Content>, t: nat)
    requires IsAnd(e) && Fits(config, Terms, path, e) && GroupReady(Terms, path, p, [], t)
    ensures var path' := path + [e.name];
      var r := Run(config, Conjuncts, path', e.children, State(p, [], NEW_SCOPE, true), t);
      var g := Group(config, path, e, p, [], t);
      && (r.None? ==> g.None?)
      && (r.Some? <==> ReadOwn(config, path', e.children).Some? && OrSets(config, path', e.children).Some?)
      && (r.Some? ==>
          && var base, sets := ReadOwn(config, path', e.children).value.1, OrSets(config, path', e.children).value;
          && NonEmptyUsed(sets)
          && r.value.views == p[t := base] + Flat(sets)
          && r.value.indexes == Starts(t + 1, sets)
          && (g.Some? <==> Finish(base, sets).Some?)
          && (g.Some? ==> g.value == (p[..t] + Finish(base, sets).value, [])))
  {
    var path' := path + [e.name];
    InnerReady(config, Terms, path, e, p, [], t);
    RunConjuncts(config, path', e.children, State(p, [], NEW_SCOPE, true));
    if OrSets(config, path', e.children).Some? {
      OrSetsUsed(config, path', e.children);
    }
  }

  predicate NeedsQuery(place: Place, s: State)
    requires s.views != []
  {
    place == Alternatives || (place == Terms && Used(s.views[|s.views| - 1]))
  }

  // The state once the element has a query to be read into.
  function Prepared(place: Place, s: State): State
    requires s.views != []
  {
    if NeedsQuery(place, s) then
      State(s.views + [NOTHING], if place == Alternatives && s.first then s.indexes + [|s.views|] else s.indexes,
            NEW_SCOPE, s.first && place != Alternatives)
    else s
  }

  function TargetIndex(place: Place, s: State, t: nat): nat
    requires s.views != []
  {
    if place == Alternatives || place == Terms then |Prepared(place, s).views| - 1 else t
  }

  lemma PreparedReady(config: Config, place: Place, path: seq<string>, e: Element, s: State, t: nat)
    requires Ready(place, path, s, t) && Fits(config, place, path, e)
    ensures GroupReady(place, path, Prepared(place, s).views, Prepared(place, s).indexes, TargetIndex(place, s, t))
    ensures place == Terms ==> Prepared(place, s).views == Finished(s.views) + [NOTHING]
    ensures place == Terms ==> Prepared(place, s).scope == NEW_SCOPE
  {
    if place == Terms && !NeedsQuery(place, s) {
      assert s.views[|s.views| - 1] == NOTHING;
    }
  }

  // What the program asks before it creates a query and notes its index, and what that comes to.
  lemma PreparedParts(config: Config, place: Place, path: seq<string>, e: Element, s: State, t: nat, backIsUpper: bool)
    requires Ready(place, path, s, t) && Fits(config, place, path, e)
    requires place == Terms ==> !backIsUpper
    requires place == Alternatives && t == |s.views| - 1 ==> backIsUpper
    ensures path != [] && (Last(path) == "fes:or" ==> |path| >= 2)
    ensures place == Alternatives ==> Last(path) == "fes:or"
    ensures place == Leaves || place == Conjuncts ==> Last(path) != "fes:or"
    ensures var created := Last(path) == "fes:or" && (Used(s.views[|s.views| - 1]) || backIsUpper);
      var noted := created && s.first && path[|path| - 2] == "fes:and" && !IsAnd(e) && !IsOr(e);
      && Prepared(place, s) ==
         State(s.views + (if created then [NOTHING] else []), s.indexes + (if noted then [|s.views|] else []),
               if created then NEW_SCOPE else s.scope, s.first && !noted)
      && (if place == Alternatives || place == Terms then TargetIndex(place, s, t) == |Prepared(place, s).views| - 1
          else TargetIndex(place, s, t) == t && !created)
  {
    hide IsLeaf, IsConjunct, IsTerm, Used;
    LeafIsNoOperator(config, place, path, e);
    assert s.views + [] == s.views && s.indexes + [] == s.indexes;
  }

  lemma StepByGroup(config: Config, place: Place, path: seq<string>, e: Element, s: State, t: nat)
    requires Ready(place, path, s, t) && Fits(config, place, path, e)
    requires e.Node? && !IsNot(e)
    ensures GroupReady(place, path, Prepared(place, s).views, Prepared(place, s).indexes, TargetIndex(place, s, t))
    ensures var p := Prepared(place, s);
      var step := Step(config, place, path, e, s, t);
      var group := Group(config, path, e, p.views, p.indexes, TargetIndex(place, s, t));
      && (step.Some? <==> group.Some?)
      && (step.Some? ==> step.value == State(group.value.0, group.value.1, p.scope, p.first))
  {
    PreparedReady(config, place, path, e, s, t);
  }

  lemma StepByRead(config: Config, place: Place, path: seq<string>, e: Element, s: State, t: nat)
    requires Ready(place, path, s, t) && Fits(config, place, path, e)
    requires !e.Node?
    ensures GroupReady(place, path, Prepared(place, s).views, Prepared(place, s).indexes, TargetIndex(place, s, t))
    ensures var p := Prepared(place, s);
      var t' := TargetIndex(place, s, t);
      var step := Step(config, place, path, e, s, t);
      var read := Read(config, path, e, p.scope, p.views[t']);
      && (step.Some? <==> read.Some?)
      && (step.Some? ==> step.value == State(p.views[t' := read.value.1], p.indexes, read.value.0, p.first))
  {
    PreparedReady(config, place, path, e, s, t);
  }

  // A step leaves everything ready for the next element.
  lemma StepReady(config: Config, place: Place, path: seq<string>, e: Element, s: State, t: nat)
    requires Ready(place, path, s, t) && Fits(config, place, path, e)
    requires Step(config, place, path, e, s, t).Some?
    ensures var s' := Step(config, place, path, e, s, t).value;
      && |s'.views| > t
      && (place != Terms || Last(path) == "fes:or" ==> Ready(place, path, s', t))
      && (place != Terms ==> |s'.views| >= |s.views|)
      && (place == Leaves ==> |s'.views| == |s.views|)
      && (place == Terms ==> |s'.views| > 0 && Used(s'.views[|s'.views| - 1]))
      && (place == Terms ==> |Finished(s'.views)| >= |Finished(s.views)|)
  {
    hide Compile, Read, ReadEach;
    match place
    case Leaves =>
    case Conjuncts =>
      if IsOr(e) {
        ReadEachDnf(config, path + [e.name], e.children);
      } else {
        ReadAtoms(config, path, e, s.scope, s.views[t]);
      }
    case Alternatives =>
      ReadAtoms(config, path, e, NEW_SCOPE, NOTHING);
    case Terms =>
      CompileUsed(config, path, e);
  }

  // fes:not is refused everywhere.
  lemma NotRefused(config: Config, place: Place, path: seq<string>, e: Element, s: State, t: nat)
    requires t < |s.views| && IsNot(e)
    ensures Step(config, place, path, e, s, t).None?
  {
  }

  lemma {:induction false} RunNext(config: Config, place: Place, path: seq<string>, es: seq<Element>, s: State,
                                   t: nat, i: nat)
    requires t < |s.views| && i < |es|
    requires Run(config, place, path, es[..i], s, t).Some? && t < |Run(config, place, path, es[..i], s, t).value.views|
    ensures Run(config, place, path, es[..i + 1], s, t) ==
            Step(config, place, path, es[i], Run(config, place, path, es[..i], s, t).value, t)
  {
    assert es[..i + 1][..i] == es[..i];
  }

  lemma {:induction false} RunFailed(config: Config, place: Place, path: seq<string>, es: seq<Element>, s: State,
                                     t: nat, i: nat)
    requires t < |s.views| && i <= |es| && Run(config, place, path, es[..i], s, t).None?
    ensures Run(config, place, path, es, s, t).None?
    decreases |es|
  {
    if i == |es| {
      assert es[..i] == es;
    } else {
      var init := es[..|es| - 1];
      assert init[..i] == es[..i];
      RunFailed(config, place, path, init, s, t, i);
    }
  }

  lemma LeafIsNoOperator(config: Config, place: Place, path: seq<string>, e: Element)
    requires Fits(config, place, path, e)
    ensures place == Alternatives || place == Leaves ==> !IsAnd(e) && !IsOr(e)
  {
  }

  lemma RunStart(config: Config, place: Place, path: seq<string>, es: seq<Element>, s: State, t: nat)
    requires t < |s.views|
    ensures Run(config, place, path, es[..0], s, t) == Some(s)
  {
  }
}
