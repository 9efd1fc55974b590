/** The queries compiled from a filter of the fragment are its disjunctive normal form. */
module FilterDnf {
  import opened Texts
  import opened Sequences
  import opened Values
  import opened Multimaps
  import opened Filters
  import opened FilterMeaning

  // ---------- products of lists of atoms, up to order ----------

  lemma PlusCommutes(a: Atoms, b: Atoms)
    ensures Plus(a, b) == Plus(b, a)
  {
    assert a.params + b.params == b.params + a.params;
    assert a.conditions + b.conditions == b.conditions + a.conditions;
  }

  lemma PlusAssociates(a: Atoms, b: Atoms, c: Atoms)
    ensures Plus(Plus(a, b), c) == Plus(a, Plus(b, c))
  {
    assert a.params + b.params + c.params == a.params + (b.params + c.params);
    assert a.conditions + b.conditions + c.conditions == a.conditions + (b.conditions + c.conditions);
  }

  lemma PlusNothing(a: Atoms)
    ensures Plus(a, NO_ATOMS) == a == Plus(NO_ATOMS, a)
  {
    assert a.params + multiset{} == a.params == multiset{} + a.params;
    assert a.conditions + multiset{} == a.conditions == multiset{} + a.conditions;
  }

  lemma {:induction false} CrossOfConcat(u: seq<Atoms>, v: seq<Atoms>, b: seq<Atoms>)
    ensures PlusCross(u + v, b) == PlusCross(u, b) + PlusCross(v, b)
  {
    if v == [] {
      assert u + v == u;
    } else {
      var n := |v| - 1;
      assert (u + v)[..|u + v| - 1] == u + v[..n];
      CrossOfConcat(u, v[..n], b);
      Regroup(PlusCross(u, b), PlusCross(v[..n], b), PlusRow(v[n], b));
    }
  }

  lemma WithoutOne<T>(s: seq<T>, j: nat)
    requires j < |s|
    ensures multiset(s) == multiset(s[..j] + s[j + 1..]) + multiset{s[j]}
  {
    assert s == s[..j] + [s[j]] + s[j + 1..];
  }

  lemma CrossWithoutOne(a: seq<Atoms>, j: nat, b: seq<Atoms>)
    requires j < |a|
    ensures multiset(PlusCross(a, b)) == multiset(PlusCross(a[..j] + a[j + 1..], b)) + multiset(PlusRow(a[j], b))
  {
    var front, back := a[..j], a[j + 1..];
    assert a == front + [a[j]] + back;
    CrossOfConcat(front + [a[j]], back, b);
    CrossOfConcat(front, [a[j]], b);
    CrossOfConcat(front, back, b);
    RowIsCross(a[j], b);
  }

  // The order of the left list does not matter.
  lemma {:induction false} CrossCongruence(a: seq<Atoms>, a': seq<Atoms>, b: seq<Atoms>)
    requires multiset(a) == multiset(a')
    ensures multiset(PlusCross(a, b)) == multiset(PlusCross(a', b))
    decreases |a|
  {
    hide PlusCross;
    if a == [] {
      assert |multiset(a')| == 0;
      assert a' == [];
    } else {
      var n := |a| - 1;
      assert a[n] in multiset(a');
      var j :| 0 <= j < |a'| && a'[j] == a[n];
      var rest, rest' := a[..n] + a[n + 1..], a'[..j] + a'[j + 1..];
      WithoutOne(a, n);
      WithoutOne(a', j);
      assert multiset(rest) == multiset(a) - multiset{a[n]} == multiset(rest');
      CrossCongruence(rest, rest', b);
      CrossWithoutOne(a, n, b);
      CrossWithoutOne(a', j, b);
    }
  }

  lemma RowOfConcat(x: Atoms, u: seq<Atoms>, v: seq<Atoms>)
    ensures PlusRow(x, u + v) == PlusRow(x, u) + PlusRow(x, v)
  {
  }

  lemma {:induction false} CrossWithLonger(b: seq<Atoms>, a: seq<Atoms>, x: Atoms)
    ensures multiset(PlusCross(b, a + [x])) == multiset(PlusCross(b, a)) + multiset(PlusRow(x, b))
  {
    if b != [] {
      var n := |b| - 1;
      CrossWithLonger(b[..n], a, x);
      RowOfConcat(b[n], a, [x]);
      RowOfConcat(x, b[..n], [b[n]]);
      assert b == b[..n] + [b[n]];
      PlusCommutes(b[n], x);
      assert PlusRow(b[n], [x]) == [Plus(x, b[n])] == PlusRow(x, [b[n]]);
      assert (a + [x])[..] == a + [x];
    }
  }

  lemma {:induction false} CrossCommutes(a: seq<Atoms>, b: seq<Atoms>)
    ensures multiset(PlusCross(a, b)) == multiset(PlusCross(b, a))
  {
    if a == [] {
      CrossWithNothing(b);
    } else {
      var n := |a| - 1;
      CrossCommutes(a[..n], b);
      CrossWithLonger(b, a[..n], a[n]);
      assert a == a[..n] + [a[n]];
    }
  }

  lemma {:induction false} CrossWithNothing(b: seq<Atoms>)
    ensures PlusCross(b, []) == []
  {
    if b != [] {
      CrossWithNothing(b[..|b| - 1]);
    }
  }

  lemma {:induction false} RowOfCross(z: Atoms, a: seq<Atoms>, b: seq<Atoms>)
    ensures PlusRow(z, PlusCross(a, b)) == PlusCross(PlusRow(z, a), b)
  {
    if a != [] {
      var n := |a| - 1;
      RowOfCross(z, a[..n], b);
      RowOfConcat(z, PlusCross(a[..n], b), PlusRow(a[n], b));
      forall i | 0 <= i < |b| ensures PlusRow(z, PlusRow(a[n], b))[i] == PlusRow(Plus(z, a[n]), b)[i] {
        PlusAssociates(z, a[n], b[i]);
      }
      assert PlusRow(z, PlusRow(a[n], b)) == PlusRow(Plus(z, a[n]), b);
      assert PlusRow(z, a)[..n] == PlusRow(z, a[..n]);
    }
  }

  lemma RowIsCross(z: Atoms, s: seq<Atoms>)
    ensures PlusRow(z, s) == PlusCross([z], s)
  {
    assert PlusCross([z], s) == PlusCross([], s) + PlusRow(z, s);
  }

  lemma RowCongruence(z: Atoms, s: seq<Atoms>, t: seq<Atoms>)
    requires multiset(s) == multiset(t)
    ensures multiset(PlusRow(z, s)) == multiset(PlusRow(z, t))
  {
    RowIsCross(z, s);
    RowIsCross(z, t);
    CrossCommutes([z], s);
    CrossCommutes([z], t);
    CrossCongruence(s, t, [z]);
  }

  lemma {:induction false} CrossWithOne(s: seq<Atoms>, l: Atoms)
    ensures |PlusCross(s, [l])| == |s|
    ensures forall i :: 0 <= i < |s| ==> PlusCross(s, [l])[i] == Plus(s[i], l)
  {
    if s != [] {
      CrossWithOne(s[..|s| - 1], l);
    }
  }

  // ---------- queries and their atoms ----------

  lemma {:induction false} InsertEntriesAtoms(m: Multimap<Value>, entries: Multimap<Value>)
    ensures multiset(InsertEntries(m, entries)) == multiset(m) + multiset(entries)
  {
    hide Insert;
    if entries != [] {
      var n := |entries| - 1;
      InsertEntriesAtoms(m, entries[..n]);
      InsertKeepsEntries(InsertEntries(m, entries[..n]), entries[n].key, entries[n].value);
      assert entries == entries[..n] + [entries[n]];
    }
  }

  lemma MergeAtoms(source: Content, target: Content)
    ensures AtomsOf(Merge(source, target)) == Plus(AtomsOf(source), AtomsOf(target))
  {
    InsertEntriesAtoms(target.params, source.params);
  }

  lemma UsedAtoms(q: Content)
    ensures Used(q) <==> AtomsOf(q) != NO_ATOMS
  {
    if q.params != [] {
      assert q.params[0] in multiset(q.params);
    }
    if q.conditions != [] {
      assert q.conditions[0] in multiset(q.conditions);
    }
  }

  lemma MergeUsed(source: Content, target: Content)
    ensures Used(Merge(source, target)) <==> Used(source) || Used(target)
  {
    MergeAtoms(source, target);
    UsedAtoms(source);
    UsedAtoms(target);
    UsedAtoms(Merge(source, target));
    if Used(source) {
      assert |Plus(AtomsOf(source), AtomsOf(target)).params| >= |source.params|;
      assert |Plus(AtomsOf(source), AtomsOf(target)).conditions| >= |source.conditions|;
    }
    if Used(target) {
      assert |Plus(AtomsOf(source), AtomsOf(target)).params| >= |target.params|;
      assert |Plus(AtomsOf(source), AtomsOf(target)).conditions| >= |target.conditions|;
    }
  }

  lemma MergePairAtoms(x: Content, y: Content)
    ensures AtomsOf(MergePair(x, y)) == Plus(AtomsOf(x), AtomsOf(y))
  {
    MergeAtoms(x, NOTHING);
    MergeAtoms(y, Merge(x, NOTHING));
    PlusNothing(AtomsOf(x));
    PlusCommutes(AtomsOf(y), AtomsOf(x));
  }

  lemma AtomsOfConcat(u: seq<Content>, v: seq<Content>)
    ensures AtomsOfAll(u + v) == AtomsOfAll(u) + AtomsOfAll(v)
  {
  }

  lemma {:induction false} RowAt(x: Content, b: seq<Content>, i: nat)
    requires i < |b|
    ensures Row(x, b)[i] == MergePair(x, b[i])
  {
    if i < |b| - 1 {
      RowAt(x, b[..|b| - 1], i);
    }
  }

  lemma AtomsOfRow(x: Content, b: seq<Content>)
    ensures AtomsOfAll(Row(x, b)) == PlusRow(AtomsOf(x), AtomsOfAll(b))
  {
    forall i | 0 <= i < |b| ensures AtomsOf(Row(x, b)[i]) == Plus(AtomsOf(x), AtomsOf(b[i])) {
      RowAt(x, b, i);
      MergePairAtoms(x, b[i]);
    }
  }

  lemma {:induction false} AtomsOfCross(a: seq<Content>, b: seq<Content>)
    ensures AtomsOfAll(Cross(a, b)) == PlusCross(AtomsOfAll(a), AtomsOfAll(b))
  {
    if a != [] {
      var n := |a| - 1;
      AtomsOfCross(a[..n], b);
      AtomsOfRow(a[n], b);
      AtomsOfConcat(Cross(a[..n], b), Row(a[n], b));
      assert AtomsOfAll(a)[..n] == AtomsOfAll(a[..n]);
    }
  }

  // The atoms of the product of the sets found so far; of nothing, before the first one.
  function ProductAtoms(sets: seq<seq<Content>>): seq<Atoms> {
    if sets == [] then [NO_ATOMS] else AtomsOfAll(Product(sets))
  }

  lemma ProductStep(sets: seq<seq<Content>>, s: seq<Content>)
    ensures multiset(ProductAtoms(sets + [s])) == multiset(PlusCross(ProductAtoms(sets), AtomsOfAll(s)))
  {
    var longer := sets + [s];
    assert longer[..|longer| - 1] == sets;
    if sets == [] {
      RowIsCross(NO_ATOMS, AtomsOfAll(s));
      forall i | 0 <= i < |s| ensures PlusRow(NO_ATOMS, AtomsOfAll(s))[i] == AtomsOfAll(s)[i] {
        PlusNothing(AtomsOf(s[i]));
      }
      assert PlusRow(NO_ATOMS, AtomsOfAll(s)) == AtomsOfAll(s);
    } else if |sets| == 1 {
      AtomsOfCross(sets[0], s);
    } else {
      AtomsOfCross(s, Product(sets));
      CrossCommutes(AtomsOfAll(s), AtomsOfAll(Product(sets)));
    }
  }

  // ---------- leaves ----------

  function LeafAtoms(path: seq<string>, e: Element): Atoms
    decreases e, 0
  {
    match e
    case Comparison(condition) => Atoms(multiset{}, multiset{condition})
    case Parameter(localName, values, _) =>
      Atoms(multiset(EntriesOf(ParamName(path, localName), values)), multiset{})
    case Node(name, children) => LeafAtomsOfAll(path + [name], children)
  }

  function LeafAtomsOfAll(path: seq<string>, es: seq<Element>): Atoms
    decreases es, 1
  {
    if es == [] then NO_ATOMS else Plus(LeafAtomsOfAll(path, es[..|es| - 1]), LeafAtoms(path, es[|es| - 1]))
  }

  lemma {:induction false} InsertAllAtoms(m: Multimap<Value>, key: Text, values: seq<Value>)
    ensures multiset(InsertAll(m, key, values)) == multiset(m) + multiset(EntriesOf(key, values))
  {
    if values != [] {
      var n := |values| - 1;
      InsertAllAtoms(m, key, values[..n]);
      InsertKeepsEntries(InsertAll(m, key, values[..n]), key, values[n]);
    }
  }

  lemma {:induction false} ReadAtoms(config: Config, path: seq<string>, e: Element, scope: Scope, q: Content)
    requires IsLeaf(config, path, e) && Read(config, path, e, scope, q).Some?
    ensures var (_, q') := Read(config, path, e, scope, q).value;
      AtomsOf(q') == Plus(AtomsOf(q), LeafAtoms(path, e)) && Used(q')
    decreases e, 0
  {
    var q' := Read(config, path, e, scope, q).value.1;
    match e
    case Comparison(condition) =>
    case Parameter(localName, values, _) =>
      InsertAllAtoms(q.params, ParamName(path, localName), values);
      var n := |values| - 1;
      assert |multiset(q'.params)| == |q'.params|;
      assert |EntriesOf(ParamName(path, localName), values)| > 0;
    case Node(name, children) =>
      ReadAllAtoms(config, path + [name], children, NEW_SCOPE, q);
  }

  lemma {:induction false} ReadAllAtoms(config: Config, path: seq<string>, es: seq<Element>, scope: Scope, q: Content)
    requires AreLeaves(config, path, es) && ReadAll(config, path, es, scope, q).Some?
    ensures var (_, q') := ReadAll(config, path, es, scope, q).value;
      AtomsOf(q') == Plus(AtomsOf(q), LeafAtomsOfAll(path, es)) && (es != [] ==> Used(q'))
    decreases es, 1
  {
    if es == [] {
      PlusNothing(AtomsOf(q));
    } else {
      var n := |es| - 1;
      ReadAllAtoms(config, path, es[..n], scope, q);
      var (scope', q') := ReadAll(config, path, es[..n], scope, q).value;
      ReadAtoms(config, path, es[n], scope', q');
      hide AtomsOf, Read, IsLeaf, Used, Plus, LeafAtoms;
      PlusAssociates(AtomsOf(q), LeafAtomsOfAll(path, es[..n]), LeafAtoms(path, es[n]));
    }
  }

  // An accepted leaf is its own normal form.
  lemma {:induction false} LeafDnf(config: Config, path: seq<string>, e: Element, scope: Scope, q: Content)
    requires IsLeaf(config, path, e) && Read(config, path, e, scope, q).Some?
    ensures Dnf(path, e) == [LeafAtoms(path, e)]
    decreases e, 0
  {
    if e.Node? {
      LeafDnfOfAll(config, path + [e.name], e.children, NEW_SCOPE, q);
    }
  }

  lemma {:induction false} LeafDnfOfAll(config: Config, path: seq<string>, es: seq<Element>, scope: Scope, q: Content)
    requires AreLeaves(config, path, es) && ReadAll(config, path, es, scope, q).Some?
    ensures DnfProduct(path, es) == [LeafAtomsOfAll(path, es)]
    decreases es, 1
  {
    if es != [] {
      var n := |es| - 1;
      LeafDnfOfAll(config, path, es[..n], scope, q);
      var (scope', q') := ReadAll(config, path, es[..n], scope, q).value;
      LeafDnf(config, path, es[n], scope', q');
      hide Read, IsLeaf, Dnf, Plus, LeafAtoms;
      CrossWithOne([LeafAtomsOfAll(path, es[..n])], LeafAtoms(path, es[n]));
    }
  }

  // Leaves below fes:Or, each on its own.
  lemma {:induction false} ReadEachDnf(config: Config, path: seq<string>, es: seq<Element>)
    requires AreLeaves(config, path, es) && ReadEach(config, path, es).Some?
    ensures AtomsOfAll(ReadEach(config, path, es).value) == DnfUnion(path, es)
    ensures forall i :: 0 <= i < |es| ==>
      i < |ReadEach(config, path, es).value| && Used(ReadEach(config, path, es).value[i])
    ensures |ReadEach(config, path, es).value| == |es|
  {
    if es != [] {
      var n := |es| - 1;
      ReadEachDnf(config, path, es[..n]);
      var qs := ReadEach(config, path, es[..n]).value;
      var q := Read(config, path, es[n], NEW_SCOPE, NOTHING).value.1;
      ReadAtoms(config, path, es[n], NEW_SCOPE, NOTHING);
      LeafDnf(config, path, es[n], NEW_SCOPE, NOTHING);
      PlusNothing(LeafAtoms(path, es[n]));
      AtomsOfConcat(qs, [q]);
      hide Read, IsLeaf, Dnf, Plus, LeafAtoms, AtomsOf, Used;
      assert AtomsOfAll([q]) == [AtomsOf(q)];
    }
  }

  // ---------- fes:And ----------

  // An own leaf of fes:And is added to every combination; a fes:Or is multiplied in.
  lemma {:induction false} AndAtoms(config: Config, path: seq<string>, es: seq<Element>)
    requires AreConjuncts(config, path, es)
    requires ReadOwn(config, path, es).Some? && OrSets(config, path, es).Some?
    ensures var base, sets := ReadOwn(config, path, es).value.1, OrSets(config, path, es).value;
      multiset(PlusRow(AtomsOf(base), ProductAtoms(sets))) == multiset(DnfProduct(path, es))
  {
    if es == [] {
      PlusNothing(NO_ATOMS);
      assert PlusRow(AtomsOf(NOTHING), [NO_ATOMS]) == [NO_ATOMS];
    } else {
      var n := |es| - 1;
      var e := es[n];
      AndAtoms(config, path, es[..n]);
      hide Dnf, Read, ReadEach, ProductAtoms, PlusRow, AtomsOf, IsLeaf;
      var (scope, base) := ReadOwn(config, path, es[..n]).value;
      var sets := OrSets(config, path, es[..n]).value;
      var before := PlusRow(AtomsOf(base), ProductAtoms(sets));
      CrossCongruence(before, DnfProduct(path, es[..n]), Dnf(path, e));
      assert IsConjunct(config, path, e);
      if IsOr(e) {
        AndSet(config, path, e, base, sets);
      } else {
        AndLeaf(config, path, e, scope, base, sets);
      }
    }
  }

  lemma AndSet(config: Config, path: seq<string>, e: Element, base: Content, sets: seq<seq<Content>>)
    requires IsConjunct(config, path, e) && IsOr(e)
    requires ReadEach(config, path + [e.name], e.children).Some?
    ensures var s := ReadEach(config, path + [e.name], e.children).value;
      multiset(PlusRow(AtomsOf(base), ProductAtoms(sets + [s]))) ==
      multiset(PlusCross(PlusRow(AtomsOf(base), ProductAtoms(sets)), Dnf(path, e)))
  {
    ReadEachDnf(config, path + [e.name], e.children);
    AddSet(AtomsOf(base), sets, ReadEach(config, path + [e.name], e.children).value);
  }

  lemma AndLeaf(config: Config, path: seq<string>, e: Element, scope: Scope, base: Content, sets: seq<seq<Content>>)
    requires IsLeaf(config, path, e) && Read(config, path, e, scope, base).Some?
    ensures var base' := Read(config, path, e, scope, base).value.1;
      PlusRow(AtomsOf(base'), ProductAtoms(sets)) ==
      PlusCross(PlusRow(AtomsOf(base), ProductAtoms(sets)), Dnf(path, e))
  {
    ReadAtoms(config, path, e, scope, base);
    LeafDnf(config, path, e, scope, base);
    AddLeaf(AtomsOf(base), ProductAtoms(sets), LeafAtoms(path, e));
  }

  lemma AddSet(z: Atoms, sets: seq<seq<Content>>, s: seq<Content>)
    ensures multiset(PlusRow(z, ProductAtoms(sets + [s]))) ==
            multiset(PlusCross(PlusRow(z, ProductAtoms(sets)), AtomsOfAll(s)))
  {
    ProductStep(sets, s);
    RowCongruence(z, ProductAtoms(sets + [s]), PlusCross(ProductAtoms(sets), AtomsOfAll(s)));
    RowOfCross(z, ProductAtoms(sets), AtomsOfAll(s));
  }

  lemma AddLeaf(z: Atoms, p: seq<Atoms>, l: Atoms)
    ensures PlusRow(Plus(z, l), p) == PlusCross(PlusRow(z, p), [l])
  {
    CrossWithOne(PlusRow(z, p), l);
    forall i | 0 <= i < |p| ensures Plus(Plus(z, l), p[i]) == Plus(Plus(z, p[i]), l) {
      PlusAssociates(z, l, p[i]);
      PlusCommutes(l, p[i]);
      PlusAssociates(z, p[i], l);
    }
  }

  // Without a fes:Or among them, the elements of fes:And leave something in its own query.
  lemma {:induction false} OwnUsed(config: Config, path: seq<string>, es: seq<Element>)
    requires AreConjuncts(config, path, es)
    requires ReadOwn(config, path, es).Some? && OrSets(config, path, es).Some?
    ensures es != [] && OrSets(config, path, es).value == [] ==> Used(ReadOwn(config, path, es).value.1)
    ensures !Used(ReadOwn(config, path, es).value.1) ==> ReadOwn(config, path, es).value.1 == NOTHING
  {
    if es != [] {
      var n := |es| - 1;
      OwnUsed(config, path, es[..n]);
      var (scope, base) := ReadOwn(config, path, es[..n]).value;
      if !IsOr(es[n]) {
        assert IsConjunct(config, path, es[n]);
        ReadAtoms(config, path, es[n], scope, base);
      }
    }
  }

  lemma FinishAtoms(base: Content, sets: seq<seq<Content>>)
    requires Finish(base, sets).Some? && (sets == [] ==> Used(base))
    ensures AtomsOfAll(Finish(base, sets).value) == PlusRow(AtomsOf(base), ProductAtoms(sets))
  {
    if sets == [] {
      PlusNothing(AtomsOf(base));
    } else if !Used(base) {
      forall i | 0 <= i < |Product(sets)|
        ensures AtomsOf(Product(sets)[i]) == Plus(AtomsOf(base), AtomsOf(Product(sets)[i])) {
        UsedAtoms(base);
        PlusNothing(AtomsOf(Product(sets)[i]));
      }
    } else {
      forall i | 0 <= i < |Product(sets)|
        ensures AtomsOf(Merge(base, Product(sets)[i])) == Plus(AtomsOf(base), AtomsOf(Product(sets)[i])) {
        MergeAtoms(base, Product(sets)[i]);
      }
    }
  }

  // ---------- the whole filter ----------

  lemma AndIsDnf(config: Config, path: seq<string>, e: Element)
    requires IsTerm(config, path, e) && Compile(config, path, e).Some? && IsAnd(e)
    ensures multiset(AtomsOfAll(Compile(config, path, e).value)) == multiset(Dnf(path, e))
  {
    hide ReadOwn, OrSets, Finish, AreConjuncts, AtomsOfAll, DnfProduct, PlusRow, ProductAtoms, Read;
    var path' := path + [e.name];
    AndAtoms(config, path', e.children);
    OwnUsed(config, path', e.children);
    FinishAtoms(ReadOwn(config, path', e.children).value.1, OrSets(config, path', e.children).value);
  }

  lemma OneLeafIsDnf(config: Config, path: seq<string>, e: Element)
    requires IsTerm(config, path, e) && Compile(config, path, e).Some? && !IsAnd(e) && !IsOr(e)
    ensures multiset(AtomsOfAll(Compile(config, path, e).value)) == multiset(Dnf(path, e))
  {
    hide Dnf, LeafAtoms, Read;
    ReadAtoms(config, path, e, NEW_SCOPE, NOTHING);
    LeafDnf(config, path, e, NEW_SCOPE, NOTHING);
    PlusNothing(LeafAtoms(path, e));
  }

  // The compiled queries are exactly the disjunctive normal form of the filter.
  lemma {:induction false} CompileIsDnf(config: Config, path: seq<string>, e: Element)
    requires IsTerm(config, path, e) && Compile(config, path, e).Some?
    ensures multiset(AtomsOfAll(Compile(config, path, e).value)) == multiset(Dnf(path, e))
    decreases e, 0
  {
    hide AtomsOfAll, CompileAll, DnfUnion, DnfProduct, AreTerms, AreConjuncts, ReadOwn, OrSets, Finish, Read;
    if IsOr(e) {
      CompileAllIsDnf(config, path + [e.name], e.children);
    } else if IsAnd(e) {
      AndIsDnf(config, path, e);
    } else {
      OneLeafIsDnf(config, path, e);
    }
  }

  lemma {:induction false} CompileAllIsDnf(config: Config, path: seq<string>, es: seq<Element>)
    requires AreTerms(config, path, es) && CompileAll(config, path, es).Some?
    ensures multiset(AtomsOfAll(CompileAll(config, path, es).value)) == multiset(DnfUnion(path, es))
    decreases es, 1
  {
    if es != [] {
      var n := |es| - 1;
      CompileAllIsDnf(config, path, es[..n]);
      CompileIsDnf(config, path, es[n]);
      AtomsOfConcat(CompileAll(config, path, es[..n]).value, Compile(config, path, es[n]).value);
    }
  }

  // A world satisfies some compiled query exactly when the filter holds in it.
  lemma CompileKeepsMeaning(config: Config, path: seq<string>, e: Element, w: World)
    requires IsTerm(config, path, e) && Compile(config, path, e).Some?
    ensures (exists q :: q in Compile(config, path, e).value && Satisfied(q, w)) <==> Holds(path, e, w)
  {
    var qs := Compile(config, path, e).value;
    CompileIsDnf(config, path, e);
    DnfMeaning(path, e, w);
    hide Compile, Dnf, IsTerm, Holds;
    SameAtomsSameTruth(AtomsOfAll(qs), Dnf(path, e), w);
    SatisfiedByAtoms(qs, w);
  }

  lemma SatisfiedByAtoms(qs: seq<Content>, w: World)
    ensures (exists q :: q in qs && Satisfied(q, w)) <==> SomeHold(AtomsOfAll(qs), w)
  {
    forall i | 0 <= i < |qs| ensures Satisfied(qs[i], w) <==> AllHold(AtomsOfAll(qs)[i], w) {
      assert forall p :: p in qs[i].params <==> p in multiset(qs[i].params);
      assert forall c :: c in qs[i].conditions <==> c in multiset(qs[i].conditions);
    }
    hide Satisfied, AllHold;
    if q :| q in qs && Satisfied(q, w) {
      var i :| 0 <= i < |qs| && qs[i] == q;
      assert AllHold(AtomsOfAll(qs)[i], w);
    }
  }

  lemma SameAtomsSameTruth(a: seq<Atoms>, b: seq<Atoms>, w: World)
    requires multiset(a) == multiset(b)
    ensures SomeHold(a, w) <==> SomeHold(b, w)
  {
    if i :| 0 <= i < |a| && AllHold(a[i], w) {
      assert a[i] in multiset(b);
      var j :| 0 <= j < |b| && b[j] == a[i];
    }
    if j :| 0 <= j < |b| && AllHold(b[j], w) {
      assert b[j] in multiset(a);
      var i :| 0 <= i < |a| && a[i] == b[j];
    }
  }
}
