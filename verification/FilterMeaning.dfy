/** The queries of a filter are its disjunctive normal form, and mean what the filter means. */
module FilterMeaning {
  import opened Texts
  import opened Values
  import opened Multimaps
  import opened Filters

  // What a query demands, regardless of order.
  datatype Atoms = Atoms(params: multiset<Entry<Value>>, conditions: multiset<string>)

  const NO_ATOMS := Atoms(multiset{}, multiset{})

  function Plus(a: Atoms, b: Atoms): Atoms {
    Atoms(a.params + b.params, a.conditions + b.conditions)
  }

  function AtomsOf(q: Content): Atoms {
    Atoms(multiset(q.params), multiset(q.conditions))
  }

  function AtomsOfAll(qs: seq<Content>): (r: seq<Atoms>)
    ensures |r| == |qs|
    ensures forall i :: 0 <= i < |qs| ==> r[i] == AtomsOf(qs[i])
  {
    seq(|qs|, i requires 0 <= i < |qs| => AtomsOf(qs[i]))
  }

  function EntriesOf(key: Text, values: seq<Value>): seq<Entry<Value>> {
    if values == [] then []
    else EntriesOf(key, values[..|values| - 1]) + [Entry(key, values[|values| - 1])]
  }

  function PlusRow(x: Atoms, b: seq<Atoms>): (r: seq<Atoms>)
    ensures |r| == |b|
    ensures forall i :: 0 <= i < |b| ==> r[i] == Plus(x, b[i])
  {
    seq(|b|, i requires 0 <= i < |b| => Plus(x, b[i]))
  }

  function PlusCross(a: seq<Atoms>, b: seq<Atoms>): seq<Atoms> {
    if a == [] then [] else PlusCross(a[..|a| - 1], b) + PlusRow(a[|a| - 1], b)
  }

  // The disjunctive normal form of an element tree: fes:Or joins the lists of its children, every
  // other element takes one choice from each child.
  function Dnf(path: seq<string>, e: Element): seq<Atoms>
    decreases e, 0
  {
    match e
    case Comparison(condition) => [Atoms(multiset{}, multiset{condition})]
    case Parameter(localName, values, _) =>
      [Atoms(multiset(EntriesOf(ParamName(path, localName), values)), multiset{})]
    case Node(name, children) =>
      if name == "fes:or" then DnfUnion(path + [name], children) else DnfProduct(path + [name], children)
  }

  function DnfUnion(path: seq<string>, es: seq<Element>): seq<Atoms>
    decreases es, 1
  {
    if es == [] then [] else DnfUnion(path, es[..|es| - 1]) + Dnf(path, es[|es| - 1])
  }

  function DnfProduct(path: seq<string>, es: seq<Element>): seq<Atoms>
    decreases es, 1
  {
    if es == [] then [NO_ATOMS] else PlusCross(DnfProduct(path, es[..|es| - 1]), Dnf(path, es[|es| - 1]))
  }

  // ---------- meaning ----------

  // Which single demands hold.
  datatype World = World(param: Entry<Value> -> bool, condition: string -> bool)

  predicate AllHold(a: Atoms, w: World) {
    (forall p :: p in a.params ==> w.param(p)) && (forall c :: c in a.conditions ==> w.condition(c))
  }

  predicate Satisfied(q: Content, w: World) {
    (forall p :: p in q.params ==> w.param(p)) && (forall c :: c in q.conditions ==> w.condition(c))
  }

  // The meaning of an element: fes:Or is a disjunction, everything else a conjunction.
  predicate Holds(path: seq<string>, e: Element, w: World)
    decreases e
  {
    match e
    case Comparison(condition) => w.condition(condition)
    case Parameter(localName, values, _) => forall v :: v in values ==> w.param(Entry(ParamName(path, localName), v))
    case Node(name, children) =>
      if name == "fes:or" then exists c :: c in children && Holds(path + [name], c, w)
      else forall c :: c in children ==> Holds(path + [name], c, w)
  }

  ghost predicate SomeHold(s: seq<Atoms>, w: World) {
    exists i :: 0 <= i < |s| && AllHold(s[i], w)
  }

  lemma {:induction false} EntriesHold(key: Text, values: seq<Value>, w: World)
    ensures (forall p :: p in multiset(EntriesOf(key, values)) ==> w.param(p)) <==>
            (forall v :: v in values ==> w.param(Entry(key, v)))
  {
    if values != [] {
      var n := |values| - 1;
      EntriesHold(key, values[..n], w);
      assert values == values[..n] + [values[n]];
      assert forall v :: v in values <==> v in values[..n] || v == values[n];
    }
  }

  lemma SomeHoldConcat(a: seq<Atoms>, b: seq<Atoms>, w: World)
    ensures SomeHold(a + b, w) <==> SomeHold(a, w) || SomeHold(b, w)
  {
    if i :| 0 <= i < |a| && AllHold(a[i], w) {
      assert AllHold((a + b)[i], w);
    }
    if i :| 0 <= i < |b| && AllHold(b[i], w) {
      assert AllHold((a + b)[|a| + i], w);
    }
  }

  lemma PlusHolds(a: Atoms, b: Atoms, w: World)
    ensures AllHold(Plus(a, b), w) <==> AllHold(a, w) && AllHold(b, w)
  {
    assert forall p :: p in Plus(a, b).params <==> p in a.params || p in b.params;
    assert forall c :: c in Plus(a, b).conditions <==> c in a.conditions || c in b.conditions;
  }

  lemma {:induction false} CrossHolds(a: seq<Atoms>, b: seq<Atoms>, w: World)
    ensures SomeHold(PlusCross(a, b), w) <==> SomeHold(a, w) && SomeHold(b, w)
  {
    if a != [] {
      var n := |a| - 1;
      CrossHolds(a[..n], b, w);
      SomeHoldConcat(PlusCross(a[..n], b), PlusRow(a[n], b), w);
      SomeHoldConcat(a[..n], [a[n]], w);
      assert a == a[..n] + [a[n]];
      assert SomeHold([a[n]], w) <==> AllHold([a[n]][0], w);
      forall i | 0 <= i < |b| ensures AllHold(PlusRow(a[n], b)[i], w) <==> AllHold(a[n], w) && AllHold(b[i], w) {
        PlusHolds(a[n], b[i], w);
      }
      hide AllHold, PlusCross;
    }
  }

  // The normal form of any element tree means what the tree means.
  lemma {:induction false} DnfMeaning(path: seq<string>, e: Element, w: World)
    ensures SomeHold(Dnf(path, e), w) <==> Holds(path, e, w)
    decreases e, 0
  {
    match e
    case Comparison(condition) =>
      assert SomeHold(Dnf(path, e), w) <==> AllHold(Dnf(path, e)[0], w);
    case Parameter(localName, values, _) =>
      EntriesHold(ParamName(path, localName), values, w);
      assert SomeHold(Dnf(path, e), w) <==> AllHold(Dnf(path, e)[0], w);
    case Node(name, children) =>
      if name == "fes:or" {
        UnionMeaning(path + [name], children, w);
      } else {
        ProductMeaning(path + [name], children, w);
      }
  }

  lemma {:induction false} UnionMeaning(path: seq<string>, es: seq<Element>, w: World)
    ensures SomeHold(DnfUnion(path, es), w) <==> exists c :: c in es && Holds(path, c, w)
    decreases es, 1
  {
    if es != [] {
      var n := |es| - 1;
      UnionMeaning(path, es[..n], w);
      DnfMeaning(path, es[n], w);
      SomeHoldConcat(DnfUnion(path, es[..n]), Dnf(path, es[n]), w);
      assert es == es[..n] + [es[n]];
    }
  }

  lemma {:induction false} ProductMeaning(path: seq<string>, es: seq<Element>, w: World)
    ensures SomeHold(DnfProduct(path, es), w) <==> forall c :: c in es ==> Holds(path, c, w)
    decreases es, 1
  {
    if es == [] {
      assert AllHold(DnfProduct(path, es)[0], w);
    } else {
      var n := |es| - 1;
      ProductMeaning(path, es[..n], w);
      DnfMeaning(path, es[n], w);
      CrossHolds(DnfProduct(path, es[..n]), Dnf(path, es[n]), w);
      assert es == es[..n] + [es[n]];
    }
  }
}
