/** Ad hoc filters: the element tree of a fes:Filter, what reading a leaf puts into a query, and the
    list of queries a filter stands for. */
module Filters {
  import opened Wrappers
  import opened Texts
  import opened Values
  import opened Multimaps

  // A child element, its names in lower case.
  datatype Element =
    | Node(name: string, children: seq<Element>)
    | Parameter(localName: Text, values: seq<Value>, withinLimits: bool)  // fes:bbox, gml:timeposition
    | Comparison(condition: string)  // fes:propertyis..., with the XPath condition it stands for

  datatype ParamDesc = ParamDesc(maxOccurs: int, conflictsWith: set<Text>)

  type Config = map<Text, ParamDesc>

  // What a query holds: its parameters and the conditions of its filter expression.
  datatype Content = Content(params: Multimap<Value>, conditions: seq<string>)

  const NOTHING := Content([], [])

  predicate Used(q: Content) {
    q.params != [] || q.conditions != []
  }

  // The parameters read so far by one call: their names and what they forbid.
  datatype Scope = Scope(names: multiset<Text>, forbidden: set<Text>)

  const NEW_SCOPE := Scope(multiset{}, {})

  predicate IsNot(e: Element) { e.Node? && e.name == "fes:not" }

  predicate IsAnd(e: Element) { e.Node? && e.name == "fes:and" }

  predicate IsOr(e: Element) { e.Node? && e.name == "fes:or" }

  // The instants of a time period set starttime and endtime.
  function ParamName(path: seq<string>, localName: Text): Text {
    var n := |path|;
    if localName == "timeposition" && n >= 5 && path[n - 4] == "fes:during" && path[n - 3] == "gml:timeperiod" &&
       path[n - 1] == "gml:timeinstant"
    then
      if path[n - 2] == "gml:begin" then "starttime" else if path[n - 2] == "gml:end" then "endtime" else localName
    else localName
  }

  function InsertAll(m: Multimap<Value>, key: Text, values: seq<Value>): Multimap<Value> {
    if values == [] then m
    else Insert(InsertAll(m, key, values[..|values| - 1]), key, values[|values| - 1])
  }

  // Reading one element outside any logical operator; None is an exception.
  function Read(config: Config, path: seq<string>, e: Element, scope: Scope, q: Content): Option<(Scope, Content)>
    decreases e, 0
  {
    match e
    case Comparison(condition) => Some((scope, q.(conditions := q.conditions + [condition])))
    case Parameter(localName, values, withinLimits) =>
      var name := ParamName(path, localName);
      if name !in config then Some((scope, q))
      else if name in scope.forbidden then None
      else if scope.names[name] + 1 > config[name].maxOccurs then None
      else if !withinLimits then None
      else
        Some((Scope(scope.names + multiset{name}, scope.forbidden + Lowered(config[name].conflictsWith)),
              q.(params := InsertAll(q.params, name, values))))
    case Node(name, children) =>
      if name == "fes:not" then None
      else
        var (_, q') :- ReadAll(config, path + [name], children, NEW_SCOPE, q);
        Some((scope, q'))
  }

  function ReadAll(config: Config, path: seq<string>, es: seq<Element>, scope: Scope, q: Content)
    : Option<(Scope, Content)>
    decreases es, 1
  {
    if es == [] then Some((scope, q))
    else
      var (scope', q') :- ReadAll(config, path, es[..|es| - 1], scope, q);
      Read(config, path, es[|es| - 1], scope', q')
  }

  // ---------- the fragment ----------

  // A recognised parameter, a comparison or a wrapper of such elements (fes:During, say).
  predicate IsLeaf(config: Config, path: seq<string>, e: Element)
    decreases e
  {
    match e
    case Comparison(_) => true
    case Parameter(localName, values, _) => ParamName(path, localName) in config && values != []
    case Node(name, children) =>
      || name == "fes:not"  // always refused
      || (&& name != "fes:and" && name != "fes:or"
          && children != []
          && forall c :: c in children ==> IsLeaf(config, path + [name], c))
  }

  predicate AreLeaves(config: Config, path: seq<string>, es: seq<Element>) {
    forall e :: e in es ==> IsLeaf(config, path, e)
  }

  // What may stand inside fes:And: leaves and fes:Or elements of leaves.
  predicate IsConjunct(config: Config, path: seq<string>, e: Element) {
    if IsOr(e) then e.children != [] && AreLeaves(config, path + [e.name], e.children)
    else IsLeaf(config, path, e)
  }

  predicate AreConjuncts(config: Config, path: seq<string>, es: seq<Element>) {
    forall e :: e in es ==> IsConjunct(config, path, e)
  }

  predicate IsTerm(config: Config, path: seq<string>, e: Element)
    decreases e
  {
    if IsOr(e) then
      e.children != [] && forall c :: c in e.children ==> IsTerm(config, path + [e.name], c)
    else if IsAnd(e) then
      e.children != [] && AreConjuncts(config, path + [e.name], e.children)
    else
      IsLeaf(config, path, e)
  }

  predicate AreTerms(config: Config, path: seq<string>, es: seq<Element>) {
    forall e :: e in es ==> IsTerm(config, path, e)
  }

  // ---------- the queries of a filter ----------

  predicate SingleValued(m: Multimap<Value>) {
    forall i, j :: 0 <= i < j < |m| ==> m[i].key != m[j].key
  }

  function InsertEntries(m: Multimap<Value>, entries: Multimap<Value>): Multimap<Value> {
    if entries == [] then m
    else
      var last := entries[|entries| - 1];
      Insert(InsertEntries(m, entries[..|entries| - 1]), last.key, last.value)
  }

  // The target with everything of the source added.
  function Merge(source: Content, target: Content): Content {
    Content(InsertEntries(target.params, source.params), target.conditions + source.conditions)
  }

  function MergePair(x: Content, y: Content): Content {
    Merge(y, Merge(x, NOTHING))
  }

  function Row(x: Content, b: seq<Content>): (r: seq<Content>)
    ensures |r| == |b|
  {
    if b == [] then [] else Row(x, b[..|b| - 1]) + [MergePair(x, b[|b| - 1])]
  }

  // One merged query for every choice of one query from each of two sets.
  function Cross(a: seq<Content>, b: seq<Content>): seq<Content> {
    if a == [] then [] else Cross(a[..|a| - 1], b) + Row(a[|a| - 1], b)
  }

  function Product(sets: seq<seq<Content>>): seq<Content>
    requires sets != []
  {
    if |sets| == 1 then sets[0]
    else if |sets| == 2 then Cross(sets[0], sets[1])
    else Cross(sets[|sets| - 1], Product(sets[..|sets| - 1]))
  }

  predicate AllSingleValued(qs: seq<Content>) {
    forall i :: 0 <= i < |qs| ==> SingleValued(qs[i].params)
  }

  // A query can only be copied when none of its parameters has two values.
  predicate Combinable(sets: seq<seq<Content>>) {
    && (forall k :: 0 <= k < |sets| ==> AllSingleValued(sets[k]))
    && (forall k :: 2 <= k < |sets| ==> AllSingleValued(Product(sets[..k])))
  }

  function MergeEach(source: Content, qs: seq<Content>): (r: seq<Content>)
    ensures |r| == |qs|
    ensures forall i :: 0 <= i < |qs| ==> r[i] == Merge(source, qs[i])
  {
    seq(|qs|, i requires 0 <= i < |qs| => Merge(source, qs[i]))
  }

  // The end of fes:And: its own parameters go into every combination of its fes:Or branches.
  function Finish(base: Content, sets: seq<seq<Content>>): Option<seq<Content>> {
    if sets == [] then Some(if Used(base) then [base] else [])
    else if |sets| >= 2 && !Combinable(sets) then None
    else if !Used(base) then Some(Product(sets))
    else if !SingleValued(base.params) then None
    else Some(MergeEach(base, Product(sets)))
  }

  // The own leaves of fes:And, all read into one query.
  function ReadOwn(config: Config, path: seq<string>, es: seq<Element>): Option<(Scope, Content)>
  {
    if es == [] then Some((NEW_SCOPE, NOTHING))
    else
      var (scope, q) :- ReadOwn(config, path, es[..|es| - 1]);
      var e := es[|es| - 1];
      if IsOr(e) then Some((scope, q)) else Read(config, path, e, scope, q)
  }

  // Leaves below fes:Or, each read into a query of its own.
  function ReadEach(config: Config, path: seq<string>, es: seq<Element>): Option<seq<Content>> {
    if es == [] then Some([])
    else
      var qs :- ReadEach(config, path, es[..|es| - 1]);
      var (_, q) :- Read(config, path, es[|es| - 1], NEW_SCOPE, NOTHING);
      Some(qs + [q])
  }

  // One set of queries for every fes:Or inside fes:And.
  function OrSets(config: Config, path: seq<string>, es: seq<Element>): Option<seq<seq<Content>>> {
    if es == [] then Some([])
    else
      var sets :- OrSets(config, path, es[..|es| - 1]);
      var e := es[|es| - 1];
      if IsOr(e) then
        var s :- ReadEach(config, path + [e.name], e.children);
        Some(sets + [s])
      else Some(sets)
  }

  function Compile(config: Config, path: seq<string>, e: Element): Option<seq<Content>>
    decreases e, 0
  {
    if IsOr(e) then
      CompileAll(config, path + [e.name], e.children)
    else if IsAnd(e) then
      var (_, base) :- ReadOwn(config, path + [e.name], e.children);
      var sets :- OrSets(config, path + [e.name], e.children);
      Finish(base, sets)
    else
      var (_, q) :- Read(config, path, e, NEW_SCOPE, NOTHING);
      Some([q])
  }

  function CompileAll(config: Config, path: seq<string>, es: seq<Element>): Option<seq<Content>>
    decreases es, 1
  {
    if es == [] then Some([])
    else
      var qs :- CompileAll(config, path, es[..|es| - 1]);
      var more :- Compile(config, path, es[|es| - 1]);
      Some(qs + more)
  }
}
