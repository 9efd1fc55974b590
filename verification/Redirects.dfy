/** The redirect loop of StoredQuery::create_from_kvp and create_from_xml. */
module Redirects {
  import opened Wrappers
  import opened Texts
  import opened Multimaps
  import opened RequestParameterMaps
  import opened RegistrySpec

  datatype Answer = Declined | RedirectedTo(id: Text) | Failed

  type Params = Multimap<ParamInfo>

  // The registry, and what its handlers make of one fixed request: the parameters extracted by the
  // configuration of a handler, the processed parameters, and whether the handler redirects. None and
  // Failed stand for exceptions.
  datatype Service = Service(
    handlers: map<Text, Handler>,
    extract: Handler -> Option<Params>,
    process: (Handler, Text, Params) -> Option<Params>,
    redirect: (Handler, Params, Params) -> Answer)

  datatype ResolvedQuery = ResolvedQuery(id: Text, handler: Handler, origParams: Params, params: Params)

  // The query stands for what its own handler extracted under its own id.
  ghost predicate Settled(s: Service, q: ResolvedQuery) {
    && Lower(q.id) in s.handlers && q.handler == s.handlers[Lower(q.id)]
    && s.extract(q.handler) == Some(q.origParams)
    && s.process(q.handler, q.id, q.origParams) == Some(q.params)
  }

  // Under the first id, the request goes on to the second one.
  ghost predicate Redirects(s: Service, from: Text, to: Text) {
    exists q: ResolvedQuery ::
      q.id == from && Settled(s, q) && s.redirect(q.handler, q.origParams, q.params) == RedirectedTo(to)
  }

  ghost predicate Declines(s: Service, q: ResolvedQuery) {
    Settled(s, q) && s.redirect(q.handler, q.origParams, q.params).Declined?
  }

  // Ids met one after the other, none of them twice, and no empty one after the first.
  ghost predicate Chain(s: Service, path: seq<Text>) {
    && path != []
    && (forall i :: 0 <= i < |path| - 1 ==> Redirects(s, path[i], path[i + 1]))
    && (forall i, j :: 0 <= i < j < |path| ==> path[i] != path[j])
    && (forall i :: 0 < i < |path| ==> path[i] != [])
  }

  ghost predicate Answers(s: Service, id: Text, path: seq<Text>, q: ResolvedQuery) {
    Chain(s, path) && path[0] == id && path[|path| - 1] == q.id && Declines(s, q)
  }

  lemma RedirectsToOne(s: Service, id: Text, a: Text, b: Text)
    requires Redirects(s, id, a) && Redirects(s, id, b)
    ensures a == b
  {
  }

  // Chains from the same id agree as far as both of them go.
  lemma {:induction false} ChainsAgree(s: Service, p: seq<Text>, q: seq<Text>, n: nat)
    requires Chain(s, p) && Chain(s, q) && p[0] == q[0] && n < |p| && n < |q|
    ensures p[n] == q[n]
  {
    hide Redirects, Settled;
    if n > 0 {
      ChainsAgree(s, p, q, n - 1);
      RedirectsToOne(s, p[n - 1], p[n], q[n]);
    }
  }

  // A chain that cannot go on and was not declined is not part of any answer.
  ghost predicate Stuck(s: Service, path: seq<Text>)
    requires path != []
  {
    var last := path[|path| - 1];
    && (forall q: ResolvedQuery :: q.id == last ==> !Declines(s, q))
    && (forall to :: Redirects(s, last, to) ==> to in path || to == [])
  }

  lemma StuckHasNoAnswer(s: Service, path: seq<Text>, other: seq<Text>, q: ResolvedQuery)
    requires Chain(s, path) && Stuck(s, path)
    ensures !Answers(s, path[0], other, q)
  {
    hide Redirects, Declines;
    if Answers(s, path[0], other, q) {
      var n := |path| - 1;
      if |other| <= n {
        ChainsAgree(s, path, other, |other| - 1);
        DeclinedIsLast(s, path, |other| - 1, q);
      } else {
        ChainsAgree(s, path, other, n);
        if |other| > n + 1 {
          var to := other[n + 1];
          assert Redirects(s, path[n], to);
          var i :| 0 <= i < |path| && path[i] == to;
          ChainsAgree(s, path, other, i);
        }
      }
    }
  }

  lemma DeclinedIsLast(s: Service, path: seq<Text>, n: nat, q: ResolvedQuery)
    requires Chain(s, path) && Declines(s, q) && n < |path| && path[n] == q.id
    ensures n == |path| - 1
  {
    hide Redirects, Declines;
    if n < |path| - 1 {
      DeclinedGoesNowhere(s, q, path[n + 1]);
    }
  }

  lemma DeclinedGoesNowhere(s: Service, q: ResolvedQuery, to: Text)
    requires Declines(s, q)
    ensures !Redirects(s, q.id, to)
  {
  }

  // An id leads to one answer at most.
  lemma OneAnswer(s: Service, id: Text, p: seq<Text>, a: ResolvedQuery, p': seq<Text>, b: ResolvedQuery)
    requires Answers(s, id, p, a) && Answers(s, id, p', b)
    ensures p == p' && a == b
  {
    hide Redirects, Declines, Chain;
    var n := if |p| <= |p'| then |p| else |p'|;
    ChainNotEmpty(s, p);
    ChainNotEmpty(s, p');
    ChainsAgree(s, p, p', n - 1);
    if |p| <= |p'| {
      DeclinedIsLast(s, p', n - 1, a);
    } else {
      DeclinedIsLast(s, p, n - 1, b);
    }
    forall i | 0 <= i < |p| ensures p[i] == p'[i] {
      ChainsAgree(s, p, p', i);
    }
    SameDecline(s, a, b);
  }

  lemma ChainNotEmpty(s: Service, p: seq<Text>)
    requires Chain(s, p)
    ensures p != []
  {
  }

  lemma SameDecline(s: Service, a: ResolvedQuery, b: ResolvedQuery)
    requires Declines(s, a) && Declines(s, b) && a.id == b.id
    ensures a == b
  {
  }

  // A redirect to no id at all, or back to an id already met, has no answer.
  lemma GoesNowhere(s: Service, path: seq<Text>, to: Text, other: seq<Text>, q: ResolvedQuery)
    requires Chain(s, path) && Redirects(s, path[|path| - 1], to) && (to == [] || to in path)
    ensures !Answers(s, path[0], other, q)
  {
    hide Settled;
    forall p: ResolvedQuery | p.id == path[|path| - 1] ensures !Declines(s, p) {
      if Declines(s, p) {
        DeclinedGoesNowhere(s, p, to);
        assert false;
      }
    }
    forall x | Redirects(s, path[|path| - 1], x) ensures x in path || x == [] {
      RedirectsToOne(s, path[|path| - 1], to, x);
    }
    StuckHasNoAnswer(s, path, other, q);
  }

  // ---------- termination ----------

  // All spellings of a lower-case id.
  ghost function Spellings(id: Text): set<Text> {
    if id == [] then {[]}
    else
      set c, rest | c in Letters(id[0]) && rest in Spellings(id[1..]) :: [c] + rest
  }

  ghost function Letters(lower: Octet): (r: set<Octet>)
    ensures forall c: Octet :: LowerChar(c) == lower ==> c in r
  {
    if 'a' <= lower <= 'z' then
      var upper: Octet := (lower as int - 32) as char;
      {lower, upper}
    else {lower}
  }

  lemma {:induction false} SpellsItself(id: Text)
    ensures id in Spellings(Lower(id))
  {
    if id != [] {
      SpellsItself(id[1..]);
      assert Lower(id)[0] == LowerChar(id[0]) && Lower(id)[1..] == Lower(id[1..]);
      assert id == [id[0]] + id[1..];
    }
  }

  // The ids under which a registry can be asked.
  ghost function KnownIds(keys: set<Text>): set<Text> {
    set k, id | k in keys && id in Spellings(k) :: id
  }

  lemma AnsweredIsKnown(keys: set<Text>, id: Text)
    requires Lower(id) in keys
    ensures id in KnownIds(keys)
  {
    SpellsItself(id);
  }

  // What is left to visit.
  ghost function Unvisited(keys: set<Text>, visited: set<Text>): nat {
    |KnownIds(keys) - visited|
  }

  lemma VisitOne(keys: set<Text>, visited: set<Text>, id: Text)
    requires id !in visited
    ensures Unvisited(keys, visited + {id}) == Unvisited(keys, visited) - if id in KnownIds(keys) then 1 else 0
  {
    hide KnownIds;
    var before, after := KnownIds(keys) - visited, KnownIds(keys) - (visited + {id});
    if id in KnownIds(keys) {
      assert before == after + {id};
    } else {
      assert before == after;
    }
  }

  lemma {:induction false} DistinctCount(path: seq<Text>, ids: set<Text>)
    requires forall i :: 0 <= i < |path| ==> path[i] in ids
    requires forall i, j :: 0 <= i < j < |path| ==> path[i] != path[j]
    ensures |path| <= |ids|
  {
    if path != [] {
      var last := path[|path| - 1];
      DistinctCount(path[..|path| - 1], ids - {last});
    }
  }

  // No answer takes more steps than there are ids the registry can be asked for.
  lemma ChainLength(s: Service, id: Text, path: seq<Text>, q: ResolvedQuery)
    requires Answers(s, id, path, q)
    ensures |path| <= |KnownIds(s.handlers.Keys)|
  {
    forall i | 0 <= i < |path| ensures path[i] in KnownIds(s.handlers.Keys) {
      if i < |path| - 1 {
        assert Redirects(s, path[i], path[i + 1]);
      }
      AnsweredIsKnown(s.handlers.Keys, path[i]);
    }
    DistinctCount(path, KnownIds(s.handlers.Keys));
  }

  lemma ChainOn(s: Service, path: seq<Text>, to: Text)
    requires Chain(s, path) && Redirects(s, path[|path| - 1], to) && to != [] && to !in path
    ensures Chain(s, path + [to])
  {
    hide Redirects;
  }

  // The request is answered by the handler at the end of the chain of redirects; None when a handler
  // is missing or fails, or when a redirect goes nowhere or back to an id already tried.
  method CreateQuery(s: Service, requested: Text) returns (r: Option<ResolvedQuery>)
    ensures r.Some? ==> exists path :: Answers(s, requested, path, r.value)
    ensures r.None? ==> forall path, q :: !Answers(s, requested, path, q)
  {
    hide Redirects, Declines, Settled, Chain, Stuck, Lower, KnownIds, Unvisited;
    var query_id := requested;
    var redirect_id_set := {query_id};
    ghost var path := [query_id];
    ghost var keys := s.handlers.Keys;
    FirstOfChain(s, query_id);
    var query: Option<ResolvedQuery> := None;
    var more := true;
    while more
      invariant Chain(s, path) && path != [] && path[0] == requested && path[|path| - 1] == query_id
      invariant forall id :: id in redirect_id_set <==> id in path
      invariant !more ==> query.Some? && query.value.id == query_id && Declines(s, query.value)
      decreases Unvisited(keys, redirect_id_set), if !more then 0 else if query_id in KnownIds(keys) then 2 else 1
    {
      if Lower(query_id) !in s.handlers {
        NoHandler(s, path);
        NoAnswer(s, path);
        return None;
      }
      AnsweredIsKnown(keys, query_id);
      var handler := s.handlers[Lower(query_id)];
      var orig_params := s.extract(handler);
      if orig_params.None? {
        NotSettled(s, path);
        NoAnswer(s, path);
        return None;
      }
      var params := s.process(handler, query_id, orig_params.value);
      if params.None? {
        NotSettled(s, path);
        NoAnswer(s, path);
        return None;
      }
      query := Some(ResolvedQuery(query_id, handler, orig_params.value, params.value));
      var answer := s.redirect(handler, orig_params.value, params.value);
      Outcome(s, query.value);
      match answer
      case Failed =>
        NoWayOn(s, path, query.value);
        NoAnswer(s, path);
        return None;
      case Declined =>
        more := false;
      case RedirectedTo(id) =>
        if id in redirect_id_set || id == [] {
          NoWayOn(s, path, query.value);
          NoAnswer(s, path);
          return None;
        }
        ChainOn(s, path, id);
        VisitOne(keys, redirect_id_set, id);
        redirect_id_set := redirect_id_set + {id};
        path := path + [id];
        query_id := id;
    }
    r := query;
    assert Answers(s, requested, path, r.value);
  }

  lemma FirstOfChain(s: Service, id: Text)
    ensures Chain(s, [id])
  {
  }

  lemma NoAnswer(s: Service, path: seq<Text>)
    requires Chain(s, path) && Stuck(s, path)
    ensures forall other, q :: !Answers(s, path[0], other, q)
  {
    forall other, q ensures !Answers(s, path[0], other, q) {
      StuckHasNoAnswer(s, path, other, q);
    }
  }

  lemma NoHandler(s: Service, path: seq<Text>)
    requires path != [] && Lower(path[|path| - 1]) !in s.handlers
    ensures Stuck(s, path)
  {
  }

  lemma NotSettled(s: Service, path: seq<Text>)
    requires path != [] && Lower(path[|path| - 1]) in s.handlers
    requires var h := s.handlers[Lower(path[|path| - 1])];
      s.extract(h).None? || s.process(h, path[|path| - 1], s.extract(h).value).None?
    ensures Stuck(s, path)
  {
  }

  lemma Outcome(s: Service, q: ResolvedQuery)
    requires Lower(q.id) in s.handlers && q.handler == s.handlers[Lower(q.id)]
    requires s.extract(q.handler) == Some(q.origParams) && s.process(q.handler, q.id, q.origParams) == Some(q.params)
    ensures Settled(s, q)
    ensures Declines(s, q) <==> s.redirect(q.handler, q.origParams, q.params).Declined?
    ensures forall to :: s.redirect(q.handler, q.origParams, q.params) == RedirectedTo(to) ==> Redirects(s, q.id, to)
  {
  }

  lemma NoWayOn(s: Service, path: seq<Text>, q: ResolvedQuery)
    requires path != [] && path[|path| - 1] == q.id && Settled(s, q)
    requires match s.redirect(q.handler, q.origParams, q.params)
      case Failed => true
      case Declined => false
      case RedirectedTo(to) => to in path || to == []
    ensures Stuck(s, path)
  {
  }
}
