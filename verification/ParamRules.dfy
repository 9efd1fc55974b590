/** The rule a configuration states about its parameters, compared with the pass over a request. */
module ParamRules {
  import opened Wrappers
  import opened Texts
  import opened Admission
  import opened ParamExtraction

  // A configuration that was loaded with the given descriptions, and that check_param_conflicts let pass.
  ghost predicate Passed(c: Config, before: ParamMap) {
    Loaded(c) && Closed(before, c.params) && !HasImpossible(before)
  }

  // ---------- the rule ----------

  // The parameter of the configuration that a name stands for.
  ghost function RealName(c: Config, name: Text): Option<Text>
    requires CaseMapped(c)
  {
    if c.caseSensitive then
      if name in c.params then Some(name) else None
    else if Lower(name) in c.caseMap then Some(c.caseMap[Lower(name)]) else None
  }

  // How many values are supplied for each parameter of the configuration.
  ghost function Supplied(c: Config, items: seq<Item>): multiset<Text>
    requires CaseMapped(c)
  {
    if items == [] then multiset{}
    else
      var n := RealName(c, items[|items| - 1].name);
      Supplied(c, items[..|items| - 1]) + if n.Some? then multiset{n.value} else multiset{}
  }

  // No two of the supplied parameters conflict.
  ghost predicate NoConflict(c: Config, supplied: multiset<Text>) {
    forall a, b :: a in supplied && a in c.params && b in supplied - multiset{a} ==> b !in ConflictsOf(c.params, a)
  }

  ghost predicate Readable(c: Config, read: Reader, items: seq<Item>)
    requires CaseMapped(c)
  {
    forall i :: 0 <= i < |items| && GetParamDesc(c, items[i].name).Some? ==>
      read(GetParamDesc(c, items[i].name).value, items[i]).Some?
  }

  ghost predicate NotTooMany(c: Config, supplied: multiset<Text>) {
    forall n :: n in supplied && n in c.params ==> supplied[n] <= c.params[n].maxOccurs
  }

  // Every value can be read, no two of the supplied parameters conflict, and none is there too often.
  ghost predicate Permitted(c: Config, read: Reader, items: seq<Item>)
    requires CaseMapped(c)
  {
    Readable(c, read, items) && NoConflict(c, Supplied(c, items)) && NotTooMany(c, Supplied(c, items))
  }

  // And each of them is there often enough.
  ghost predicate Rule(c: Config, read: Reader, items: seq<Item>)
    requires CaseMapped(c)
  {
    Permitted(c, read, items) && Enough(c, Supplied(c, items))
  }

  // ---------- when the pass follows the rule ----------

  // Names in lower case, unless the server distinguishes letter case anyway.
  predicate WellSpelled(c: Config, items: seq<Item>) {
    c.caseSensitive || forall i :: 0 <= i < |items| ==> IsLower(items[i].name)
  }

  // How such a request spells a parameter.
  function Spelling(c: Config, name: Text): Text {
    if c.caseSensitive then name else Lower(name)
  }

  predicate CanBeSupplied(c: Config, name: Text) {
    name in c.params && c.params[name].maxOccurs > 0
  }

  // Of two parameters that can be supplied, each forbids the other one, as it is spelled, when either
  // of them does.
  ghost predicate Mutual(c: Config) {
    forall a, b :: CanBeSupplied(c, a) && CanBeSupplied(c, b) ==>
      (Spelling(c, b) in ConflictsOf(c.params, a) <==> b in ConflictsOf(c.params, a) || a in ConflictsOf(c.params, b))
  }

  // Every mandatory parameter has a name in lower case.
  predicate LowerMandatory(c: Config) {
    forall n :: n in c.params && c.params[n].minOccurs > 0 ==> IsLower(n)
  }

  lemma DescOfRealName(c: Config, name: Text)
    requires Loaded(c)
    ensures var n := RealName(c, name);
      var desc := GetParamDesc(c, name);
      && (n.None? <==> desc.None?)
      && (n.Some? ==> n.value in c.params && desc == Some(c.params[n.value]))
      && (n.Some? && (c.caseSensitive || IsLower(name)) ==> Spelling(c, n.value) == name)
  {
  }

  lemma OneSpelling(c: Config, a: Text, b: Text)
    requires CaseMapped(c) && a in c.params && b in c.params && Spelling(c, a) == Spelling(c, b)
    ensures a == b
  {
    hide Lower;
  }

  // Every parameter is spelled as often as it is supplied, and no other names are.
  lemma {:induction false} SpelledIsSupplied(c: Config, items: seq<Item>)
    requires Loaded(c) && WellSpelled(c, items)
    ensures forall a :: a in c.params ==> Spelled(c, items)[Spelling(c, a)] == Supplied(c, items)[a]
    ensures forall a :: a in Supplied(c, items) ==> a in c.params
  {
    hide GetParamDesc, RealName, Lower, CaseMapped, Spelling;
    if items != [] {
      var name := items[|items| - 1].name;
      SpelledIsSupplied(c, items[..|items| - 1]);
      DescOfRealName(c, name);
      var n := RealName(c, name);
      if n.Some? {
        forall a | a in c.params ensures Spelling(c, a) == name <==> a == n.value {
          if Spelling(c, a) == name {
            OneSpelling(c, a, n.value);
          }
        }
      }
    }
  }

  // What is forbidden after some items: the conflicts of the parameters supplied.
  lemma {:induction false} ForbiddenByOne(c: Config, items: seq<Item>, name: Text)
    requires Loaded(c)
    ensures name in Forbidden(c, items) <==>
            exists a :: a in Supplied(c, items) && a in c.params && name in ConflictsOf(c.params, a)
  {
    hide GetParamDesc, RealName, Lower, CaseMapped, Lowered;
    if items != [] {
      ForbiddenByOne(c, items[..|items| - 1], name);
      DescOfRealName(c, items[|items| - 1].name);
    }
  }

  lemma ReadableOne(c: Config, read: Reader, init: seq<Item>, last: Item)
    requires CaseMapped(c) && Readable(c, read, init)
    ensures Readable(c, read, init + [last]) <==>
            (GetParamDesc(c, last.name).Some? ==> read(GetParamDesc(c, last.name).value, last).Some?)
  {
    hide GetParamDesc, CaseMapped;
    var items := init + [last];
    assert items[|init|] == last;
    assert forall i :: 0 <= i < |init| ==> items[i] == init[i];
  }

  lemma TooManyOne(c: Config, supplied: multiset<Text>, name: Text)
    requires NotTooMany(c, supplied) && name in c.params
    ensures NotTooMany(c, supplied + multiset{name}) <==> supplied[name] + 1 <= c.params[name].maxOccurs
  {
    var more := supplied + multiset{name};
    assert more[name] == supplied[name] + 1;
    assert forall n :: n != name ==> more[n] == supplied[n];
  }

  // One more parameter conflicts with none exactly when no other one forbids it as it is spelled.
  lemma ConflictOne(c: Config, supplied: multiset<Text>, name: Text)
    requires Mutual(c) && NoConflict(c, supplied) && CanBeSupplied(c, name)
    requires forall a :: a in supplied ==> CanBeSupplied(c, a)
    ensures NoConflict(c, supplied + multiset{name}) <==>
            !exists a :: a in supplied && a in c.params && Spelling(c, name) in ConflictsOf(c.params, a)
  {
    hide ConflictsOf, Spelling;
    var more := supplied + multiset{name};
    if a :| a in supplied && Spelling(c, name) in ConflictsOf(c.params, a) {
      assert name in more - multiset{a} && a in more - multiset{name};
    } else {
      forall a, b | a in more && b in more - multiset{a} ensures b !in ConflictsOf(c.params, a) {
        assert a != name ==> a in supplied;
        assert b != name ==> b in supplied;
        if a != name && b != name {
          assert b in supplied - multiset{a};
        }
      }
    }
  }

  // One more item is still permitted exactly when the pass admits it.
  lemma AdmitsOne(c: Config, read: Reader, init: seq<Item>, last: Item)
    requires Loaded(c) && Mutual(c) && WellSpelled(c, init + [last]) && Permitted(c, read, init)
    ensures Admits(c, read, init, last) <==> Permitted(c, read, init + [last])
  {
    hide GetParamDesc, RealName, Lower, CaseMapped, Lowered, Forbidden, ConflictsOf, Spelling, Mutual, NoConflict,
         Readable;
    var items := init + [last];
    assert items[..|items| - 1] == init && items[|items| - 1] == last;
    assert WellSpelled(c, init) by {
      assert forall i :: 0 <= i < |init| ==> items[i] == init[i];
    }
    assert c.caseSensitive || IsLower(last.name);
    DescOfRealName(c, last.name);
    SpelledIsSupplied(c, init);
    ForbiddenByOne(c, init, last.name);
    ReadableOne(c, read, init, last);
    var n := RealName(c, last.name);
    if n.Some? {
      TooManyOne(c, Supplied(c, init), n.value);
      if c.params[n.value].maxOccurs > 0 {
        SuppliedCan(c, Supplied(c, init));
        ConflictOne(c, Supplied(c, init), n.value);
      }
      assert Supplied(c, items) == Supplied(c, init) + multiset{n.value};
    } else {
      assert Supplied(c, items) == Supplied(c, init);
    }
  }

  lemma SuppliedCan(c: Config, supplied: multiset<Text>)
    requires NotTooMany(c, supplied) && forall a :: a in supplied ==> a in c.params
    ensures forall a :: a in supplied ==> CanBeSupplied(c, a)
  {
    forall a | a in supplied ensures c.params[a].maxOccurs > 0 {
      assert supplied[a] > 0;
    }
  }

  // What is permitted as a whole is permitted without its last item.
  lemma PermittedInit(c: Config, read: Reader, items: seq<Item>)
    requires CaseMapped(c) && items != [] && Permitted(c, read, items)
    ensures Permitted(c, read, items[..|items| - 1])
  {
    hide GetParamDesc, RealName, Lower, CaseMapped, ConflictsOf;
    var all, some := Supplied(c, items), Supplied(c, items[..|items| - 1]);
    assert forall n :: some[n] <= all[n];
    forall a, b | a in some && b in some - multiset{a} ensures a in all && b in all - multiset{a} {
    }
    assert forall n :: n in some ==> n in all;
  }

  lemma NothingPermitted(c: Config, read: Reader)
    requires CaseMapped(c)
    ensures Permitted(c, read, [])
  {
  }

  // Where conflicts are mutual the pass lets through exactly what is permitted.
  lemma {:induction false} PassesPermitted(c: Config, read: Reader, items: seq<Item>)
    requires Loaded(c) && Mutual(c) && WellSpelled(c, items)
    ensures Passes(c, read, items) <==> Permitted(c, read, items)
  {
    hide Mutual, CaseMapped, Permitted, Admits, Lower;
    if items == [] {
      NothingPermitted(c, read);
    } else {
      var init, last := items[..|items| - 1], items[|items| - 1];
      assert items == init + [last];
      PassesPermitted(c, read, init);
      if Permitted(c, read, init) {
        AdmitsOne(c, read, init, last);
      } else if Permitted(c, read, items) {
        PermittedInit(c, read, items);
      }
    }
  }

  // Where the server does not distinguish letter case, a configuration that was checked has mutual
  // conflicts, whatever letters are in its names.
  lemma ConflictsAreMutual(c: Config, before: ParamMap)
    requires Passed(c, before) && !c.caseSensitive
    ensures Mutual(c)
  {
    hide Lower, ConflictsOf, Less, CaseMapped;
    forall a, b | a in c.params && b in c.params
      ensures Lower(b) in ConflictsOf(c.params, a) <==> b in ConflictsOf(c.params, a) || a in ConflictsOf(c.params, b)
    {
      if b in ConflictsOf(c.params, a) {
        ConflictIsLower(c.params, a, b);
      }
      if a in ConflictsOf(c.params, b) {
        ToldBack(c, before, b, a);
      }
      if Lower(b) in ConflictsOf(c.params, a) && !IsLower(b) {
        ToldByCapital(c, before, a, b);
      }
    }
  }

  lemma LowerIsMissing(c: Config, name: Text)
    requires CaseMapped(c) && !c.caseSensitive && name in c.params && Lower(name) in c.params
    ensures Lower(name) == name
  {
    LowerIsIdempotent(name);
  }

  lemma OneCapital(c: Config, a: Text, b: Text)
    requires CaseMapped(c) && !c.caseSensitive && a in c.params && b in c.params && Lower(a) == Lower(b)
    ensures a == b
  {
  }

  // What one parameter knows the other one has been told.
  lemma ToldBack(c: Config, before: ParamMap, name: Text, other: Text)
    requires Passed(c, before) && !c.caseSensitive
    requires name in c.params && other in c.params && other in ConflictsOf(c.params, name)
    ensures Lower(name) in ConflictsOf(c.params, other)
  {
    hide Lower, ConflictsOf, Less, CaseMapped;
    assert Reached(before, before.Keys, name, other);
    if other in ConflictsOf(before, name) {
      Told(before, c.params, name, other);
    } else if k :| k in before && name in ConflictsOf(before, k) && Lower(k) == other {
      LowerIsMissing(c, k);
      ConflictIsLower(before, k, name);
      Told(before, c.params, k, name);
    } else {
      var k :| k in before && Lower(k) == name && other in ConflictsOf(before, k) && other in before;
      LowerIsMissing(c, k);
      Told(before, c.params, k, other);
    }
  }

  // A parameter with capital letters is forbidden only by one with which it has declared a conflict.
  lemma ToldByCapital(c: Config, before: ParamMap, name: Text, other: Text)
    requires Passed(c, before) && !c.caseSensitive
    requires name in c.params && other in c.params && !IsLower(other) && Lower(other) in ConflictsOf(c.params, name)
    ensures name in ConflictsOf(c.params, other)
  {
    hide Lower, ConflictsOf, Less, CaseMapped;
    if Lower(other) in c.params {
      LowerIsMissing(c, other);
      assert false;
    }
    assert Reached(before, before.Keys, name, Lower(other));
    assert !(Lower(other) in ConflictsOf(before, name) && Impossible(before, name, Lower(other)));
    var k :| k in before && name in ConflictsOf(before, k) && Lower(k) == Lower(other);
    OneCapital(c, k, other);
    Told(before, c.params, other, name);
  }

  lemma EnoughSpelled(c: Config, items: seq<Item>)
    requires Loaded(c) && WellSpelled(c, items)
    ensures Enough(c, Spelled(c, items)) <==>
            Enough(c, Supplied(c, items)) && (!c.caseSensitive ==> LowerMandatory(c))
  {
    hide GetParamDesc, Lower, CaseMapped;
    SpelledIsSupplied(c, items);
    if !c.caseSensitive {
      forall n | n in c.params && !IsLower(n) ensures Spelled(c, items)[n] == 0 {
        NotSpelled(c, items, n);
      }
    }
  }

  lemma {:induction false} NotSpelled(c: Config, items: seq<Item>, name: Text)
    requires CaseMapped(c) && forall i :: 0 <= i < |items| ==> items[i].name != name
    ensures name !in Spelled(c, items)
  {
    hide CaseMapped, GetParamDesc;
    if items != [] {
      NotSpelled(c, items[..|items| - 1], name);
    }
  }

  // For a configuration that was checked, with whatever letters in its names: on a server that does not
  // distinguish letter case, a request in lower case is accepted exactly when the rule accepts it and
  // every mandatory parameter is configured in lower case; on one that does, the pass follows the rule
  // where conflicts are mutual.
  lemma AcceptedByRule(c: Config, before: ParamMap, read: Reader, items: seq<Item>)
    requires Passed(c, before) && WellSpelled(c, items)
    ensures !c.caseSensitive ==> (Accepted(c, read, items) <==> Rule(c, read, items) && LowerMandatory(c))
    ensures c.caseSensitive && Mutual(c) ==> (Accepted(c, read, items) <==> Rule(c, read, items))
  {
    hide Mutual, CaseMapped, Permitted, Passes, Enough, Lower, LowerMandatory, Closed, HasImpossible;
    if !c.caseSensitive {
      ConflictsAreMutual(c, before);
    }
    if Mutual(c) {
      PassesPermitted(c, read, items);
      EnoughSpelled(c, items);
    }
  }

  // ---------- servers that distinguish letter case ----------

  // There, conflicts are mutual when only names in lower case declare them.
  lemma LowerIsMutual(c: Config, before: ParamMap)
    requires Passed(c, before) && c.caseSensitive && LowerDeclarers(before)
    ensures Mutual(c)
  {
    hide Lower, ConflictsOf, Closed, HasImpossible, CaseMapped;
    KnownExactly(before, c.params);
  }

  function Two(a: Text, b: Text): seq<Item> {
    [Item(a, []), Item(b, [])]
  }

  lemma ForbiddenAfterOne(c: Config, a: Text)
    requires Loaded(c) && c.caseSensitive && a in c.params
    ensures Forbidden(c, [Item(a, [])]) == ConflictsOf(c.params, a)
  {
    hide Lower, Lowered;
    assert [Item(a, [])][..0] == [];
  }

  lemma SuppliedTwo(c: Config, a: Text, b: Text)
    requires Loaded(c) && c.caseSensitive && a in c.params && b in c.params && a != b
    ensures Supplied(c, Two(a, b)) == multiset{a, b}
    ensures Forbidden(c, Two(a, b)[..1]) == ConflictsOf(c.params, a)
    ensures Spelled(c, Two(a, b)[..1]) == multiset{a}
  {
    hide Lower, Lowered;
    assert Two(a, b)[..1] == [Item(a, [])] && [Item(a, [])][..0] == [];
    assert Supplied(c, [Item(a, [])]) == multiset{a};
  }

  // Of a conflict that only one side forbids, the pass takes notice in one order of the two parameters
  // and not in the other one, in which the rule is broken.
  lemma OneSided(c: Config, read: Reader, a: Text, b: Text)
    requires Loaded(c) && c.caseSensitive && CanBeSupplied(c, a) && CanBeSupplied(c, b)
    requires a in ConflictsOf(c.params, b) && b !in ConflictsOf(c.params, a)
    requires forall desc, item :: read(desc, item).Some?
    ensures Passes(c, read, Two(a, b)) && !Passes(c, read, Two(b, a))
    ensures !Permitted(c, read, Two(a, b)) && !Permitted(c, read, Two(b, a))
  {
    hide Lower, ConflictsOf, Lowered;
    SuppliedTwo(c, a, b);
    SuppliedTwo(c, b, a);
    assert Two(a, b)[..1] == [Item(a, [])] && [Item(a, [])][..0] == [];
    assert Passes(c, read, Two(a, b)[..1]);
    assert a in multiset{a, b} - multiset{b};
  }

  // There, the pass lets through what is permitted, for all requests, exactly when the conflicts of the
  // configuration are mutual.
  lemma PermittedExactly(c: Config)
    requires Loaded(c) && c.caseSensitive
    ensures (forall read, items :: Passes(c, read, items) <==> Permitted(c, read, items)) <==> Mutual(c)
  {
    hide Passes, Permitted, ConflictsOf, CaseMapped;
    if Mutual(c) {
      forall read, items ensures Passes(c, read, items) <==> Permitted(c, read, items) {
        PassesPermitted(c, read, items);
      }
    } else {
      var a, b := NotMutual(c);
      var read: Reader := (desc, item) => Some([]);
      OneSided(c, read, a, b);
      assert Passes(c, read, Two(a, b)) && !Permitted(c, read, Two(a, b));
    }
  }

  // The same of acceptance as a whole, when no parameter is mandatory.
  lemma AcceptedExactly(c: Config)
    requires Loaded(c) && c.caseSensitive && forall n :: n in c.params ==> c.params[n].minOccurs <= 0
    ensures (forall read, items :: Accepted(c, read, items) <==> Rule(c, read, items)) <==> Mutual(c)
  {
    hide Passes, Permitted, ConflictsOf, CaseMapped, Mutual;
    PermittedExactly(c);
    forall read, items
      ensures Accepted(c, read, items) <==> Passes(c, read, items)
      ensures Rule(c, read, items) <==> Permitted(c, read, items)
    {
    }
  }

  lemma NotMutual(c: Config) returns (a: Text, b: Text)
    requires c.caseSensitive && !Mutual(c)
    ensures CanBeSupplied(c, a) && CanBeSupplied(c, b)
    ensures a in ConflictsOf(c.params, b) && b !in ConflictsOf(c.params, a)
  {
    hide ConflictsOf;
    a, b :| CanBeSupplied(c, a) && CanBeSupplied(c, b)
            && a in ConflictsOf(c.params, b) && b !in ConflictsOf(c.params, a);
  }

  // ---------- order ----------

  lemma {:induction false} SuppliedJoined(c: Config, a: seq<Item>, b: seq<Item>)
    requires CaseMapped(c)
    ensures Supplied(c, a + b) == Supplied(c, a) + Supplied(c, b)
  {
    hide RealName, CaseMapped;
    if b == [] {
      assert a + b == a;
    } else {
      assert (a + b)[..|a + b| - 1] == a + b[..|b| - 1];
      SuppliedJoined(c, a, b[..|b| - 1]);
    }
  }

  lemma SameRest(init: seq<Item>, last: Item, front: seq<Item>, back: seq<Item>)
    requires multiset(init + [last]) == multiset(front + ([last] + back))
    ensures multiset(init) == multiset(front + back)
  {
    assert multiset(init + [last]) == multiset(init) + multiset{last};
    assert multiset(front + ([last] + back)) == multiset(front + back) + multiset{last};
    assert multiset(init) == multiset(init + [last]) - multiset{last};
  }

  lemma {:induction false} SuppliedUnordered(c: Config, items: seq<Item>, others: seq<Item>)
    requires CaseMapped(c) && multiset(items) == multiset(others)
    ensures Supplied(c, items) == Supplied(c, others)
  {
    hide RealName, CaseMapped;
    if items == [] {
      assert |multiset(others)| == 0;
    } else {
      var init, last := items[..|items| - 1], items[|items| - 1];
      assert items == init + [last];
      assert last in multiset(others);
      var i :| 0 <= i < |others| && others[i] == last;
      var front, back := others[..i], others[i + 1..];
      assert others == front + ([last] + back);
      SameRest(init, last, front, back);
      SuppliedUnordered(c, init, front + back);
      SuppliedJoined(c, front, back);
      SuppliedJoined(c, front, [last] + back);
      SuppliedJoined(c, [last], back);
      assert [last][..0] == [];
      assert Supplied(c, [last]) == Supplied(c, []) + Supplied(c, [last]);
      SuppliedJoined(c, init, [last]);
    }
  }

  lemma PermittedUnordered(c: Config, read: Reader, items: seq<Item>, others: seq<Item>)
    requires CaseMapped(c) && multiset(items) == multiset(others) && Permitted(c, read, items)
    ensures Permitted(c, read, others)
  {
    hide Supplied, NoConflict, NotTooMany, CaseMapped, GetParamDesc;
    SuppliedUnordered(c, items, others);
    forall i | 0 <= i < |others| ensures others[i] in items {
      assert others[i] in multiset(items);
    }
  }

  lemma SameSpelling(c: Config, items: seq<Item>, others: seq<Item>)
    requires multiset(items) == multiset(others) && WellSpelled(c, items)
    ensures WellSpelled(c, others)
  {
    forall i | 0 <= i < |others| ensures others[i] in items {
      assert others[i] in multiset(items);
    }
  }

  // Whether a request is accepted does not depend on the order of its parameters; where the server
  // distinguishes letter case, because conflicts are mutual.
  lemma AcceptedInAnyOrder(c: Config, before: ParamMap, read: Reader, items: seq<Item>, others: seq<Item>)
    requires Passed(c, before) && WellSpelled(c, items) && multiset(items) == multiset(others)
    requires c.caseSensitive ==> Mutual(c)
    ensures Accepted(c, read, items) <==> Accepted(c, read, others)
  {
    hide Mutual, CaseMapped, Permitted, Accepted, Enough, Lower, LowerMandatory, Closed, HasImpossible;
    SameSpelling(c, items, others);
    AcceptedByRule(c, before, read, items);
    AcceptedByRule(c, before, read, others);
    SuppliedUnordered(c, items, others);
    if Permitted(c, read, items) {
      PermittedUnordered(c, read, items, others);
    }
    if Permitted(c, read, others) {
      PermittedUnordered(c, read, others, items);
    }
  }

  // There, the order in which parameters come matters to the pass for no request exactly when the
  // conflicts of the configuration are mutual.
  lemma UnorderedExactly(c: Config)
    requires Loaded(c) && c.caseSensitive
    ensures (forall read, items, others :: multiset(items) == multiset(others) ==>
               (Passes(c, read, items) <==> Passes(c, read, others))) <==> Mutual(c)
  {
    hide Passes, Permitted, ConflictsOf, CaseMapped, Mutual;
    if Mutual(c) {
      forall read, items, others | multiset(items) == multiset(others) && Passes(c, read, items)
        ensures Passes(c, read, others)
      {
        PassesPermitted(c, read, items);
        PassesPermitted(c, read, others);
        PermittedUnordered(c, read, items, others);
      }
    } else {
      var a, b := NotMutual(c);
      var read: Reader := (desc, item) => Some([]);
      OneSided(c, read, a, b);
      assert multiset(Two(a, b)) == multiset(Two(b, a));
    }
  }

  // ---------- requests with capital letters ----------

  // A configuration of one parameter, wanted a given number of times.
  function OneParam(name: Text, times: int): Config {
    Config(map[name := ParamDesc(name, times, times, {})], map[Lower(name) := name], false)
  }

  lemma OneParamPassed(name: Text, times: int)
    ensures Passed(OneParam(name, times), OneParam(name, times).params)
  {
    hide Lower;
    assert Lowered({}) == {};
  }

  lemma OneParamNames(name: Text, times: int, other: Text)
    ensures CaseMapped(OneParam(name, times))
    ensures GetParamDesc(OneParam(name, times), other).Some? <==> Lower(other) == Lower(name)
    ensures RealName(OneParam(name, times), other) == if Lower(other) == Lower(name) then Some(name) else None
  {
    hide Lower;
  }

  lemma {:induction false} OneParamCounts(name: Text, times: int, times': int, items: seq<Item>)
    requires CaseMapped(OneParam(name, times)) && CaseMapped(OneParam(name, times'))
    ensures Supplied(OneParam(name, times), items) == Supplied(OneParam(name, times'), items)
    ensures Spelled(OneParam(name, times), items)[name] <= Supplied(OneParam(name, times), items)[name]
    ensures (exists i :: 0 <= i < |items| && Lower(items[i].name) == Lower(name) && items[i].name != name) ==>
      Spelled(OneParam(name, times), items)[name] < Supplied(OneParam(name, times), items)[name]
  {
    hide GetParamDesc, RealName, Lower, CaseMapped, OneParam;
    if items != [] {
      OneParamCounts(name, times, times', items[..|items| - 1]);
      OneParamNames(name, times, items[|items| - 1].name);
      OneParamNames(name, times', items[|items| - 1].name);
    }
  }

  // One parameter, wanted as often as it is supplied: the rule accepts, and the pass does not when it is
  // spelled otherwise anywhere.
  lemma Misspelt(name: Text, items: seq<Item>, i: nat) returns (c: Config, read: Reader)
    requires i < |items| && Lower(items[i].name) == Lower(name) && items[i].name != name
    ensures name in c.params && c == OneParam(name, c.params[name].minOccurs) && c.params[name].minOccurs > 0
    ensures Passed(c, c.params) && Rule(c, read, items) && !Accepted(c, read, items)
  {
    hide Lower, CaseMapped, Supplied, Spelled, Passes, Closed, HasImpossible, Permitted;
    OneParamPassed(name, 0);
    var times := Supplied(OneParam(name, 0), items)[name];
    c := OneParam(name, times);
    read := (desc, item) => Some([]);
    OneParamPassed(name, times);
    OneParamCounts(name, times, 0, items);
    assert c.params[name].minOccurs == times;
    OneParamRule(name, times, read, items);
  }

  lemma OneParamRule(name: Text, times: int, read: Reader, items: seq<Item>)
    requires CaseMapped(OneParam(name, times)) && times == Supplied(OneParam(name, times), items)[name]
    requires forall desc, item :: read(desc, item).Some?
    ensures Rule(OneParam(name, times), read, items)
  {
    hide GetParamDesc, CaseMapped, Lower, Supplied;
    assert Lowered({}) == {};
  }

  // Where the server does not distinguish letter case, only requests in lower case are treated as above
  // by every configuration that was checked: the pass compares and counts names as they are spelled.
  lemma CaseMatters(items: seq<Item>)
    ensures (forall i :: 0 <= i < |items| ==> IsLower(items[i].name)) <==>
            (forall c, before, read :: Passed(c, before) && !c.caseSensitive ==>
               (Accepted(c, read, items) <==> Rule(c, read, items) && LowerMandatory(c)))
  {
    hide Accepted, Rule, Lower, CaseMapped, Closed, HasImpossible, LowerMandatory;
    if forall i :: 0 <= i < |items| ==> IsLower(items[i].name) {
      forall c: Config, before, read | Passed(c, before) && !c.caseSensitive
        ensures Accepted(c, read, items) <==> Rule(c, read, items) && LowerMandatory(c)
      {
        AcceptedByRule(c, before, read, items);
      }
    } else {
      var i :| 0 <= i < |items| && !IsLower(items[i].name);
      var name := Lower(items[i].name);
      LowerIsIdempotent(items[i].name);
      var c, read := Misspelt(name, items, i);
      OneIsLower(c, name);
      assert Passed(c, c.params) && !c.caseSensitive;
    }
  }

  lemma OneIsLower(c: Config, name: Text)
    requires name in c.params && c == OneParam(name, c.params[name].minOccurs) && IsLower(name)
    ensures LowerMandatory(c)
  {
  }

  // ---------- configurations with capital letters ----------

  // A mandatory parameter configured with capital letters: there is a request in lower case that the
  // rule accepts and the pass refuses.
  lemma CapitalMandatory(name: Text)
    requires !IsLower(name)
    ensures exists c: Config, read, items ::
      && Passed(c, c.params) && !c.caseSensitive && name in c.params && WellSpelled(c, items)
      && Rule(c, read, items) && !Accepted(c, read, items)
  {
    hide Accepted, Rule, Lower, CaseMapped, Closed, HasImpossible;
    LowerIsIdempotent(name);
    var items := [Item(Lower(name), [])];
    var c, read := Misspelt(name, items, 0);
    assert WellSpelled(c, items);
  }

  // Two optional parameters, of which the one with capital letters declares a conflict with the other.
  const B: Text := "b"
  const ZB: Text := "zB"

  function CapitalPair(told: set<Text>): ParamMap {
    map[B := ParamDesc(B, 0, 1, told), ZB := ParamDesc(ZB, 0, 1, {B})]
  }

  lemma CapitalPairNames()
    ensures Lower(B) == B && Lower(ZB) == "zb" && B != ZB && "zb" != B && "zb" != ZB
    ensures Less(B, ZB) && !Less(ZB, B)
    ensures Lowered({}) == {} && Lowered({B}) == {B} && Lowered({ZB}) == {"zb"}
  {
    assert Lower(B)[0] == 'b' && |B| == 1;
    assert Lower(ZB)[0] == 'z' && Lower(ZB)[1] == 'b' && |ZB| == 2;
    assert Lower(B) == B && Lower(ZB) == "zb";
  }

  lemma CapitalPairClosed()
    ensures Closed(CapitalPair({}), CapitalPair({ZB})) && !HasImpossible(CapitalPair({}))
  {
    CapitalPairNames();
    hide Lower, Lowered, B, ZB, Less;
    var m, m' := CapitalPair({}), CapitalPair({ZB});
    assert ConflictsOf(m, B) == {} && ConflictsOf(m, ZB) == {B};
    assert ConflictsOf(m', B) == {"zb"} && ConflictsOf(m', ZB) == {B};
    assert !Impossible(m, ZB, B);
    forall n, o | n in m && o in ConflictsOf(m', n) ensures Reached(m, m.Keys, n, o) {
      assert n == B ==> n in ConflictsOf(m, ZB) && Lower(ZB) == o;
    }
  }

  // On a server that distinguishes letter case the check lets this configuration pass. The request that
  // has both parameters, in the order of a sorted map, is accepted, though they conflict; the other
  // order is refused.
  lemma CapitalPairAccepted(read: Reader)
    requires forall desc, item :: read(desc, item).Some?
    ensures var c := Config(CapitalPair({ZB}), map[], true);
      && Passed(c, CapitalPair({}))
      && Accepted(c, read, Two(B, ZB)) && !Accepted(c, read, Two(ZB, B)) && !Rule(c, read, Two(B, ZB))
  {
    var c := Config(CapitalPair({ZB}), map[], true);
    CapitalPairClosed();
    CapitalPairNames();
    hide Lower, Lowered, B, ZB, Less, Closed, HasImpossible, Passes, Permitted;
    OneSided(c, read, B, ZB);
  }

  // ---------- unknown names that are forbidden ----------

  // In every request, a forbidden name has a description for the report to use, exactly when the server
  // does not distinguish letter case, or every parameter that declares a conflict shares its name in
  // lower case with a parameter.
  lemma ReportsKnown(c: Config, before: ParamMap)
    requires Passed(c, before)
    ensures (forall items :: ForbiddenOnesKnown(c, items)) <==>
            !c.caseSensitive || forall n :: n in before && before[n].conflictsWith != {} ==> Lower(n) in before
  {
    hide Lower, CaseMapped, Closed, HasImpossible, ForbiddenOnesKnown, ConflictsOf;
    if !c.caseSensitive || forall n :: n in before && before[n].conflictsWith != {} ==> Lower(n) in before {
      forall items ensures ForbiddenOnesKnown(c, items) {
        AllKnown(c, before, items);
      }
    } else {
      var n :| n in before && before[n].conflictsWith != {} && Lower(n) !in before;
      UnknownForbidden(c, before, n);
    }
  }

  lemma AllKnown(c: Config, before: ParamMap, items: seq<Item>)
    requires Passed(c, before)
    requires !c.caseSensitive || forall n :: n in before && before[n].conflictsWith != {} ==> Lower(n) in before
    ensures ForbiddenOnesKnown(c, items)
  {
    hide Lower, CaseMapped, GetParamDesc, Forbidden, Closed, HasImpossible;
    forall i | 0 <= i < |items| && items[i].name in Forbidden(c, items[..i])
      ensures GetParamDesc(c, items[i].name).Some?
    {
      ForbiddenIsKnown(c, before, items[..i], items[i].name);
    }
  }

  lemma ForbiddenIsKnown(c: Config, before: ParamMap, items: seq<Item>, name: Text)
    requires Passed(c, before) && name in Forbidden(c, items)
    requires !c.caseSensitive || forall n :: n in before && before[n].conflictsWith != {} ==> Lower(n) in before
    ensures GetParamDesc(c, name).Some?
  {
    hide Lower, ConflictsOf, Forbidden, Less, CaseMapped;
    ForbiddenByOne(c, items, name);
    var a :| a in Supplied(c, items) && a in c.params && name in ConflictsOf(c.params, a);
    assert Reached(before, before.Keys, a, name);
    if name in ConflictsOf(before, a) {
      assert !Impossible(before, a, name);
    } else if k :| k in before && a in ConflictsOf(before, k) && Lower(k) == name {
      DeclaresOne(before, k);
      LowerIsIdempotent(k);
      assert k in c.params && Lower(k) == Lower(name);
    }
  }

  lemma UnknownForbidden(c: Config, before: ParamMap, name: Text)
    requires Passed(c, before) && c.caseSensitive
    requires name in before && before[name].conflictsWith != {} && Lower(name) !in before
    ensures exists items :: !ForbiddenOnesKnown(c, items)
  {
    hide Lower, ConflictsOf, Less;
    DeclaresOne(before, name);
    var o :| o in ConflictsOf(before, name);
    assert !Impossible(before, name, o);
    Told(before, c.params, name, o);
    var items := Two(o, Lower(name));
    assert items[..1] == [Item(o, [])];
    ForbiddenAfterOne(c, o);
    assert items[1].name in Forbidden(c, items[..1]);
    assert !ForbiddenOnesKnown(c, items);
  }

  // ---------- bounds ----------

  // Two mandatory parameters that conflict: no request can be accepted, which is why the check of the
  // configuration reports them.
  lemma MandatoryConflict(c: Config, read: Reader, items: seq<Item>, a: Text, b: Text)
    requires CaseMapped(c) && a in c.params && b in c.params && a != b && b in ConflictsOf(c.params, a)
    requires c.params[a].minOccurs > 0 && c.params[b].minOccurs > 0
    ensures !Rule(c, read, items)
  {
    hide Supplied, ConflictsOf, CaseMapped, Readable;
    var supplied := Supplied(c, items);
    assert Enough(c, supplied) ==> supplied[a] > 0 && supplied[b] > 0;
    assert (supplied - multiset{a})[b] == supplied[b];
  }

  // A configuration of one parameter with bounds on its occurrences.
  function Bounded(name: Text, min: int, max: int): Config {
    Config(map[name := ParamDesc(name, min, max, {})], map[name := name], false)
  }

  function Times(name: Text, n: nat): (items: seq<Item>)
    ensures |items| == n && forall i :: 0 <= i < n ==> items[i] == Item(name, [])
  {
    seq(n, _ => Item(name, []))
  }

  lemma {:induction false} SuppliedTimes(name: Text, min: int, max: int, n: nat)
    requires IsLower(name) && CaseMapped(Bounded(name, min, max))
    ensures Supplied(Bounded(name, min, max), Times(name, n))[name] == n
    ensures forall a :: a in Supplied(Bounded(name, min, max), Times(name, n)) ==> a == name
  {
    hide Lower, CaseMapped;
    if n > 0 {
      SuppliedTimes(name, min, max, n - 1);
      assert Times(name, n)[..n - 1] == Times(name, n - 1);
    }
  }

  // A parameter may be supplied n times exactly when n is at least its lower bound and, unless it is left
  // out, at most its upper one.
  lemma BoundsExactly(name: Text, min: int, max: int, read: Reader, n: nat)
    requires IsLower(name) && forall desc, item :: read(desc, item).Some?
    ensures CaseMapped(Bounded(name, min, max))
    ensures Accepted(Bounded(name, min, max), read, Times(name, n)) <==> min <= n && (n == 0 || n <= max)
  {
    hide Lower;
    var c := Bounded(name, min, max);
    assert Lowered({}) == {};
    BoundedPassed(name, min, max);
    SuppliedTimes(name, min, max, n);
    hide CaseMapped, Supplied, Times, Closed, HasImpossible, Lowered;
    AcceptedByRule(c, c.params, read, Times(name, n));
  }

  lemma BoundedPassed(name: Text, min: int, max: int)
    requires IsLower(name)
    ensures Passed(Bounded(name, min, max), Bounded(name, min, max).params)
  {
    hide Lower;
    assert Lowered({}) == {};
  }
}
