/** StoredQueryConfig: which parameters of a stored query may not be supplied together. */
module Admission {
  import opened Texts
  import opened SortedKeys

  datatype ParamDesc = ParamDesc(name: Text, minOccurs: int, maxOccurs: int, conflictsWith: set<Text>)

  type ParamMap = map<Text, ParamDesc>

  function ConflictsOf(m: ParamMap, name: Text): set<Text>
    requires name in m
  {
    Lowered(m[name].conflictsWith)
  }

  // A conflict that cannot be: with itself, with no parameter, or between two mandatory ones.
  predicate BadConflict(m: ParamMap, name: Text, other: Text)
    requires name in m
  {
    other == name || other !in m || (m[name].minOccurs > 0 && m[other].minOccurs > 0)
  }

  // Descriptions that differ at most in their conflicts.
  predicate SameButConflicts(m: ParamMap, m': ParamMap) {
    m.Keys == m'.Keys && forall n :: n in m ==> m'[n] == m[n].(conflictsWith := m'[n].conflictsWith)
  }

  // ---------- what the check finds, and what it leaves ----------

  // A declared conflict is found to be impossible; or it is possible, but the other parameter, which
  // comes later and has been told of it in lower case, finds it to be impossible.
  predicate Impossible(m: ParamMap, name: Text, other: Text)
    requires name in m
  {
    BadConflict(m, name, other) || (other in m && Less(name, other) && BadConflict(m, other, Lower(name)))
  }

  ghost predicate HasImpossible(m: ParamMap) {
    exists n, o :: n in m && o in ConflictsOf(m, n) && Impossible(m, n, o)
  }

  // The conflicts known once the given parameters have been looked at, in order: those declared; those
  // declared by a parameter, made known to the other one; and those that come back from there.
  ghost predicate Reached(m: ParamMap, seen: set<Text>, a: Text, b: Text)
    requires a in m
  {
    || b in ConflictsOf(m, a)
    || (exists k :: k in seen && k in m && a in ConflictsOf(m, k) && Lower(k) == b)
    || (exists k :: k in seen && k in m && Lower(k) == a && b in ConflictsOf(m, k) && b in m && b in seen && Less(k, b))
  }

  ghost predicate Closed(m: ParamMap, m': ParamMap) {
    && SameButConflicts(m, m')
    && forall n, o :: n in m ==> (o in ConflictsOf(m', n) <==> Reached(m, m.Keys, n, o))
  }

  // More conflicts than before, but none that is not reached.
  ghost predicate Grown(m: ParamMap, seen: set<Text>, from: ParamMap, to: ParamMap) {
    && SameButConflicts(m, from) && SameButConflicts(m, to)
    && (forall n :: n in m ==> ConflictsOf(from, n) <= ConflictsOf(to, n))
    && (forall n, o :: n in m && o in ConflictsOf(to, n) ==> Reached(m, seen, n, o))
  }

  // What one declared conflict calls for, when the parameter that declares it has been looked at.
  ghost predicate SettledPair(m: ParamMap, seen: set<Text>, to: ParamMap, n: Text, o: Text, have_error: bool)
    requires SameButConflicts(m, to) && n in m
  {
    && (BadConflict(m, n, o) ==> have_error)
    && (o in m ==>
          && Lower(n) in ConflictsOf(to, o)
          && (o in seen && Less(n, o) ==>
                && (Lower(n) in m ==> o in ConflictsOf(to, Lower(n)))
                && (BadConflict(m, o, Lower(n)) ==> have_error)))
  }

  // Everything the parameters looked at so far call for has been done.
  ghost predicate Settled(m: ParamMap, seen: set<Text>, to: ParamMap, have_error: bool)
    requires SameButConflicts(m, to)
  {
    forall n, o :: n in seen && n in m && o in ConflictsOf(m, n) ==> SettledPair(m, seen, to, n, o, have_error)
  }

  // The parameters looked at come before a given one.
  ghost predicate AllBefore(seen: set<Text>, name: Text) {
    forall k :: k in seen ==> Less(k, name)
  }

  function WithConflict(m: ParamMap, name: Text, other: Text): ParamMap
    requires other in m
  {
    m[other := m[other].(conflictsWith := m[other].conflictsWith + {name})]
  }

  lemma LoweredAdds(names: set<Text>, n: Text)
    ensures Lowered(names + {n}) == Lowered(names) + {Lower(n)}
  {
  }

  lemma ConflictIsLower(m: ParamMap, name: Text, other: Text)
    requires name in m && other in ConflictsOf(m, name)
    ensures Lower(other) == other
  {
    var c :| c in m[name].conflictsWith && Lower(c) == other;
    LowerIsIdempotent(c);
  }

  lemma LessIsStrict(a: Text, b: Text)
    requires Less(a, b)
    ensures a != b && !Less(b, a)
  {
    LessIsAtMost(a, b);
  }

  // A conflict known to a parameter may be made known to the other one.
  lemma ReachedBack(m: ParamMap, seen: set<Text>, name: Text, other: Text)
    requires name in m && other in m && Reached(m, seen, name, other) && AllBefore(seen, name)
    ensures Reached(m, seen + {name}, other, Lower(name))
  {
    hide Lower, ConflictsOf;
    if other !in ConflictsOf(m, name) {
      if k :| k in seen && k in m && name in ConflictsOf(m, k) && Lower(k) == other {
        ConflictIsLower(m, k, name);
      } else {
        var k :| k in seen && k in m && Lower(k) == name && other in ConflictsOf(m, k) && other in m
                 && other in seen && Less(k, other);
        LowerIsIdempotent(k);
      }
    }
  }

  // A bad conflict among those known comes from an impossible one that was declared.
  lemma BadIsImpossible(m: ParamMap, seen: set<Text>, name: Text, other: Text)
    requires name in m && Reached(m, seen, name, other) && AllBefore(seen, name) && BadConflict(m, name, other)
    ensures HasImpossible(m)
  {
    hide Lower, ConflictsOf;
    if other in ConflictsOf(m, name) {
      assert Impossible(m, name, other);
    } else if k :| k in seen && k in m && name in ConflictsOf(m, k) && Lower(k) == other {
      assert Impossible(m, k, name);
    } else {
      var k :| k in seen && k in m && Lower(k) == name && other in ConflictsOf(m, k) && other in m
               && other in seen && Less(k, other);
      assert Impossible(m, k, other);
    }
  }

  lemma ReachedMore(m: ParamMap, seen: set<Text>, more: set<Text>, a: Text, b: Text)
    requires a in m && Reached(m, seen, a, b) && seen <= more
    ensures Reached(m, more, a, b)
  {
  }

  lemma GrownMore(m: ParamMap, seen: set<Text>, more: set<Text>, from: ParamMap, to: ParamMap)
    requires Grown(m, seen, from, to) && seen <= more
    ensures Grown(m, more, from, to) && Grown(m, more, to, to)
  {
    hide Reached, ConflictsOf;
    forall n, o | n in m && o in ConflictsOf(to, n) ensures Reached(m, more, n, o) {
      ReachedMore(m, seen, more, n, o);
    }
  }

  lemma GrownNothing(m: ParamMap)
    ensures Grown(m, {}, m, m) && Settled(m, {}, m, false)
  {
  }

  lemma GrownSame(m: ParamMap, seen: set<Text>, from: ParamMap, to: ParamMap)
    requires Grown(m, seen, from, to)
    ensures SameButConflicts(m, from) && SameButConflicts(m, to)
  {
  }

  lemma KnownIsReached(m: ParamMap, seen: set<Text>, start: ParamMap, name: Text, c: Text)
    requires name in m && Grown(m, seen, start, start) && c in start[name].conflictsWith
    ensures Reached(m, seen, name, Lower(c))
  {
    hide Lower, Reached;
    assert Lower(c) in ConflictsOf(start, name);
  }

  lemma AddConflict(m: ParamMap, seen: set<Text>, start: ParamMap, now: ParamMap, name: Text, other: Text)
    requires Grown(m, seen, start, now) && other in m && Reached(m, seen, other, Lower(name))
    ensures Grown(m, seen, start, WithConflict(now, name, other))
    ensures Lower(name) in ConflictsOf(WithConflict(now, name, other), other)
    ensures forall n :: n in m ==> ConflictsOf(now, n) <= ConflictsOf(WithConflict(now, name, other), n)
  {
    hide Lower, Reached;
    LoweredAdds(now[other].conflictsWith, name);
    hide Lowered;
    var to := WithConflict(now, name, other);
    assert ConflictsOf(to, other) == ConflictsOf(now, other) + {Lower(name)};
    assert forall n :: n in m && n != other ==> ConflictsOf(to, n) == ConflictsOf(now, n);
  }

  // ---------- the conflicts of one parameter ----------

  // The conflicts walked so far are known to the other side, and the bad ones reported.
  ghost predicate Walked(m: ParamMap, to: ParamMap, name: Text, names: seq<Text>, have_error: bool)
    requires name in m && SameButConflicts(m, to)
  {
    forall j :: 0 <= j < |names| ==>
      && (Lower(names[j]) in m ==> Lower(name) in ConflictsOf(to, Lower(names[j])))
      && (BadConflict(m, name, Lower(names[j])) ==> have_error)
  }

  // All conflicts a parameter had are known to the other side, and the bad ones reported.
  ghost predicate Mirrored(m: ParamMap, start: ParamMap, to: ParamMap, name: Text, have_error: bool)
    requires name in m && SameButConflicts(m, start) && SameButConflicts(m, to)
  {
    forall o :: o in ConflictsOf(start, name) ==>
      (o in m ==> Lower(name) in ConflictsOf(to, o)) && (BadConflict(m, name, o) ==> have_error)
  }

  lemma WalkedNone(m: ParamMap, to: ParamMap, name: Text)
    requires name in m && SameButConflicts(m, to)
    ensures Walked(m, to, name, [], false)
  {
  }

  lemma WalkedOne(m: ParamMap, before: ParamMap, to: ParamMap, name: Text, names: seq<Text>, last: Text, e: bool,
                  e': bool)
    requires name in m && SameButConflicts(m, before) && SameButConflicts(m, to)
    requires Walked(m, before, name, names, e) && (e ==> e')
    requires forall n :: n in m ==> ConflictsOf(before, n) <= ConflictsOf(to, n)
    requires Lower(last) in m ==> Lower(name) in ConflictsOf(to, Lower(last))
    requires BadConflict(m, name, Lower(last)) ==> e'
    ensures Walked(m, to, name, names + [last], e')
  {
    hide Lower, ConflictsOf;
  }

  lemma WalkedAll(m: ParamMap, start: ParamMap, to: ParamMap, name: Text, names: seq<Text>, have_error: bool)
    requires name in m && SameButConflicts(m, start) && SameButConflicts(m, to)
    requires Walked(m, to, name, names, have_error)
    requires forall c :: c in start[name].conflictsWith ==> c in names
    ensures Mirrored(m, start, to, name, have_error)
  {
    hide Lower;
    forall o | o in ConflictsOf(start, name) ensures exists j :: 0 <= j < |names| && Lower(names[j]) == o {
      var d :| d in start[name].conflictsWith && Lower(d) == o;
      assert d in names;
    }
  }

  // What was settled stays settled, and so is what the next parameter calls for.
  lemma SettledNext(m: ParamMap, seen: set<Text>, start: ParamMap, to: ParamMap, name: Text, e: bool, e': bool)
    requires name in m && SameButConflicts(m, start) && SameButConflicts(m, to)
    requires AllBefore(seen, name) && Settled(m, seen, start, e) && Mirrored(m, start, to, name, e') && (e ==> e')
    requires forall n :: n in m ==> ConflictsOf(m, n) <= ConflictsOf(start, n) <= ConflictsOf(to, n)
    ensures Settled(m, seen + {name}, to, e')
  {
    hide Lower, ConflictsOf, BadConflict, Less;
    forall n, o | n in seen + {name} && n in m && o in ConflictsOf(m, n)
      ensures SettledPair(m, seen + {name}, to, n, o, e')
    {
      ConflictIsLower(m, n, o);
      if n != name {
        assert SettledPair(m, seen, start, n, o, e);
      }
      if Less(n, o) {
        LessIsStrict(n, o);
      }
    }
  }

  lemma SettledAll(m: ParamMap, to: ParamMap, have_error: bool)
    requires Grown(m, m.Keys, m, to) && Settled(m, m.Keys, to, have_error) && (have_error ==> HasImpossible(m))
    ensures Closed(m, to) && (have_error <==> HasImpossible(m))
  {
    hide Lower, ConflictsOf, BadConflict, Less;
    forall n, o | n in m && Reached(m, m.Keys, n, o) ensures o in ConflictsOf(to, n) {
      if o !in ConflictsOf(m, n) {
        if k :| k in m && n in ConflictsOf(m, k) && Lower(k) == o {
          assert SettledPair(m, m.Keys, to, k, n, have_error);
        } else {
          var k :| k in m && Lower(k) == n && o in ConflictsOf(m, k) && o in m && Less(k, o);
          assert SettledPair(m, m.Keys, to, k, o, have_error);
        }
      }
    }
    if n, o :| n in m && o in ConflictsOf(m, n) && Impossible(m, n, o) {
      assert SettledPair(m, m.Keys, to, n, o, have_error);
    }
  }

  class StoredQueryConfig {
    var param_map: ParamMap

    constructor (param_map: ParamMap)
      ensures this.param_map == param_map
    {
      this.param_map := param_map;
    }

    // One parameter of the outer loop: its conflicts are checked, and made known to the other side.
    method CheckConflictsOf(name: Text, ghost m: ParamMap, ghost seen: set<Text>) returns (have_error: bool)
      requires name in m && AllBefore(seen, name) && Grown(m, seen, m, param_map)
      modifies this
      ensures Grown(m, seen + {name}, old(param_map), param_map)
      ensures SameButConflicts(m, old(param_map)) && Mirrored(m, old(param_map), param_map, name, have_error)
      ensures have_error ==> HasImpossible(m)
    {
      hide Lower, Lowered, Grown, ConflictsOf, HasImpossible, Reached, WithConflict, Mirrored, Walked,
           SameButConflicts, AllBefore;
      GrownSame(m, seen, m, param_map);
      have_error := false;
      var names := InOrder(param_map[name].conflictsWith);
      ghost var start := param_map;
      GrownMore(m, seen, seen, m, start);
      GrownMore(m, seen, seen + {name}, m, start);
      WalkedNone(m, start, name);
      for i := 0 to |names|
        invariant Grown(m, seen + {name}, start, param_map) && SameButConflicts(m, param_map)
        invariant Walked(m, param_map, name, names[..i], have_error)
        invariant have_error ==> HasImpossible(m)
      {
        GrownSame(m, seen + {name}, start, param_map);
        var n2 := Lower(names[i]);
        KnownIsReached(m, seen, start, name, names[i]);
        if BadConflict(m, name, n2) {
          BadIsImpossible(m, seen, name, n2);
        }
        ghost var before, error_before := param_map, have_error;
        if n2 == name {
          have_error := true;
        }
        if n2 !in param_map {
          have_error := true;
        } else {
          var desc2 := param_map[n2];
          if param_map[name].minOccurs > 0 && desc2.minOccurs > 0 {
            have_error := true;
          }
          param_map := WithConflict(param_map, name, n2);
          ReachedBack(m, seen, name, n2);
          AddConflict(m, seen + {name}, start, before, name, n2);
        }
        GrownSame(m, seen + {name}, start, param_map);
        WalkedOne(m, before, param_map, name, names[..i], names[i], error_before, have_error);
        assert names[..i + 1] == names[..i] + [names[i]];
      }
      assert names[..|names|] == names;
      WalkedAll(m, start, param_map, name, names, have_error);
    }

    // Reports whether some conflict is impossible, and leaves every conflict known to both sides, as
    // far as it can be told to a name in lower case.
    method CheckParamConflicts() returns (have_error: bool)
      modifies this
      ensures have_error <==> HasImpossible(old(param_map))
      ensures Closed(old(param_map), param_map)
    {
      hide Lower, Grown, ConflictsOf, Mirrored, Closed, SameButConflicts, HasImpossible, Settled, AllBefore, Less,
           AllOf, InOrder;
      have_error := false;
      ghost var m := param_map;
      ghost var seen: set<Text> := {};
      GrownNothing(m);
      GrownSame(m, seen, m, m);
      var names := InOrder(param_map.Keys);
      InOrderSorted(param_map.Keys);
      AllOfKeys([], {});
      for i := 0 to |names|
        invariant seen == AllOf(names[..i])
        invariant Grown(m, seen, m, param_map) && SameButConflicts(m, param_map)
        invariant Settled(m, seen, param_map, have_error)
        invariant have_error ==> HasImpossible(m)
      {
        ghost var before := param_map;
        assert names[i] in m;
        NextIsLater(names, i);
        var error := CheckConflictsOf(names[i], m, seen);
        GrownBoth(m, seen, seen + {names[i]}, before, param_map);
        MirroredMore(m, before, param_map, names[i], error, have_error || error);
        SettledNext(m, seen, before, param_map, names[i], have_error, have_error || error);
        seen := seen + {names[i]};
        have_error := have_error || error;
      }
      assert names[..|names|] == names;
      AllOfKeys(names, m.Keys);
      SettledAll(m, param_map, have_error);
    }
  }

  ghost function AllOf(names: seq<Text>): set<Text> {
    set n | n in names
  }

  lemma AllOfKeys(names: seq<Text>, keys: set<Text>)
    requires forall n :: n in names <==> n in keys
    ensures AllOf(names) == keys
  {
  }

  lemma NextIsLater(names: seq<Text>, i: nat)
    requires i < |names| && forall j, k :: 0 <= j < k < |names| ==> Less(names[j], names[k])
    ensures AllBefore(AllOf(names[..i]), names[i]) && AllOf([]) == {}
    ensures names[..i + 1] == names[..i] + [names[i]] && AllOf(names[..i + 1]) == AllOf(names[..i]) + {names[i]}
  {
  }

  lemma GrownBoth(m: ParamMap, seen: set<Text>, more: set<Text>, a: ParamMap, b: ParamMap)
    requires Grown(m, seen, m, a) && Grown(m, more, a, b)
    ensures Grown(m, more, m, b) && SameButConflicts(m, b)
    ensures forall n :: n in m ==> ConflictsOf(m, n) <= ConflictsOf(a, n) <= ConflictsOf(b, n)
  {
    hide Reached, ConflictsOf;
  }

  lemma MirroredMore(m: ParamMap, start: ParamMap, to: ParamMap, name: Text, e: bool, e': bool)
    requires name in m && SameButConflicts(m, start) && SameButConflicts(m, to)
    requires Mirrored(m, start, to, name, e) && (e ==> e')
    ensures Mirrored(m, start, to, name, e')
  {
  }

  // ---------- names in lower case ----------

  // Every description is kept under its name, in lower case.
  predicate LowerNames(m: ParamMap) {
    forall n :: n in m ==> m[n].name == n && IsLower(n)
  }

  ghost predicate HasBadConflict(m: ParamMap) {
    exists n, o :: n in m && o in ConflictsOf(m, n) && BadConflict(m, n, o)
  }

  // The conflicts declared by either of the two parameters.
  ghost predicate Declared(m: ParamMap, a: Text, b: Text) {
    (a in m && b in ConflictsOf(m, a)) || (b in m && a in ConflictsOf(m, b))
  }

  // The conflicts of m' are those declared in m by either side.
  ghost predicate Symmetric(m: ParamMap, m': ParamMap) {
    && SameButConflicts(m, m')
    && forall n, o :: n in m ==> (o in ConflictsOf(m', n) <==> Declared(m, n, o))
  }

  // With names in lower case the check finds exactly the bad conflicts that are declared, and leaves
  // exactly the conflicts declared by either side.
  lemma LowerNamesSymmetric(m: ParamMap, m': ParamMap)
    requires LowerNames(m) && Closed(m, m')
    ensures Symmetric(m, m') && (HasImpossible(m) <==> HasBadConflict(m))
    ensures HasImpossible(m) <==>
      exists n, o :: n in m && o in ConflictsOf(m, n) &&
        (o == n || o !in m || (m[n].minOccurs > 0 && m[o].minOccurs > 0))
  {
    hide Lower, ConflictsOf, Less;
    forall n, o | n in m ensures Reached(m, m.Keys, n, o) <==> Declared(m, n, o) {
      if o in m && n in ConflictsOf(m, o) {
        assert Lower(o) == o;
      }
    }
    if n, o :| n in m && o in ConflictsOf(m, n) && Impossible(m, n, o) {
      assert BadConflict(m, n, o);
    }
    if n, o :| n in m && o in ConflictsOf(m, n) && BadConflict(m, n, o) {
      assert Impossible(m, n, o);
    }
  }

  // A possible conflict declared by a parameter whose name has capital letters, with one that no
  // parameter shares in lower case: it is reported exactly when the parameter comes before the other
  // one; and the other one never learns of it under the name of the parameter.
  lemma CapitalName(m: ParamMap, m': ParamMap, name: Text, other: Text)
    requires Closed(m, m') && name in m && !IsLower(name) && Lower(name) !in m
    requires other in m && other in ConflictsOf(m, name) && !BadConflict(m, name, other)
    ensures Impossible(m, name, other) <==> Less(name, other)
    ensures Lower(name) in ConflictsOf(m', other) && name !in ConflictsOf(m', other)
  {
    hide Lower, Less;
    if name in ConflictsOf(m', other) {
      ConflictIsLower(m', other, name);
    }
    assert Reached(m, m.Keys, other, Lower(name));
    if Less(name, other) {
      assert BadConflict(m, other, Lower(name));
    }
  }

  lemma BadEitherWay(m: ParamMap, a: Text, b: Text)
    requires a in m && Declared(m, a, b) && BadConflict(m, a, b)
    ensures HasBadConflict(m)
  {
    if b !in ConflictsOf(m, a) {
      assert a in ConflictsOf(m, b) && BadConflict(m, b, a);
    }
  }

  // ---------- who knows of a conflict ----------

  // Every conflict is one with a parameter, and that parameter knows of it as well.
  predicate KnownToBoth(m: ParamMap) {
    forall a, b :: a in m && b in ConflictsOf(m, a) ==> b in m && a in ConflictsOf(m, b)
  }

  // The parameters that declare a conflict have names in lower case.
  predicate LowerDeclarers(m: ParamMap) {
    forall n :: n in m && m[n].conflictsWith != {} ==> IsLower(n)
  }

  lemma DeclaresOne(m: ParamMap, name: Text)
    requires name in m
    ensures m[name].conflictsWith != {} <==> ConflictsOf(m, name) != {}
  {
    if c :| c in m[name].conflictsWith {
      assert Lower(c) in ConflictsOf(m, name);
    }
  }

  lemma Told(m: ParamMap, m': ParamMap, name: Text, other: Text)
    requires Closed(m, m') && name in m && other in ConflictsOf(m, name) && other in m
    ensures other in ConflictsOf(m', name) && Lower(name) in ConflictsOf(m', other)
  {
    hide Lower, ConflictsOf;
    assert Reached(m, m.Keys, name, other) && Reached(m, m.Keys, other, Lower(name));
  }

  // When no error is reported, every conflict is known to both sides by name exactly when only names in
  // lower case declare conflicts; all conflicts are possible then.
  lemma KnownExactly(m: ParamMap, m': ParamMap)
    requires Closed(m, m') && !HasImpossible(m)
    ensures KnownToBoth(m') <==> LowerDeclarers(m)
    ensures LowerDeclarers(m) ==> !HasBadConflict(m')
  {
    hide Lower, ConflictsOf, Less, Reached, BadConflict;
    if LowerDeclarers(m) {
      forall a, b | a in m && b in ConflictsOf(m', a)
        ensures b in m && a in ConflictsOf(m', b) && !BadConflict(m', a, b)
      {
        LowerConflict(m, m', a, b);
      }
    } else {
      var n :| n in m && m[n].conflictsWith != {} && !IsLower(n);
      CapitalDeclarer(m, m', n);
    }
  }

  lemma CapitalDeclarer(m: ParamMap, m': ParamMap, name: Text)
    requires Closed(m, m') && !HasImpossible(m) && name in m && m[name].conflictsWith != {} && !IsLower(name)
    ensures !KnownToBoth(m')
  {
    hide Lower, Less, Reached, Lowered;
    DeclaresOne(m, name);
    var o :| o in ConflictsOf(m, name);
    assert !Impossible(m, name, o);
    Told(m, m', name, o);
    NeverTold(m', o, name);
  }

  lemma NeverTold(m: ParamMap, name: Text, other: Text)
    requires name in m && !IsLower(other)
    ensures other !in ConflictsOf(m, name)
  {
    if other in ConflictsOf(m, name) {
      ConflictIsLower(m, name, other);
      assert false;
    }
  }

  // A conflict that only names in lower case can have declared.
  lemma LowerConflict(m: ParamMap, m': ParamMap, a: Text, b: Text)
    requires Closed(m, m') && !HasImpossible(m) && LowerDeclarers(m) && a in m && b in ConflictsOf(m', a)
    ensures b in m && a in ConflictsOf(m', b) && !BadConflict(m', a, b)
  {
    hide Lower, ConflictsOf, Less;
    assert Reached(m, m.Keys, a, b);
    forall k | k in m && ConflictsOf(m, k) != {} ensures Lower(k) == k {
      DeclaresOne(m, k);
    }
    if b in ConflictsOf(m, a) {
      assert !Impossible(m, a, b);
      Told(m, m', a, b);
    } else {
      assert b in m && a in ConflictsOf(m, b);
      assert !Impossible(m, b, a);
      Told(m, m', b, a);
    }
  }
}
