/** RequestParameterMap: request parameters under their names, in lower case unless the server
    distinguishes letter case. */
module RequestParameterMaps {
  import opened Texts
  import opened Values
  import opened Multimaps

  datatype ParamInfo = ParamInfo(realName: Text, value: Value)

  function KeyOf(caseSensitive: bool, name: Text): Text {
    if caseSensitive then name else Lower(name)
  }

  function PlainValues(infos: seq<ParamInfo>): (r: seq<Value>)
    ensures |r| == |infos|
    ensures forall i :: 0 <= i < |infos| ==> r[i] == infos[i].value
  {
    seq(|infos|, i requires 0 <= i < |infos| => infos[i].value)
  }

  // get_map: the values under their real names, or under the keys.
  function Plain(params: Multimap<ParamInfo>, realNames: bool): Multimap<Value> {
    if params == [] then []
    else
      var last := params[|params| - 1];
      var name := if realNames then last.value.realName else last.key;
      Insert(Plain(params[..|params| - 1], realNames), name, last.value.value)
  }

  // The values given under one real name, in the order of the map.
  function Given(params: Multimap<ParamInfo>, name: Text): seq<Value> {
    if params == [] then []
    else
      var last := params[|params| - 1];
      Given(params[..|params| - 1], name) + if last.value.realName == name then [last.value.value] else []
  }

  lemma {:induction false} PlainSorted(params: Multimap<ParamInfo>, realNames: bool)
    ensures Sorted(Plain(params, realNames))
  {
    if params != [] {
      var last := params[|params| - 1];
      PlainSorted(params[..|params| - 1], realNames);
      var name := if realNames then last.value.realName else last.key;
      InsertSorted(Plain(params[..|params| - 1], realNames), name, last.value.value);
    }
  }

  // By real names, every name has exactly the values given under it.
  lemma {:induction false} PlainByRealName(params: Multimap<ParamInfo>, name: Text)
    ensures ValuesOf(Plain(params, true), name) == Given(params, name)
  {
    if params != [] {
      var init, last := params[..|params| - 1], params[|params| - 1];
      PlainByRealName(init, name);
      PlainSorted(init, true);
      InsertValues(Plain(init, true), last.value.realName, last.value.value, name);
    }
  }

  // By keys, every key has its values in the order they were inserted.
  lemma {:induction false} PlainByKey(params: Multimap<ParamInfo>, key: Text)
    ensures ValuesOf(Plain(params, false), key) == PlainValues(ValuesOf(params, key))
  {
    if params != [] {
      var init, last := params[..|params| - 1], params[|params| - 1];
      PlainByKey(init, key);
      PlainSorted(init, false);
      InsertValues(Plain(init, false), last.key, last.value.value, key);
    }
  }

  class RequestParameterMap {
    const case_sensitive_params: bool
    var params: Multimap<ParamInfo>

    ghost predicate Valid()
      reads this
    {
      && Sorted(params)
      && forall i :: 0 <= i < |params| ==> params[i].key == KeyOf(case_sensitive_params, params[i].value.realName)
    }

    constructor (case_sensitive_params: bool)
      ensures Valid() && params == [] && this.case_sensitive_params == case_sensitive_params
    {
      this.case_sensitive_params := case_sensitive_params;
      params := [];
    }

    method InsertValue(name: Text, value: Value)
      requires Valid()
      modifies this
      ensures Valid()
      ensures Gained(old(params), params, KeyOf(case_sensitive_params, name), [ParamInfo(name, value)])
    {
      hide Lower, ValuesOf, Insert, Sorted;
      var key := KeyOf(case_sensitive_params, name);
      InsertSorted(params, key, ParamInfo(name, value));
      InsertKeepsEntries(params, key, ParamInfo(name, value));
      forall k ensures ValuesOf(Insert(params, key, ParamInfo(name, value)), k) ==
        ValuesOf(params, k) + if k == key then [ParamInfo(name, value)] else []
      {
        InsertValues(params, key, ParamInfo(name, value), k);
      }
      ghost var before := params;
      params := Insert(params, key, ParamInfo(name, value));
      forall i | 0 <= i < |params| ensures params[i].key == KeyOf(case_sensitive_params, params[i].value.realName) {
        assert params[i] in multiset(params);
        assert params[i] in before || params[i] == Entry(key, ParamInfo(name, value));
      }
    }

    method GetValues(name: Text) returns (result: seq<Value>)
      ensures result == PlainValues(ValuesOf(params, KeyOf(case_sensitive_params, name)))
      ensures result == ValuesOf(Plain(params, false), KeyOf(case_sensitive_params, name))
    {
      PlainByKey(params, KeyOf(case_sensitive_params, name));
      result := PlainValues(ValuesOf(params, KeyOf(case_sensitive_params, name)));
    }

    method GetMap(case_sensitive: bool) returns (result: Multimap<Value>)
      ensures result == Plain(params, case_sensitive) && Sorted(result)
    {
      result := [];
      for i := 0 to |params|
        invariant result == Plain(params[..i], case_sensitive)
      {
        assert params[..i + 1][..i] == params[..i];
        var item := params[i];
        result := Insert(result, if case_sensitive then item.value.realName else item.key, item.value.value);
      }
      assert params[..|params|] == params;
      PlainSorted(params, case_sensitive);
    }
  }
}
