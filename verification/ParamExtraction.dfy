/** StoredQuery::extract_kvp_parameters and extract_xml_parameters: one pass over the supplied
    parameters. */
module ParamExtraction {
  import opened Wrappers
  import opened Texts
  import opened Sequences
  import opened Values
  import opened Multimaps
  import opened SortedKeys
  import opened Admission
  import opened RequestParameterMaps

  // A supplied parameter: its name, and its value as text or as the text of its XML element.
  datatype Item = Item(name: Text, raw: Text)

  // caseMap stays empty when the server distinguishes letter case in parameter names.
  datatype Config = Config(params: ParamMap, caseMap: map<Text, Text>, caseSensitive: bool)

  // Reads the values of an item and checks them against the limits; None is an exception.
  type Reader = (ParamDesc, Item) -> Option<seq<Value>>

  // parse_param_desc: every description is found under its name in lower case, and nothing else is.
  predicate CaseMapped(c: Config) {
    if c.caseSensitive then c.caseMap == map[]
    else
      && (forall n :: n in c.params ==> Lower(n) in c.caseMap && c.caseMap[Lower(n)] == n)
      && (forall k :: k in c.caseMap ==> c.caseMap[k] in c.params && Lower(c.caseMap[k]) == k)
  }

  // Every description is kept under its name, and found as above.
  predicate Loaded(c: Config) {
    CaseMapped(c) && forall n :: n in c.params ==> c.params[n].name == n
  }

  function GetParamDesc(c: Config, name: Text): (r: Option<ParamDesc>)
    requires CaseMapped(c)
    ensures r.Some? <==> exists n :: n in c.params && (n == name || (!c.caseSensitive && Lower(n) == Lower(name)))
    ensures r.Some? ==> exists n :: n in c.params && c.params[n] == r.value && Lower(n) == Lower(name)
  {
    if c.caseMap == map[] then
      if name in c.params then Some(c.params[name]) else None
    else
      var tmp := Lower(name);
      if tmp in c.caseMap then Some(c.params[c.caseMap[tmp]]) else None
  }

  // ---------- the pass over the request ----------

  // Names as they are spelled in the request.
  ghost function Spelled(c: Config, items: seq<Item>): multiset<Text>
    requires CaseMapped(c)
  {
    if items == [] then multiset{}
    else
      var name := items[|items| - 1].name;
      Spelled(c, items[..|items| - 1]) + if GetParamDesc(c, name).Some? then multiset{name} else multiset{}
  }

  ghost function Forbidden(c: Config, items: seq<Item>): set<Text>
    requires CaseMapped(c)
  {
    if items == [] then {}
    else
      var desc := GetParamDesc(c, items[|items| - 1].name);
      Forbidden(c, items[..|items| - 1]) + if desc.Some? then Lowered(desc.value.conflictsWith) else {}
  }

  ghost predicate Admits(c: Config, read: Reader, earlier: seq<Item>, item: Item)
    requires CaseMapped(c)
  {
    var desc := GetParamDesc(c, item.name);
    desc.Some? ==>
      && item.name !in Forbidden(c, earlier)
      && Spelled(c, earlier)[item.name] + 1 <= desc.value.maxOccurs
      && read(desc.value, item).Some?
  }

  ghost predicate Passes(c: Config, read: Reader, items: seq<Item>)
    requires CaseMapped(c)
  {
    items == [] || (Passes(c, read, items[..|items| - 1]) && Admits(c, read, items[..|items| - 1], items[|items| - 1]))
  }

  ghost predicate Enough(c: Config, supplied: multiset<Text>) {
    forall n :: n in c.params ==> c.params[n].minOccurs <= supplied[n]
  }

  ghost predicate Accepted(c: Config, read: Reader, items: seq<Item>)
    requires CaseMapped(c)
  {
    Passes(c, read, items) && Enough(c, Spelled(c, items))
  }

  // ---------- the extraction ----------

  // No unknown parameter is among the forbidden ones. The report of one would have no description to
  // use, which C++ leaves undefined.
  ghost predicate ForbiddenOnesKnown(c: Config, items: seq<Item>)
    requires CaseMapped(c)
  {
    forall i :: 0 <= i < |items| && GetParamDesc(c, items[i].name).None? ==> items[i].name !in Forbidden(c, items[..i])
  }

  lemma NothingUnknown(c: Config)
    requires CaseMapped(c)
    ensures ForbiddenOnesKnown(c, [])
  {
  }

  lemma NextKnown(c: Config, items: seq<Item>, i: nat)
    requires CaseMapped(c) && i < |items|
    ensures ForbiddenOnesKnown(c, items) ==> ForbiddenOnesKnown(c, items[..i + 1])
    ensures ForbiddenOnesKnown(c, items[..i + 1]) <==>
            ForbiddenOnesKnown(c, items[..i]) &&
            (GetParamDesc(c, items[i].name).None? ==> items[i].name !in Forbidden(c, items[..i]))
  {
    hide CaseMapped, GetParamDesc, Forbidden;
    var some, more := items[..i], items[..i + 1];
    assert forall j :: 0 <= j <= i ==> some[..j] == items[..j] && more[..j] == items[..j];
    assert forall j :: 0 <= j < i ==> some[j] == items[j] == more[j];
    assert more[i] == items[i];
  }

  ghost function Skipped(c: Config, items: seq<Item>): seq<Item>
    requires CaseMapped(c)
  {
    if items == [] then []
    else
      var last := items[|items| - 1];
      Skipped(c, items[..|items| - 1]) + if GetParamDesc(c, last.name).None? then [last] else []
  }

  ghost function Infos(name: Text, values: seq<Value>): (r: seq<ParamInfo>)
    ensures |r| == |values|
    ensures forall i :: 0 <= i < |values| ==> r[i] == ParamInfo(name, values[i])
  {
    seq(|values|, i requires 0 <= i < |values| => ParamInfo(name, values[i]))
  }

  // The values a request gives for one key, in the order of the request.
  ghost function Extracted(c: Config, read: Reader, items: seq<Item>, key: Text): seq<ParamInfo>
    requires CaseMapped(c)
  {
    if items == [] then []
    else
      var last := items[|items| - 1];
      var desc := GetParamDesc(c, last.name);
      Extracted(c, read, items[..|items| - 1], key) +
      if desc.Some? && read(desc.value, last).Some? && KeyOf(c.caseSensitive, last.name) == key
      then Infos(last.name, read(desc.value, last).value) else []
  }

  ghost predicate Holds(params: Multimap<ParamInfo>, c: Config, read: Reader, items: seq<Item>)
    requires CaseMapped(c)
  {
    forall key :: ValuesOf(params, key) == Extracted(c, read, items, key)
  }

  // ---------- the values of a key ----------

  // What is read from an item for one key; unknown items give nothing.
  ghost function ReadFor(c: Config, read: Reader, item: Item, key: Text): seq<Value>
    requires CaseMapped(c)
  {
    var desc := GetParamDesc(c, item.name);
    if desc.None? || (if c.caseSensitive then item.name else Lower(item.name)) != key then []
    else
      var values := read(desc.value, item);
      if values.None? then [] else values.value
  }

  // The values a request gives for one key: item by item, and within an item in the order read.
  ghost function GivenValues(c: Config, read: Reader, items: seq<Item>, key: Text): seq<Value>
    requires CaseMapped(c)
  {
    if items == [] then [] else ReadFor(c, read, items[0], key) + GivenValues(c, read, items[1..], key)
  }

  ghost function Named(name: Text, n: nat): (r: seq<Text>)
    ensures |r| == n
  {
    seq(n, _ => name)
  }

  // The name of its item, for every one of these values.
  ghost function GivenNames(c: Config, read: Reader, items: seq<Item>, key: Text): seq<Text>
    requires CaseMapped(c)
  {
    if items == [] then []
    else
      Named(items[0].name, |ReadFor(c, read, items[0], key)|) + GivenNames(c, read, items[1..], key)
  }

  ghost function NamesIn(infos: seq<ParamInfo>): (r: seq<Text>)
    ensures |r| == |infos|
    ensures forall i :: 0 <= i < |infos| ==> r[i] == infos[i].realName
  {
    seq(|infos|, i requires 0 <= i < |infos| => infos[i].realName)
  }

  // A map with exactly these values under every key, each with the spelling of its item.
  ghost predicate HoldsGiven(params: Multimap<ParamInfo>, c: Config, read: Reader, items: seq<Item>)
    requires CaseMapped(c)
  {
    forall key ::
      && PlainValues(ValuesOf(params, key)) == GivenValues(c, read, items, key)
      && NamesIn(ValuesOf(params, key)) == GivenNames(c, read, items, key)
  }

  lemma InfosParts(name: Text, values: seq<Value>)
    ensures PlainValues(Infos(name, values)) == values && NamesIn(Infos(name, values)) == Named(name, |values|)
  {
  }

  lemma JoinedParts(a: seq<ParamInfo>, b: seq<ParamInfo>)
    ensures PlainValues(a + b) == PlainValues(a) + PlainValues(b)
    ensures NamesIn(a + b) == NamesIn(a) + NamesIn(b)
  {
  }

  lemma ExtractedLast(c: Config, read: Reader, items: seq<Item>, key: Text)
    requires CaseMapped(c) && items != []
    ensures var init, last := items[..|items| - 1], items[|items| - 1];
      Extracted(c, read, items, key) == Extracted(c, read, init, key) + Infos(last.name, ReadFor(c, read, last, key))
  {
    hide CaseMapped, GetParamDesc, Lower;
  }

  lemma {:induction false} GivenLast(c: Config, read: Reader, items: seq<Item>, key: Text)
    requires CaseMapped(c) && items != []
    ensures var init, last := items[..|items| - 1], items[|items| - 1];
      && GivenValues(c, read, items, key) == GivenValues(c, read, init, key) + ReadFor(c, read, last, key)
      && GivenNames(c, read, items, key) ==
         GivenNames(c, read, init, key) + Named(last.name, |ReadFor(c, read, last, key)|)
  {
    hide CaseMapped, ReadFor, Named;
    var init, last := items[..|items| - 1], items[|items| - 1];
    if |items| > 1 {
      GivenLast(c, read, items[1..], key);
      assert items[1..][..|items| - 2] == init[1..];
      Regroup(ReadFor(c, read, items[0], key), GivenValues(c, read, init[1..], key), ReadFor(c, read, last, key));
      Regroup(Named(items[0].name, |ReadFor(c, read, items[0], key)|), GivenNames(c, read, init[1..], key),
              Named(last.name, |ReadFor(c, read, last, key)|));
    } else {
      assert items[1..] == [] && init == [];
    }
  }

  lemma {:induction false} ExtractedIsGiven(c: Config, read: Reader, items: seq<Item>, key: Text)
    requires CaseMapped(c)
    ensures PlainValues(Extracted(c, read, items, key)) == GivenValues(c, read, items, key)
    ensures NamesIn(Extracted(c, read, items, key)) == GivenNames(c, read, items, key)
  {
    hide CaseMapped, GetParamDesc, Lower, ReadFor, Infos, Named, PlainValues, NamesIn;
    if items == [] {
      NothingExtracted();
    } else {
      var init, last := items[..|items| - 1], items[|items| - 1];
      ExtractedIsGiven(c, read, init, key);
      ExtractedLast(c, read, items, key);
      GivenLast(c, read, items, key);
      InfosParts(last.name, ReadFor(c, read, last, key));
      hide Extracted, GivenValues, GivenNames;
      JoinedParts(Extracted(c, read, init, key), Infos(last.name, ReadFor(c, read, last, key)));
    }
  }

  lemma NothingExtracted()
    ensures PlainValues([]) == [] && NamesIn([]) == []
  {
  }

  lemma HoldsIsGiven(params: Multimap<ParamInfo>, c: Config, read: Reader, items: seq<Item>)
    requires CaseMapped(c) && Holds(params, c, read, items)
    ensures HoldsGiven(params, c, read, items)
  {
    hide CaseMapped, Extracted, GivenValues, GivenNames, ValuesOf;
    forall key
      ensures PlainValues(ValuesOf(params, key)) == GivenValues(c, read, items, key)
      ensures NamesIn(ValuesOf(params, key)) == GivenNames(c, read, items, key)
    {
      ExtractedIsGiven(c, read, items, key);
    }
  }

  // Read back as a plain map, the parameters have exactly these values under every key.
  lemma PlainIsGiven(params: Multimap<ParamInfo>, c: Config, read: Reader, items: seq<Item>, key: Text)
    requires CaseMapped(c) && HoldsGiven(params, c, read, items)
    ensures ValuesOf(Plain(params, false), key) == GivenValues(c, read, items, key)
  {
    PlainByKey(params, key);
  }

  // ---------- the methods ----------

  method InsertKvpValues(params: RequestParameterMap, name: Text, values: seq<Value>)
    requires params.Valid()
    modifies params
    ensures params.Valid()
    ensures Gained(old(params.params), params.params, KeyOf(params.case_sensitive_params, name), Infos(name, values))
  {
    hide ValuesOf, RequestParameterMap.Valid, KeyOf;
    for i := 0 to |values|
      invariant params.Valid()
      invariant Gained(old(params.params), params.params, KeyOf(params.case_sensitive_params, name),
                       Infos(name, values[..i]))
    {
      params.InsertValue(name, values[i]);
      assert Infos(name, values[..i]) + [ParamInfo(name, values[i])] == Infos(name, values[..i + 1]);
    }
    assert values[..|values|] == values;
  }

  class StoredQuery {
    var params: RequestParameterMap
    var skipped_params: seq<Item>

    constructor ()
    {
      params := new RequestParameterMap(false);
      skipped_params := [];
    }

    // False stands for an exception, or for the undefined report of an unknown forbidden parameter.
    method ExtractKvpParameters(request: seq<Item>, config: Config, read: Reader) returns (ok: bool)
      requires Loaded(config)
      modifies this
      ensures ok <==> Accepted(config, read, request) && ForbiddenOnesKnown(config, request)
      ensures ok ==> fresh(params) && params.Valid() && HoldsGiven(params.params, config, read, request)
      ensures ok ==> skipped_params == Skipped(config, request)
    {
      hide GetParamDesc, Lower, CaseMapped, ConflictsOf, Holds, Lowered, KeyOf, RequestParameterMap.Valid,
           ForbiddenOnesKnown, HoldsGiven, Enough;
      params := new RequestParameterMap(config.caseSensitive);
      skipped_params := [];
      var param_name_set: multiset<Text> := multiset{};
      var forbidden: set<Text> := {};
      HoldsNothing(params.params, config, read);
      NothingUnknown(config);
      for i := 0 to |request|
        invariant fresh(params) && params.Valid() && params.case_sensitive_params == config.caseSensitive
        invariant Passes(config, read, request[..i]) && Holds(params.params, config, read, request[..i])
        invariant forbidden == Forbidden(config, request[..i]) && param_name_set == Spelled(config, request[..i])
        invariant skipped_params == Skipped(config, request[..i])
        invariant ForbiddenOnesKnown(config, request[..i])
      {
        NextItem(config, read, request, i);
        NextKnown(config, request, i);
        var item := request[i];
        var param_desc := GetParamDesc(config, item.name);
        if item.name in forbidden {
          return false;
        }
        ghost var before := params.params;
        if param_desc.None? {
          skipped_params := skipped_params + [item];
        } else {
          if param_name_set[item.name] + 1 > param_desc.value.maxOccurs {
            return false;
          }
          var values := read(param_desc.value, item);
          if values.None? {
            return false;
          }
          InsertKvpValues(params, item.name, values.value);
          forbidden := forbidden + Lowered(param_desc.value.conflictsWith);
          param_name_set := param_name_set + multiset{item.name};
        }
        HoldsOneMore(before, params.params, config, read, request[..i], item);
      }
      assert request[..|request|] == request;
      HoldsIsGiven(params.params, config, read, request);
      ok := EnoughOf(config, param_name_set);
    }

    // As above, except that unknown parameters are skipped before anything else is checked.
    method ExtractXmlParameters(request: seq<Item>, config: Config, read: Reader) returns (ok: bool)
      requires Loaded(config)
      modifies this
      ensures ok <==> Accepted(config, read, request)
      ensures ok ==> fresh(params) && params.Valid() && HoldsGiven(params.params, config, read, request)
      ensures ok ==> skipped_params == Skipped(config, request)
    {
      hide GetParamDesc, Lower, CaseMapped, ConflictsOf, Holds, Lowered, KeyOf, RequestParameterMap.Valid;
      params := new RequestParameterMap(config.caseSensitive);
      skipped_params := [];
      var param_name_set: multiset<Text> := multiset{};
      var forbidden: set<Text> := {};
      HoldsNothing(params.params, config, read);
      for i := 0 to |request|
        invariant fresh(params) && params.Valid() && params.case_sensitive_params == config.caseSensitive
        invariant Passes(config, read, request[..i]) && Holds(params.params, config, read, request[..i])
        invariant forbidden == Forbidden(config, request[..i]) && param_name_set == Spelled(config, request[..i])
        invariant skipped_params == Skipped(config, request[..i])
      {
        NextItem(config, read, request, i);
        var item := request[i];
        var param_desc := GetParamDesc(config, item.name);
        ghost var before := params.params;
        if param_desc.None? {
          skipped_params := skipped_params + [item];
        } else {
          if item.name in forbidden {
            return false;
          }
          forbidden := forbidden + Lowered(param_desc.value.conflictsWith);
          if param_name_set[item.name] + 1 > param_desc.value.maxOccurs {
            return false;
          }
          var values := read(param_desc.value, item);
          if values.None? {
            return false;
          }
          InsertKvpValues(params, item.name, values.value);
          param_name_set := param_name_set + multiset{item.name};
        }
        HoldsOneMore(before, params.params, config, read, request[..i], item);
      }
      assert request[..|request|] == request;
      HoldsIsGiven(params.params, config, read, request);
      ok := EnoughOf(config, param_name_set);
    }
  }

  method EnoughOf(config: Config, param_name_set: multiset<Text>) returns (ok: bool)
    requires Loaded(config)
    ensures ok <==> Enough(config, param_name_set)
  {
    var names := InOrder(config.params.Keys);
    for i := 0 to |names|
      invariant forall j :: 0 <= j < i ==>
        names[j] in config.params && config.params[names[j]].minOccurs <= param_name_set[names[j]]
    {
      assert names[i] in config.params;
      var desc := config.params[names[i]];
      if param_name_set[desc.name] < desc.minOccurs {
        return false;
      }
    }
    forall n | n in config.params ensures config.params[n].minOccurs <= param_name_set[n] {
      assert n in names;
    }
    return true;
  }

  lemma HoldsNothing(params: Multimap<ParamInfo>, c: Config, read: Reader)
    requires CaseMapped(c) && params == []
    ensures Holds(params, c, read, [])
  {
  }

  lemma HoldsOneMore(before: Multimap<ParamInfo>, after: Multimap<ParamInfo>, c: Config, read: Reader,
                     items: seq<Item>, item: Item)
    requires CaseMapped(c) && Holds(before, c, read, items)
    requires var desc := GetParamDesc(c, item.name);
      forall key :: ValuesOf(after, key) == ValuesOf(before, key) +
        if desc.Some? && read(desc.value, item).Some? && key == KeyOf(c.caseSensitive, item.name)
        then Infos(item.name, read(desc.value, item).value) else []
    ensures Holds(after, c, read, items + [item])
  {
    hide ValuesOf, CaseMapped, GetParamDesc, KeyOf;
    assert (items + [item])[..|items|] == items;
  }

  // How one item extends what has been read.
  lemma NextItem(c: Config, read: Reader, request: seq<Item>, i: nat)
    requires CaseMapped(c) && i < |request|
    ensures request[..i + 1] == request[..i] + [request[i]] && request[..i + 1][..i] == request[..i]
    ensures Passes(c, read, request[..i + 1]) <==>
            Passes(c, read, request[..i]) && Admits(c, read, request[..i], request[i])
    ensures Accepted(c, read, request) ==> Passes(c, read, request[..i + 1])
  {
    hide CaseMapped, Admits, Enough, Spelled;
    assert request[..i + 1][..i] == request[..i];
    if Accepted(c, read, request) {
      PassesFirst(c, read, request, i + 1);
    }
  }

  lemma {:induction false} PassesFirst(c: Config, read: Reader, request: seq<Item>, n: nat)
    requires CaseMapped(c) && n <= |request| && Passes(c, read, request)
    ensures Passes(c, read, request[..n])
    decreases |request|
  {
    hide CaseMapped, Admits;
    if n == |request| {
      assert request[..n] == request;
    } else {
      var init := request[..|request| - 1];
      PassesFirst(c, read, init, n);
      assert init[..n] == request[..n];
    }
  }
}
