/** The response cache key of a stored query. */
module CacheKeys {
  import opened Wrappers
  import opened Texts
  import opened BitStrings
  import opened Values
  import opened Multimaps
  import opened Codec
  import opened CodecRoundTrip
  import opened FeatureIds

  const SOURCE: Text := "source"
  const LANGUAGE: Text := "language"
  const DEBUG_FORMAT: Text := "debugFormat"
  const QUALIFIER: Text := "cacheKeyQualifier"

  // What the key of a request is made of.
  datatype Request = Request(
    queryId: Text, params: Multimap<Value>, source: Text, language: Text, debugFormat: bool, qualifier: Text)

  function KeyParams(r: Request): Multimap<Value> {
    var m := Insert(Insert(r.params, SOURCE, String(r.source)), LANGUAGE, String(r.language));
    var m' := if r.debugFormat then Insert(m, DEBUG_FORMAT, Int(1)) else m;
    if r.qualifier != [] then Insert(m', QUALIFIER, String(r.qualifier)) else m'
  }

  function KeyFields(r: Request): Fields {
    Fields(r.queryId, 0, KeyParams(r))
  }

  ghost predicate Cacheable(r: Request) {
    && Short(r.queryId) && EncodableMap(r.params)
    && Short(r.source) && Short(r.language) && Short(r.qualifier)
  }

  lemma InsertEncodable(m: Multimap<Value>, key: Text, value: Value)
    requires EncodableMap(m) && Short(key) && Encodable(value)
    ensures EncodableMap(Insert(m, key, value))
  {
    hide Encodable, Insert, Sorted;
    InsertSorted(m, key, value);
    InsertKeepsEntries(m, key, value);
    var r := Insert(m, key, value);
    forall i | 0 <= i < |r| ensures !r[i].value.Empty? && Short(r[i].key) && Encodable(r[i].value) {
      assert r[i] in multiset(r);
      assert r[i] in m || r[i] == Entry(key, value);
      EncodableIsNotEmpty(value);
    }
  }

  lemma EncodableIsNotEmpty(v: Value)
    requires Encodable(v)
    ensures !v.Empty?
  {
  }

  lemma KeyEncodable(r: Request)
    requires Cacheable(r)
    ensures EncodableFields(KeyFields(r)) && Sorted(KeyParams(r))
  {
    hide EncodableMap, Insert, Sorted;
    var m1 := Insert(r.params, SOURCE, String(r.source));
    InsertEncodable(r.params, SOURCE, String(r.source));
    var m2 := Insert(m1, LANGUAGE, String(r.language));
    InsertEncodable(m1, LANGUAGE, String(r.language));
    InsertEncodable(m2, DEBUG_FORMAT, Int(1));
    var m3 := if r.debugFormat then Insert(m2, DEBUG_FORMAT, Int(1)) else m2;
    InsertEncodable(m3, QUALIFIER, String(r.qualifier));
    EncodableIsSorted(KeyParams(r));
  }

  lemma EncodableIsSorted(m: Multimap<Value>)
    requires EncodableMap(m)
    ensures Sorted(m)
  {
  }

  // What the key holds under each name: the parameters, and behind them what was added.
  lemma KeyValues(r: Request, k: Text)
    requires Sorted(r.params)
    ensures ValuesOf(KeyParams(r), k) == ValuesOf(r.params, k) + Extra(r, k)
  {
    hide Insert, Sorted, ValuesOf;
    var m1 := Insert(r.params, SOURCE, String(r.source));
    InsertSorted(r.params, SOURCE, String(r.source));
    InsertValues(r.params, SOURCE, String(r.source), k);
    var m2 := Insert(m1, LANGUAGE, String(r.language));
    InsertSorted(m1, LANGUAGE, String(r.language));
    InsertValues(m1, LANGUAGE, String(r.language), k);
    InsertSorted(m2, DEBUG_FORMAT, Int(1));
    InsertValues(m2, DEBUG_FORMAT, Int(1), k);
    var m3 := if r.debugFormat then Insert(m2, DEBUG_FORMAT, Int(1)) else m2;
    InsertValues(m3, QUALIFIER, String(r.qualifier), k);
    NamesDiffer();
  }

  lemma NamesDiffer()
    ensures |SOURCE| == 6 && |LANGUAGE| == 8 && |DEBUG_FORMAT| == 11 && |QUALIFIER| == 17
  {
  }

  function Extra(r: Request, k: Text): seq<Value> {
    if k == SOURCE then [String(r.source)]
    else if k == LANGUAGE then [String(r.language)]
    else if k == DEBUG_FORMAT && r.debugFormat then [Int(1)]
    else if k == QUALIFIER && r.qualifier != [] then [String(r.qualifier)]
    else []
  }

  function AllWholeSeconds(values: seq<Value>): (r: seq<Value>)
    ensures |r| == |values|
    ensures forall i :: 0 <= i < |values| ==> r[i] == WholeSeconds(values[i])
  {
    seq(|values|, i requires 0 <= i < |values| => WholeSeconds(values[i]))
  }

  lemma {:induction false} WholeSecondsValues(m: Multimap<Value>, k: Text)
    ensures ValuesOf(WholeSecondsMap(m), k) == AllWholeSeconds(ValuesOf(m, k))
  {
    if m != [] {
      var n := |m| - 1;
      WholeSecondsValues(m[..n], k);
      assert WholeSecondsMap(m)[..n] == WholeSecondsMap(m[..n]);
    }
  }

  lemma WholeSecondsSorted(m: Multimap<Value>)
    requires Sorted(m)
    ensures Sorted(WholeSecondsMap(m))
  {
  }

  // No parameter bears one of the names that only some keys contain.
  predicate NoReservedName(r: Request) {
    ValuesOf(r.params, DEBUG_FORMAT) == [] && ValuesOf(r.params, QUALIFIER) == []
  }

  lemma SameExtra(q: Request, r: Request, k: Text)
    requires NoReservedName(q) && NoReservedName(r)
    requires AllWholeSeconds(ValuesOf(q.params, k) + Extra(q, k)) ==
             AllWholeSeconds(ValuesOf(r.params, k) + Extra(r, k))
    ensures Extra(q, k) == Extra(r, k)
    ensures AllWholeSeconds(ValuesOf(q.params, k)) == AllWholeSeconds(ValuesOf(r.params, k))
  {
    hide ValuesOf;
    var a, b := ValuesOf(q.params, k), ValuesOf(r.params, k);
    var x, y := AllWholeSeconds(a + Extra(q, k)), AllWholeSeconds(b + Extra(r, k));
    assert |a| + |Extra(q, k)| == |b| + |Extra(r, k)|;
    if |Extra(q, k)| == 1 && |Extra(r, k)| == 1 {
      assert x[|a|] == Extra(q, k)[0] && y[|b|] == Extra(r, k)[0];
    }
    assert AllWholeSeconds(a) == x[..|a|] && AllWholeSeconds(b) == y[..|b|];
  }

  lemma KeySupported(r: Request)
    requires Cacheable(r)
    ensures Supported(KeyParams(r)) && Supported(r.params)
  {
    KeyEncodable(r);
    hide KeyParams;
  }

  function CacheKey(sha1: seq<Byte> -> Digest, r: Request): Text
    requires Cacheable(r)
  {
    KeySupported(r);
    IdText(sha1, KeyFields(r))
  }

  // Two requests share a cache key exactly when they ask for the same: the same stored query, the
  // same parameters (times by whole seconds), data source, language, debug flag and qualifier. A
  // parameter may itself be called "source" or "language".
  lemma CacheKeySound(sha1: seq<Byte> -> Digest, q: Request, r: Request)
    requires Cacheable(q) && Cacheable(r) && NoReservedName(q) && NoReservedName(r)
    ensures Supported(KeyParams(q)) && Supported(KeyParams(r))
    ensures IdText(sha1, KeyFields(q)) == IdText(sha1, KeyFields(r)) <==>
            q.(params := WholeSecondsMap(q.params)) == r.(params := WholeSecondsMap(r.params))
  {
    KeyEncodable(q);
    KeyEncodable(r);
    IdInjective(sha1, KeyFields(q), KeyFields(r));
    EncodableIsSorted(q.params);
    EncodableIsSorted(r.params);
    hide IdText, KeyParams, WholeSecondsMap, ValuesOf, Sorted, EncodableMap, EncodableFields, Extra, AllWholeSeconds,
         Supported;
    WholeSecondsSorted(q.params);
    WholeSecondsSorted(r.params);
    WholeSecondsSorted(KeyParams(q));
    WholeSecondsSorted(KeyParams(r));
    if WholeSecondsMap(KeyParams(q)) == WholeSecondsMap(KeyParams(r)) {
      forall k
        ensures ValuesOf(WholeSecondsMap(q.params), k) == ValuesOf(WholeSecondsMap(r.params), k)
                && Extra(q, k) == Extra(r, k)
      {
        KeyPart(q, r, k);
      }
      SameValuesSameMap(WholeSecondsMap(q.params), WholeSecondsMap(r.params));
      ExtrasDetermine(q, r);
    }
    if q.(params := WholeSecondsMap(q.params)) == r.(params := WholeSecondsMap(r.params)) {
      forall k ensures ValuesOf(WholeSecondsMap(KeyParams(q)), k) == ValuesOf(WholeSecondsMap(KeyParams(r)), k) {
        KeyWhole(q, r, k);
      }
      SameValuesSameMap(WholeSecondsMap(KeyParams(q)), WholeSecondsMap(KeyParams(r)));
    }
  }

  lemma KeyPart(q: Request, r: Request, k: Text)
    requires Sorted(q.params) && Sorted(r.params) && NoReservedName(q) && NoReservedName(r)
    requires WholeSecondsMap(KeyParams(q)) == WholeSecondsMap(KeyParams(r))
    ensures ValuesOf(WholeSecondsMap(q.params), k) == ValuesOf(WholeSecondsMap(r.params), k)
    ensures Extra(q, k) == Extra(r, k)
  {
    hide ValuesOf, Insert, KeyParams, WholeSecondsMap, Sorted;
    KeyValues(q, k);
    KeyValues(r, k);
    WholeSecondsValues(KeyParams(q), k);
    WholeSecondsValues(KeyParams(r), k);
    WholeSecondsValues(q.params, k);
    WholeSecondsValues(r.params, k);
    SameExtra(q, r, k);
  }

  lemma KeyWhole(q: Request, r: Request, k: Text)
    requires Sorted(q.params) && Sorted(r.params)
    requires q.(params := WholeSecondsMap(q.params)) == r.(params := WholeSecondsMap(r.params))
    ensures ValuesOf(WholeSecondsMap(KeyParams(q)), k) == ValuesOf(WholeSecondsMap(KeyParams(r)), k)
  {
    hide ValuesOf, Insert, KeyParams, WholeSecondsMap, Sorted;
    KeyValues(q, k);
    KeyValues(r, k);
    WholeSecondsValues(KeyParams(q), k);
    WholeSecondsValues(KeyParams(r), k);
    WholeSecondsValues(q.params, k);
    WholeSecondsValues(r.params, k);
    assert Extra(q, k) == Extra(r, k);
    assert AllWholeSeconds(ValuesOf(q.params, k) + Extra(q, k)) ==
           AllWholeSeconds(ValuesOf(q.params, k)) + AllWholeSeconds(Extra(q, k));
    assert AllWholeSeconds(ValuesOf(r.params, k) + Extra(r, k)) ==
           AllWholeSeconds(ValuesOf(r.params, k)) + AllWholeSeconds(Extra(r, k));
  }

  lemma ExtrasDetermine(q: Request, r: Request)
    requires forall k :: Extra(q, k) == Extra(r, k)
    ensures q.source == r.source && q.language == r.language && q.debugFormat == r.debugFormat
            && q.qualifier == r.qualifier
  {
    NamesDiffer();
    assert Extra(q, SOURCE) == Extra(r, SOURCE) && Extra(q, LANGUAGE) == Extra(r, LANGUAGE);
    assert Extra(q, DEBUG_FORMAT) == Extra(r, DEBUG_FORMAT) && Extra(q, QUALIFIER) == Extra(r, QUALIFIER);
  }

  // A parameter called "debugFormat" with the value 1 is taken for the debug flag.
  lemma ReservedNameCollides(sha1: seq<Byte> -> Digest, r: Request)
    requires Cacheable(r) && NoReservedName(r) && !r.debugFormat && r.qualifier == []
    ensures var named := r.(params := Insert(r.params, DEBUG_FORMAT, Int(1)));
      var flagged := r.(debugFormat := true);
      && Cacheable(named) && named != flagged
      && CacheKey(sha1, named) == CacheKey(sha1, flagged)
  {
    hide ValuesOf, Insert, KeyParams, Sorted, CacheKey, EncodableMap, NoReservedName;
    var named, flagged := r.(params := Insert(r.params, DEBUG_FORMAT, Int(1))), r.(debugFormat := true);
    InsertEncodable(r.params, DEBUG_FORMAT, Int(1));
    forall k ensures ValuesOf(KeyParams(named), k) == ValuesOf(KeyParams(flagged), k) {
      DebugFormatAsParam(r, k);
    }
    SameKey(sha1, named, flagged);
  }

  lemma DebugFormatAsParam(r: Request, k: Text)
    requires EncodableMap(r.params) && NoReservedName(r) && !r.debugFormat && r.qualifier == []
    ensures ValuesOf(KeyParams(r.(params := Insert(r.params, DEBUG_FORMAT, Int(1)))), k) ==
            ValuesOf(KeyParams(r.(debugFormat := true)), k)
  {
    hide ValuesOf, Insert, KeyParams, Sorted, EncodableMap;
    EncodableIsSorted(r.params);
    InsertSorted(r.params, DEBUG_FORMAT, Int(1));
    KeyValues(r.(params := Insert(r.params, DEBUG_FORMAT, Int(1))), k);
    KeyValues(r.(debugFormat := true), k);
    InsertValues(r.params, DEBUG_FORMAT, Int(1), k);
    NamesDiffer();
  }

  // A parameter called "cacheKeyQualifier" is taken for the qualifier.
  lemma ReservedQualifierCollides(sha1: seq<Byte> -> Digest, r: Request, q: Text)
    requires Cacheable(r) && NoReservedName(r) && r.qualifier == [] && q != [] && Short(q)
    ensures var named := r.(params := Insert(r.params, QUALIFIER, String(q)));
      var qualified := r.(qualifier := q);
      && Cacheable(named) && named != qualified
      && CacheKey(sha1, named) == CacheKey(sha1, qualified)
  {
    hide ValuesOf, Insert, KeyParams, Sorted, CacheKey, EncodableMap, NoReservedName;
    var named, qualified := r.(params := Insert(r.params, QUALIFIER, String(q))), r.(qualifier := q);
    InsertEncodable(r.params, QUALIFIER, String(q));
    forall k ensures ValuesOf(KeyParams(named), k) == ValuesOf(KeyParams(qualified), k) {
      QualifierAsParam(r, q, k);
    }
    SameKey(sha1, named, qualified);
  }

  lemma QualifierAsParam(r: Request, q: Text, k: Text)
    requires EncodableMap(r.params) && NoReservedName(r) && r.qualifier == [] && q != []
    ensures ValuesOf(KeyParams(r.(params := Insert(r.params, QUALIFIER, String(q)))), k) ==
            ValuesOf(KeyParams(r.(qualifier := q)), k)
  {
    hide ValuesOf, Insert, KeyParams, Sorted, EncodableMap;
    EncodableIsSorted(r.params);
    InsertSorted(r.params, QUALIFIER, String(q));
    KeyValues(r.(params := Insert(r.params, QUALIFIER, String(q))), k);
    KeyValues(r.(qualifier := q), k);
    InsertValues(r.params, QUALIFIER, String(q), k);
    NamesDiffer();
  }

  lemma SameKey(sha1: seq<Byte> -> Digest, q: Request, r: Request)
    requires Cacheable(q) && Cacheable(r) && q.queryId == r.queryId
    requires forall k :: ValuesOf(KeyParams(q), k) == ValuesOf(KeyParams(r), k)
    ensures CacheKey(sha1, q) == CacheKey(sha1, r)
  {
    hide ValuesOf, KeyParams, Sorted, IdText, EncodableMap;
    KeyEncodable(q);
    KeyEncodable(r);
    SameValuesSameMap(KeyParams(q), KeyParams(r));
  }

  // ---------- which names make the key sound ----------

  // The parameters bear none but the given names.
  predicate Uses(r: Request, names: set<Text>) {
    forall i :: 0 <= i < |r.params| ==> r.params[i].key in names
  }

  // Cache keys tell requests apart that ask for something else, and no other ones.
  ghost predicate TellsApart(sha1: seq<Byte> -> Digest, names: set<Text>) {
    forall q, r :: Cacheable(q) && Cacheable(r) && Uses(q, names) && Uses(r, names) ==>
      (CacheKey(sha1, q) == CacheKey(sha1, r) <==>
       q.(params := WholeSecondsMap(q.params)) == r.(params := WholeSecondsMap(r.params)))
  }

  // Exactly the names a server must not give to parameters: "debugFormat" and "cacheKeyQualifier".
  lemma SoundNames(sha1: seq<Byte> -> Digest, names: set<Text>)
    ensures TellsApart(sha1, names) <==> DEBUG_FORMAT !in names && QUALIFIER !in names
  {
    hide CacheKey, WholeSecondsMap, Cacheable, NoReservedName;
    if DEBUG_FORMAT !in names && QUALIFIER !in names {
      forall q, r | Cacheable(q) && Cacheable(r) && Uses(q, names) && Uses(r, names)
        ensures CacheKey(sha1, q) == CacheKey(sha1, r) <==>
                q.(params := WholeSecondsMap(q.params)) == r.(params := WholeSecondsMap(r.params))
      {
        NotReserved(q, names);
        NotReserved(r, names);
        SameKeySame(sha1, q, r);
      }
    } else {
      NotToldApart(sha1, names);
    }
  }

  lemma SameKeySame(sha1: seq<Byte> -> Digest, q: Request, r: Request)
    requires Cacheable(q) && Cacheable(r) && NoReservedName(q) && NoReservedName(r)
    ensures CacheKey(sha1, q) == CacheKey(sha1, r) <==>
            q.(params := WholeSecondsMap(q.params)) == r.(params := WholeSecondsMap(r.params))
  {
    hide IdText, KeyFields, WholeSecondsMap, Cacheable, NoReservedName;
    CacheKeySound(sha1, q, r);
  }

  lemma NotReserved(r: Request, names: set<Text>)
    requires Uses(r, names) && DEBUG_FORMAT !in names && QUALIFIER !in names
    ensures NoReservedName(r)
  {
    NoValues(r.params, DEBUG_FORMAT);
    NoValues(r.params, QUALIFIER);
  }

  lemma {:induction false} NoValues(m: Multimap<Value>, key: Text)
    requires forall i :: 0 <= i < |m| ==> m[i].key != key
    ensures ValuesOf(m, key) == []
  {
    if m != [] {
      NoValues(m[..|m| - 1], key);
    }
  }

  lemma NotToldApart(sha1: seq<Byte> -> Digest, names: set<Text>)
    requires DEBUG_FORMAT in names || QUALIFIER in names
    ensures !TellsApart(sha1, names)
  {
    hide CacheKey;
    var plain := Request([], [], [], [], false, []);
    if DEBUG_FORMAT in names {
      ReservedNameCollides(sha1, plain);
      Differ(sha1, names, plain.(params := Insert([], DEBUG_FORMAT, Int(1))), plain.(debugFormat := true));
    } else {
      ReservedQualifierCollides(sha1, plain, "a");
      Differ(sha1, names, plain.(params := Insert([], QUALIFIER, String("a"))), plain.(qualifier := "a"));
    }
  }

  lemma Differ(sha1: seq<Byte> -> Digest, names: set<Text>, q: Request, r: Request)
    requires |q.params| != |r.params|
    ensures Cacheable(q) && Cacheable(r) && Uses(q, names) && Uses(r, names)
            && CacheKey(sha1, q) == CacheKey(sha1, r) ==>
      !TellsApart(sha1, names)
  {
    hide CacheKey, Cacheable, Uses;
    assert |WholeSecondsMap(q.params)| != |WholeSecondsMap(r.params)|;
  }

  // Texts have lengths that fit a size_t, as all C++ texts do.
  predicate IsStorable(m: Multimap<Value>) {
    forall i :: 0 <= i < |m| ==> |m[i].key| < TWO_64 && Storable(m[i].value)
  }

  predicate RequestStorable(r: Request) {
    && |r.queryId| < TWO_64 && |r.source| < TWO_64 && |r.language| < TWO_64 && |r.qualifier| < TWO_64
    && IsStorable(r.params)
  }

  lemma InsertStorable(m: Multimap<Value>, key: Text, value: Value)
    requires |key| < TWO_64 && Storable(value) && !value.Empty?
    ensures IsStorable(m) ==> IsStorable(Insert(m, key, value))
    ensures Supported(Insert(m, key, value)) <==> Supported(m)
  {
    hide Storable, Insert;
    InsertKeepsEntries(m, key, value);
    var r := Insert(m, key, value);
    forall i | 0 <= i < |r| ensures r[i] in m || r[i] == Entry(key, value) {
      assert r[i] in multiset(r);
    }
    forall i | 0 <= i < |m| ensures m[i] in r {
      assert m[i] in multiset(m) && m[i] in multiset(r);
    }
  }

  lemma KeyStorable(r: Request)
    requires RequestStorable(r)
    ensures IsStorable(KeyParams(r)) && (Supported(KeyParams(r)) <==> Supported(r.params))
  {
    hide Insert, Supported, IsStorable;
    NamesDiffer();
    var m1 := Insert(r.params, SOURCE, String(r.source));
    InsertStorable(r.params, SOURCE, String(r.source));
    var m2 := Insert(m1, LANGUAGE, String(r.language));
    InsertStorable(m1, LANGUAGE, String(r.language));
    InsertStorable(m2, DEBUG_FORMAT, Int(1));
    InsertStorable(if r.debugFormat then Insert(m2, DEBUG_FORMAT, Int(1)) else m2, QUALIFIER, String(r.qualifier));
  }

  // The end of create_from_kvp and create_from_xml. Throws exactly when a parameter has a value of an
  // unsupported type.
  method MakeCacheKey(sha1: seq<Byte> -> Digest, r: Request) returns (key: Option<Text>)
    requires RequestStorable(r)
    ensures key.Some? <==> Supported(r.params)
    ensures key.Some? ==> Supported(KeyParams(r)) && key.value == IdText(sha1, KeyFields(r))
    ensures Cacheable(r) ==> key == Some(CacheKey(sha1, r))
  {
    hide Insert, IdText, Sorted, Supported, Storable, Cacheable;
    KeyStorable(r);
    if Cacheable(r) {
      KeySupported(r);
    }
    var feature_id := new FeatureID(r.queryId, r.params, 0);
    feature_id.AddParam(SOURCE, String(r.source));
    feature_id.AddParam(LANGUAGE, String(r.language));
    if r.debugFormat {
      feature_id.AddParam(DEBUG_FORMAT, Int(1));
    }
    if r.qualifier != [] {
      feature_id.AddParam(QUALIFIER, String(r.qualifier));
    }
    key := feature_id.GetId(sha1);
  }
}
