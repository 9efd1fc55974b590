/** FeatureID: a stored query and its parameters written into an identifier, and read back from it. */
module FeatureIds {
  import opened Wrappers
  import opened Texts
  import opened Sequences
  import opened BitStrings
  import opened Packing
  import opened Values
  import opened Multimaps
  import opened Codec
  import opened CodecRoundTrip
  import opened OutputStream
  import opened InputStream
  import Base64

  const SHA_DIGEST_LENGTH := 20

  type Digest = d: seq<Byte> | |d| == 20 witness seq(20, _ => 0)

  const FEATURE_ID_REVISION := 1
  const PREFIX: Text := "WFS-"
  const QUERY_TAG: Text := "SQ"

  // "SDGHWGFWLBFVLDSBVDSvdlvdNnc"
  const MAGIC: seq<Byte> := [83, 68, 71, 72, 87, 71, 70, 87, 76, 66, 70, 86, 76, 68,
                             83, 66, 86, 68, 83, 118, 100, 108, 118, 100, 78, 110, 99]

  // What an identifier carries.
  datatype Fields = Fields(storedQueryId: Text, seqId: UInt64, params: Multimap<Value>)

  function FieldBits(f: Fields): Bits
    requires Supported(f.params)
  {
    EncodeString(QUERY_TAG) + (EncodeUnsigned(FEATURE_ID_REVISION) +
    (EncodeString(f.storedQueryId) + (EncodeUnsigned(f.seqId) + EncodeMap(f.params))))
  }

  function IdText(sha1: seq<Byte> -> Digest, f: Fields): Text
    requires Supported(f.params)
  {
    var raw := Pack(FieldBits(f));
    PREFIX + Base64.ToIdText(Base64.Encode(sha1(MAGIC + raw) + raw))
  }

  // None is an exception.
  function ParseFields(s: Bits): Option<Fields> {
    match DecodeString(s)
    case Fail => None
    case Ok(tag, s1) =>
      if tag != QUERY_TAG then None else
      match DecodeUnsigned(s1)
      case Fail => None
      case Ok(revision, s2) =>
        if revision % TWO_32 != FEATURE_ID_REVISION then None else
        match DecodeString(s2)
        case Fail => None
        case Ok(id, s3) =>
          match DecodeUnsigned(s3)
          case Fail => None
          case Ok(seqId, s4) =>
            match DecodeMap(s4)
            case Fail => None
            case Ok(params, _) => Some(Fields(id, seqId, params))
  }

  function ParseId(sha1: seq<Byte> -> Digest, id: Text): Option<Fields> {
    if !(PREFIX <= id) then None
    else
      var data :- Base64.Decode(Base64.FromIdText(id[4..]));
      if |data| < SHA_DIGEST_LENGTH + 1 then None
      else if sha1(MAGIC + data[SHA_DIGEST_LENGTH..]) != data[..SHA_DIGEST_LENGTH] then None
      else ParseFields(Unpack(data[SHA_DIGEST_LENGTH..]))
  }

  ghost predicate EncodableFields(f: Fields) {
    Short(f.storedQueryId) && EncodableMap(f.params)
  }

  function Kept(f: Fields): Fields {
    f.(params := WholeSecondsMap(f.params))
  }

  lemma FieldsRoundTrip(f: Fields, rest: Bits)
    requires EncodableFields(f)
    ensures ParseFields(FieldBits(f) + rest) == Some(Kept(f))
  {
    hide EncodeString, EncodeUnsigned, EncodeMap, DecodeString, DecodeUnsigned, DecodeMap, Sorted, Encodable,
         WholeSecondsMap;
    var m := EncodeMap(f.params);
    var s3 := EncodeUnsigned(f.seqId) + m;
    var s2 := EncodeString(f.storedQueryId) + s3;
    var s1 := EncodeUnsigned(FEATURE_ID_REVISION) + s2;
    Regroup(EncodeString(QUERY_TAG), s1, rest);
    Regroup(EncodeUnsigned(FEATURE_ID_REVISION), s2, rest);
    Regroup(EncodeString(f.storedQueryId), s3, rest);
    Regroup(EncodeUnsigned(f.seqId), m, rest);
    StringRoundTrip(QUERY_TAG, s1 + rest);
    UnsignedRoundTrip(FEATURE_ID_REVISION, s2 + rest);
    StringRoundTrip(f.storedQueryId, s3 + rest);
    UnsignedRoundTrip(f.seqId, m + rest);
    MapRoundTrip(f.params, rest);
  }

  // The data behind the prefix of an identifier, read back.
  lemma DataRoundTrip(data: seq<Byte>)
    ensures var id := PREFIX + Base64.ToIdText(Base64.Encode(data));
      PREFIX <= id && Base64.Decode(Base64.FromIdText(id[4..])) == Some(data)
  {
    hide Base64.Encode, Base64.Decode, Base64.ToIdText, Base64.FromIdText;
    Base64.RoundTrip(data);
    Base64.EncodedChars(data);
    var text := Base64.Encode(data);
    Base64.SwapRoundTrip(text);
    assert (PREFIX + Base64.ToIdText(text))[4..] == Base64.ToIdText(text);
  }

  // create_from_id(get_id()) restores everything, whatever the digest function is.
  lemma IdRoundTrip(sha1: seq<Byte> -> Digest, f: Fields)
    requires EncodableFields(f)
    ensures ParseId(sha1, IdText(sha1, f)) == Some(Kept(f))
  {
    hide Pack, Unpack, PaddingLength, Zeros, FieldBits, ParseFields, EncodableMap, WholeSecondsMap, Base64.Encode,
         Base64.Decode, Base64.ToIdText, Base64.FromIdText;
    EncodableIsSupported(f);
    var raw := Pack(FieldBits(f));
    UnpackOfPack(FieldBits(f));
    FieldsRoundTrip(f, Zeros(PaddingLength(FieldBits(f))));
    PackLength(FieldBits(f));
    var data := sha1(MAGIC + raw) + raw;
    assert data[..SHA_DIGEST_LENGTH] == sha1(MAGIC + raw) && data[SHA_DIGEST_LENGTH..] == raw;
    DataRoundTrip(data);
  }

  lemma EncodableIsSupported(f: Fields)
    requires EncodableFields(f)
    ensures Supported(f.params)
  {
  }

  // Only letters, digits, '.', '_' and '-' are used.
  lemma IdAlphabet(sha1: seq<Byte> -> Digest, f: Fields)
    requires Supported(f.params)
    ensures forall i :: 0 <= i < |IdText(sha1, f)| ==> Base64.IsIdChar(IdText(sha1, f)[i])
  {
    hide Pack, FieldBits, Base64.Encode, Base64.ToIdText;
    var raw := Pack(FieldBits(f));
    var text := Base64.Encode(sha1(MAGIC + raw) + raw);
    Base64.EncodedChars(sha1(MAGIC + raw) + raw);
    Base64.SwapRoundTrip(text);
    assert IdText(sha1, f) == PREFIX + Base64.ToIdText(text);
  }

  lemma SameValueBits(v: Value)
    requires !v.Empty?
    ensures !WholeSeconds(v).Empty? && EncodeValue(WholeSeconds(v)) == EncodeValue(v)
  {
    hide BitsOf, EncodeDouble, EncodeString, EncodeInt, EncodeUnsigned;
  }

  lemma {:induction false} SameGroupBits(m: Multimap<Value>)
    requires Supported(m)
    ensures Supported(WholeSecondsMap(m)) && EncodeGroup(WholeSecondsMap(m)) == EncodeGroup(m)
  {
    hide EncodeValue, WholeSeconds;
    forall i | 0 <= i < |m| ensures !WholeSecondsMap(m)[i].value.Empty? {
      SameValueBits(m[i].value);
    }
    if m != [] {
      SameGroupBits(m[1..]);
      assert WholeSecondsMap(m)[1..] == WholeSecondsMap(m[1..]);
      SameValueBits(m[0].value);
    }
  }

  lemma {:induction false} SameGroupLength(m: Multimap<Value>, key: Text)
    ensures GroupLength(WholeSecondsMap(m), key) == GroupLength(m, key)
  {
    if m != [] {
      SameGroupLength(m[1..], key);
      assert WholeSecondsMap(m)[1..] == WholeSecondsMap(m[1..]);
    }
  }

  lemma SupportedParts(m: Multimap<Value>, n: nat)
    requires Supported(m) && n <= |m|
    ensures Supported(m[..n]) && Supported(m[n..])
  {
  }

  lemma {:induction false} SameMapBits(m: Multimap<Value>)
    requires Supported(m)
    ensures Supported(WholeSecondsMap(m)) && EncodeMap(WholeSecondsMap(m)) == EncodeMap(m)
    decreases |m|
  {
    hide EncodeString, EncodeGroup, GroupLength, Supported, WholeSeconds;
    SameGroupBits(m);
    if m != [] {
      var n := GroupLength(m, m[0].key);
      SupportedParts(m, n);
      SameGroupLength(m, m[0].key);
      SameGroupBits(m[..n]);
      SameMapBits(m[n..]);
      assert WholeSecondsMap(m)[..n] == WholeSecondsMap(m[..n]);
      assert WholeSecondsMap(m)[n..] == WholeSecondsMap(m[n..]);
    }
  }

  // Two identifiers are equal exactly when they carry the same query, sequence number and
  // parameters, times compared by whole seconds.
  lemma IdInjective(sha1: seq<Byte> -> Digest, f: Fields, g: Fields)
    requires EncodableFields(f) && EncodableFields(g)
    ensures IdText(sha1, f) == IdText(sha1, g) <==> Kept(f) == Kept(g)
  {
    IdRoundTrip(sha1, f);
    IdRoundTrip(sha1, g);
    SameMapBits(f.params);
    SameMapBits(g.params);
  }

  // ---------- which identifiers are accepted ----------

  // The text behind "WFS-", with its characters swapped back, stands for these bytes and their digest.
  ghost predicate Carries(sha1: seq<Byte> -> Digest, id: Text, raw: seq<Byte>) {
    && |id| >= 4 && id[..4] == "WFS-"
    && Base64.Decode(Base64.FromIdText(id[4..])) == Some(sha1(MAGIC + raw) + raw)
  }

  // The bits begin with the tag "SQ" and revision 1, and the fields stand behind them.
  ghost predicate ReadsAs(bits: Bits, f: Fields) {
    var tag := DecodeString(bits);
    tag.Ok? && tag.value == "SQ" &&
    var revision := DecodeUnsigned(tag.rest);
    revision.Ok? && revision.value % TWO_32 == 1 &&
    var id := DecodeString(revision.rest);
    id.Ok? && id.value == f.storedQueryId &&
    var seqId := DecodeUnsigned(id.rest);
    seqId.Ok? && seqId.value == f.seqId &&
    var params := DecodeMap(seqId.rest);
    params.Ok? && params.value == f.params
  }

  lemma FieldsExactly(bits: Bits, f: Fields)
    ensures ParseFields(bits) == Some(f) <==> ReadsAs(bits, f)
  {
    hide DecodeString, DecodeUnsigned, DecodeMap;
  }

  // An identifier is accepted, and read as these fields, exactly when it carries, under the right digest,
  // at least one byte, and bits that read as the fields.
  lemma ParseExactly(sha1: seq<Byte> -> Digest, id: Text, f: Fields)
    ensures ParseId(sha1, id) == Some(f) <==>
            exists raw :: raw != [] && Carries(sha1, id, raw) && ReadsAs(Unpack(raw), f)
  {
    hide ParseFields, ReadsAs, Unpack, Base64.Decode, Base64.FromIdText;
    if ParseId(sha1, id) == Some(f) {
      var data := Base64.Decode(Base64.FromIdText(id[4..])).value;
      var raw := data[SHA_DIGEST_LENGTH..];
      assert data == data[..SHA_DIGEST_LENGTH] + raw;
      FieldsExactly(Unpack(raw), f);
      assert raw != [] && Carries(sha1, id, raw);
    }
    if raw :| raw != [] && Carries(sha1, id, raw) && ReadsAs(Unpack(raw), f) {
      var data := sha1(MAGIC + raw) + raw;
      assert data[..SHA_DIGEST_LENGTH] == sha1(MAGIC + raw) && data[SHA_DIGEST_LENGTH..] == raw;
      FieldsExactly(Unpack(raw), f);
    }
  }

  lemma AcceptedExactly(sha1: seq<Byte> -> Digest, id: Text)
    ensures ParseId(sha1, id).Some? <==>
            exists raw, f :: raw != [] && Carries(sha1, id, raw) && ReadsAs(Unpack(raw), f)
  {
    hide ParseId, Carries, ReadsAs;
    if ParseId(sha1, id).Some? {
      ParseExactly(sha1, id, ParseId(sha1, id).value);
    }
    if raw, f :| raw != [] && Carries(sha1, id, raw) && ReadsAs(Unpack(raw), f) {
      ParseExactly(sha1, id, f);
    }
  }

  function Sealed(digest: Digest, raw: seq<Byte>): Text {
    PREFIX + Base64.ToIdText(Base64.Encode(digest + raw))
  }

  lemma SealedCarries(sha1: seq<Byte> -> Digest, digest: Digest, raw: seq<Byte>)
    ensures var id := Sealed(digest, raw);
      |id| >= 4 && id[..4] == "WFS-" && Base64.Decode(Base64.FromIdText(id[4..])) == Some(digest + raw)
  {
    hide Base64.Encode, Base64.Decode, Base64.ToIdText, Base64.FromIdText;
    DataRoundTrip(digest + raw);
  }

  // Bytes under another digest are refused, whatever they say.
  lemma WrongDigest(sha1: seq<Byte> -> Digest, digest: Digest, raw: seq<Byte>)
    requires digest != sha1(MAGIC + raw)
    ensures ParseId(sha1, Sealed(digest, raw)).None?
  {
    hide ParseFields, Unpack, Sealed, Base64.Decode, Base64.FromIdText;
    SealedCarries(sha1, digest, raw);
    var data := digest + raw;
    assert data[..SHA_DIGEST_LENGTH] == digest;
    if |data| > SHA_DIGEST_LENGTH {
      assert data[SHA_DIGEST_LENGTH..] == raw;
    }
  }

  lemma RightDigest(sha1: seq<Byte> -> Digest, bits: Bits)
    ensures ParseId(sha1, Sealed(sha1(MAGIC + Pack(bits)), Pack(bits))) ==
            ParseFields(bits + Zeros(PaddingLength(bits)))
  {
    hide ParseFields, Pack, Unpack, Zeros, PaddingLength, Sealed, Base64.Decode, Base64.FromIdText;
    var raw := Pack(bits);
    PackLength(bits);
    UnpackOfPack(bits);
    SealedCarries(sha1, sha1(MAGIC + raw), raw);
    var data := sha1(MAGIC + raw) + raw;
    assert data[..SHA_DIGEST_LENGTH] == sha1(MAGIC + raw) && data[SHA_DIGEST_LENGTH..] == raw;
  }

  // Bits with another tag than "SQ" are refused.
  lemma WrongTag(sha1: seq<Byte> -> Digest, tag: Text, rest: Bits)
    requires Short(tag) && tag != "SQ"
    ensures var raw := Pack(EncodeString(tag) + rest);
      ParseId(sha1, Sealed(sha1(MAGIC + raw), raw)).None?
  {
    hide Pack, Zeros, PaddingLength, Sealed, EncodeString, DecodeString, DecodeUnsigned, DecodeMap;
    var bits := EncodeString(tag) + rest;
    var padding := Zeros(PaddingLength(bits));
    RightDigest(sha1, bits);
    Regroup(EncodeString(tag), rest, padding);
    StringRoundTrip(tag, rest + padding);
  }

  // Bits with another revision than 1, which is kept in 32 bits, are refused.
  lemma WrongRevision(sha1: seq<Byte> -> Digest, revision: UInt64, rest: Bits)
    requires revision % TWO_32 != 1
    ensures var raw := Pack(EncodeString("SQ") + (EncodeUnsigned(revision) + rest));
      ParseId(sha1, Sealed(sha1(MAGIC + raw), raw)).None?
  {
    hide Pack, Zeros, PaddingLength, Sealed, EncodeString, EncodeUnsigned, DecodeString, DecodeUnsigned, DecodeMap;
    var behind := EncodeUnsigned(revision) + rest;
    var bits := EncodeString("SQ") + behind;
    var padding := Zeros(PaddingLength(bits));
    RightDigest(sha1, bits);
    Regroup(EncodeString("SQ"), behind, padding);
    Regroup(EncodeUnsigned(revision), rest, padding);
    StringRoundTrip("SQ", behind + padding);
    UnsignedRoundTrip(revision, rest + padding);
  }

  // The fields as they are written one after the other.
  lemma FieldBitsInOrder(f: Fields)
    requires Supported(f.params)
    ensures [] + EncodeString(QUERY_TAG) + EncodeUnsigned(FEATURE_ID_REVISION) + EncodeString(f.storedQueryId)
            + EncodeUnsigned(f.seqId) + EncodeMap(f.params) == FieldBits(f)
  {
    hide EncodeString, EncodeUnsigned, EncodeMap, Supported;
    Regroup4([], EncodeString(QUERY_TAG), EncodeUnsigned(FEATURE_ID_REVISION), EncodeString(f.storedQueryId),
             EncodeUnsigned(f.seqId) + EncodeMap(f.params));
    Regroup([] + EncodeString(QUERY_TAG) + EncodeUnsigned(FEATURE_ID_REVISION) + EncodeString(f.storedQueryId),
            EncodeUnsigned(f.seqId), EncodeMap(f.params));
  }

  class FeatureID {
    var stored_query_id: Text
    var params: Multimap<Value>
    var seq_id: UInt32

    constructor (stored_query_id: Text, params: Multimap<Value>, seq_id: UInt32 := 0)
      ensures this.stored_query_id == stored_query_id && this.params == params && this.seq_id == seq_id
    {
      this.stored_query_id := stored_query_id;
      this.params := params;
      this.seq_id := seq_id;
    }

    function Contents(): Fields
      reads this
    {
      Fields(stored_query_id, seq_id, params)
    }

    method AddParam(name: Text, value: Value)
      modifies this`params
      ensures params == Insert(old(params), name, value)
      ensures Sorted(old(params)) ==> Sorted(params) && Gained(old(params), params, name, [value])
    {
      hide Insert, Sorted, ValuesOf;
      if Sorted(params) {
        InsertSorted(params, name, value);
        forall k
          ensures ValuesOf(Insert(params, name, value), k) == ValuesOf(params, k) + (if k == name then [value] else [])
        {
          InsertValues(params, name, value, k);
        }
      }
      params := Insert(params, name, value);
    }

    method EraseParam(name: Text)
      modifies this`params
      ensures forall k :: ValuesOf(params, k) == if k == name then [] else ValuesOf(old(params), k)
      ensures Sorted(old(params)) ==> Sorted(params)
    {
      forall k ensures ValuesOf(Without(params, name), k) == if k == name then [] else ValuesOf(params, k) {
        WithoutValues(params, name, k);
      }
      if Sorted(params) {
        WithoutSorted(params, name);
      }
      params := Without(params, name);
    }

    // Throws when a parameter has a value of an unsupported type.
    method GetId(sha1: seq<Byte> -> Digest) returns (r: Option<Text>)
      requires |stored_query_id| < TWO_64
      requires forall i :: 0 <= i < |params| ==> |params[i].key| < TWO_64 && Storable(params[i].value)
      ensures r == if Supported(params) then Some(IdText(sha1, Contents())) else None
    {
      hide OBStream.Valid, OBStream.Stored, EncodeString, EncodeUnsigned, EncodeMap, Pack, FieldBits, Base64.Encode,
           Supported, Storable;
      var stream := new OBStream();
      stream.PutString(QUERY_TAG);
      stream.PutUnsigned(FEATURE_ID_REVISION);
      stream.PutString(stored_query_id);
      stream.PutUnsigned(seq_id);
      var ok := stream.PutValueMap(params);
      if !ok {
        return None;
      }
      FieldBitsInOrder(Contents());
      var raw_data := stream.RawData();
      var md := sha1(MAGIC + raw_data);
      var raw_id := md + raw_data;
      var id := Base64.Encode(raw_id);
      var tmp := PREFIX;
      for i := 0 to |id|
        invariant tmp == PREFIX + Base64.ToIdText(id)[..i]
      {
        tmp := tmp + [Base64.ToIdChar(id[i])];
      }
      assert Base64.ToIdText(id)[..|id|] == Base64.ToIdText(id);
      r := Some(tmp);
    }

    static method CreateFromId(sha1: seq<Byte> -> Digest, id: Text) returns (r: Option<FeatureID>)
      ensures r.Some? <==> ParseId(sha1, id).Some?
      ensures r.Some? <==>
        exists raw, f :: raw != [] && Carries(sha1, id, raw) && ReadsAs(Unpack(raw), f)
      ensures r.Some? ==> fresh(r.value)
      ensures r.Some? ==> r.value.Contents() == ParseId(sha1, id).value.(seqId := 0)
    {
      hide DecodeString, DecodeUnsigned, DecodeMap, Unpack, Base64.Decode, Carries, ReadsAs;
      AcceptedExactly(sha1, id);
      if !(PREFIX <= id) {
        return None;
      }
      var tmp: Text := [];
      for i := 0 to |id| - 4
        invariant tmp == Base64.FromIdText(id[4..])[..i]
      {
        tmp := tmp + [Base64.FromIdChar(id[i + 4])];
      }
      assert tmp == Base64.FromIdText(id[4..]);
      var raw_id := Base64.Decode(tmp);
      if raw_id.None? || |raw_id.value| < SHA_DIGEST_LENGTH + 1 {
        return None;
      }
      var sha := raw_id.value[..SHA_DIGEST_LENGTH];
      var data := raw_id.value[SHA_DIGEST_LENGTH..];
      var md := sha1(MAGIC + data);
      if md != sha {
        return None;
      }
      var input := new IBStream(data);
      var prefix := input.GetString();
      if prefix != Some(QUERY_TAG) {
        return None;
      }
      var revision := input.GetUnsigned();
      if revision.None? || revision.value % TWO_32 != FEATURE_ID_REVISION {
        return None;
      }
      var stored_query_id := input.GetString();
      if stored_query_id.None? {
        return None;
      }
      var seq_id := input.GetUnsigned();
      if seq_id.None? {
        return None;
      }
      var params := input.GetValueMap();
      if params.None? {
        return None;
      }
      var result := new FeatureID(stored_query_id.value, params.value);
      r := Some(result);
    }
  }
}
