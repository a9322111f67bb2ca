/**
 * The `Serializable` capability: a pair `to_bin`/`from_bin` per value type,
 * either of which may fail. Its concrete encoding is not part of this model;
 * the lemmas that need the two to be inverse take `RoundTrips` as a
 * hypothesis. Also here: decoding a whole scan of engine entries into
 * `(String, T)` pairs, all or nothing, as both stores do.
 */
module Serial {
  import opened Results
  import opened Bytes
  import Utf8
  import Sled

  /** The error either half of the capability reports; its detail is only logged. */
  datatype SerialError = SerialError

  datatype Serializer<!T> = Serializer(
    toBin: T -> Result<seq<byte>, SerialError>,
    fromBin: seq<byte> -> Result<T, SerialError>)

  /** The capability's contract: what `to_bin` produces, `from_bin` reads back. */
  ghost predicate RoundTrips<T(!new)>(ser: Serializer<T>)
  {
    forall v :: ser.toBin(v).Ok? ==> ser.fromBin(ser.toBin(v).value) == Ok(v)
  }

  /** An engine entry whose key is UTF-8 and whose value `from_bin` accepts. */
  predicate Decodable<T>(e: Sled.Entry, ser: Serializer<T>)
  {
    Utf8.Decode(e.0).Some? && ser.fromBin(e.1).Ok?
  }

  function DecodeEntry<T>(e: Sled.Entry, ser: Serializer<T>): (r: Option<(string, T)>)
    ensures r.Some? <==> Decodable(e, ser)
    ensures r.Some? ==> Utf8.Encode(r.value.0) == e.0 && ser.fromBin(e.1) == Ok(r.value.1)
  {
    match Utf8.Decode(e.0)
    case None => None
    case Some(key) =>
      Utf8.EncodeDecode(e.0);
      match ser.fromBin(e.1)
      case Err(_) => None
      case Ok(value) => Some((key, value))
  }

  /** Every entry decoded, or nothing at all when any one of them does not decode. */
  function DecodeEntries<T>(es: seq<Sled.Entry>, ser: Serializer<T>): (r: Option<seq<(string, T)>>)
    ensures r.Some? <==> forall i :: 0 <= i < |es| ==> Decodable(es[i], ser)
    ensures r.Some? ==> |r.value| == |es|
    ensures r.Some? ==> forall i :: 0 <= i < |es| ==> DecodeEntry(es[i], ser) == Some(r.value[i])
  {
    if es == [] then Some([])
    else match DecodeEntry(es[0], ser)
      case None => None
      case Some(e) =>
        match DecodeEntries(es[1..], ser)
        case None =>
          assert forall i :: 1 <= i < |es| ==> es[i] == es[1..][i - 1];
          None
        case Some(rest) =>
          assert forall i :: 1 <= i < |es| ==> es[i] == es[1..][i - 1];
          Some([e] + rest)
  }

  /**
   * The `for (binary_key, binary_value) in binary_data` loop of `get_all`:
   * convert each key with `String::from_utf8` and each value with
   * `from_bin`, stopping at the first entry that fails either.
   */
  method DecodeAll<T>(binaryData: seq<Sled.Entry>, ser: Serializer<T>) returns (r: Option<seq<(string, T)>>)
    ensures r == DecodeEntries(binaryData, ser)
  {
    var all := [];
    for i := 0 to |binaryData|
      invariant |all| == i
      invariant forall j :: 0 <= j < i ==> DecodeEntry(binaryData[j], ser) == Some(all[j])
    {
      var (binaryKey, binaryValue) := binaryData[i];
      var key := Utf8.Decode(binaryKey);
      if key.None? {
        assert !Decodable(binaryData[i], ser);
        return None;
      }
      var value := ser.fromBin(binaryValue);
      if value.Err? {
        assert !Decodable(binaryData[i], ser);
        return None;
      }
      all := all + [(key.value, value.value)];
    }
    DecodeEntriesOf(binaryData, ser, all);
    return Some(all);
  }

  /** Entries decoded one by one, all of them, are what the whole scan decodes to. */
  lemma DecodeEntriesOf<T>(es: seq<Sled.Entry>, ser: Serializer<T>, all: seq<(string, T)>)
    requires |all| == |es|
    requires forall j :: 0 <= j < |es| ==> DecodeEntry(es[j], ser) == Some(all[j])
    ensures DecodeEntries(es, ser) == Some(all)
  {
    assert forall j :: 0 <= j < |es| ==> Decodable(es[j], ser);
    assert DecodeEntries(es, ser).value == all;
  }

  /** The keys of a list of entries, in order. */
  function Keys<T>(s: seq<(string, T)>): seq<string>
  {
    seq(|s|, i requires 0 <= i < |s| => s[i].0)
  }

  /** No key occurs twice. */
  predicate NoDuplicates(ks: seq<string>)
  {
    forall i, j :: 0 <= i < j < |ks| ==> ks[i] != ks[j]
  }

  /** No key occurs twice among the entries. */
  predicate DistinctKeys<T>(s: seq<(string, T)>)
  {
    NoDuplicates(Keys(s))
  }

  /** Entries at two positions of a list with distinct keys have different keys. */
  lemma DistinctKeysAt<T>(s: seq<(string, T)>, i: nat, j: nat)
    requires DistinctKeys(s) && i < |s| && j < |s| && i != j
    ensures s[i].0 != s[j].0
  {
    assert Keys(s)[i] == s[i].0 && Keys(s)[j] == s[j].0;
  }
}
