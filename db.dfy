/**
 * The typed store of src/db/mod.rs: `get`, `get_all`, `get_last`, `set` and
 * `delete` over a sled tree, with string keys (stored as their UTF-8 bytes),
 * values converted by a `Serializer`, and every failure reported as a
 * `DatabaseError`. Reads take the tree's contents by value, so that they
 * cannot change it; writes are methods on the tree object.
 */
module Db {
  import opened Results
  import opened Bytes
  import Utf8
  import Sled
  import opened Serial

  /** The error enum of src/common/mod.rs. */
  datatype DatabaseError = NotFound | Get | Set | Communicate | Deserialize | Serialize | NoDelete

  /** `get_from_tree`: the stored bytes, `NotFound` for a missing key, `Get` on an engine failure. */
  function GetFromTree(db: Sled.Contents, key: string, ioError: bool): (r: Result<seq<byte>, DatabaseError>)
    ensures r.Ok? <==> !ioError && Utf8.Encode(key) in db
    ensures r.Ok? ==> r.value == db[Utf8.Encode(key)]
    ensures r.Err? ==> r.error == (if ioError then DatabaseError.Get else NotFound)
  {
    match Sled.Lookup(db, Utf8.Encode(key), ioError)
    case Ok(Some(value)) => Ok(value)
    case Ok(None) => Err(NotFound)
    case Err(_) => Err(DatabaseError.Get)
  }

  /** `get`: the decoded value under `key`. */
  function GetValue<T>(db: Sled.Contents, key: string, ser: Serializer<T>, ioError: bool): (r: Result<T, DatabaseError>)
    ensures ioError ==> r == Err(DatabaseError.Get)
    ensures !ioError && Utf8.Encode(key) !in db ==> r == Err(NotFound)
    ensures !ioError && Utf8.Encode(key) in db ==>
      (r.Ok? <==> ser.fromBin(db[Utf8.Encode(key)]).Ok?) &&
      (r.Ok? ==> ser.fromBin(db[Utf8.Encode(key)]) == Ok(r.value)) &&
      (r.Err? ==> r.error == Deserialize)
  {
    match GetFromTree(db, key, ioError)
    case Err(e) => Err(e)
    case Ok(binaryData) =>
      match ser.fromBin(binaryData)
      case Ok(value) => Ok(value)
      case Err(_) => Err(Deserialize)
  }

  /** `get_all_from_tree`: the raw entries, in the engine's iteration order. */
  method GetAllFromTree(db: Sled.Tree, failAt: Option<nat>) returns (r: Result<seq<Sled.Entry>, DatabaseError>)
    ensures Sled.IterFails(db.m, failAt) ==> r == Err(DatabaseError.Get)
    ensures !Sled.IterFails(db.m, failAt) ==> r == Ok(Sled.Entries(db.m))
  {
    var items := Sled.Iter(db.m, failAt);
    var all := [];
    for i := 0 to |items|
      invariant i <= |db.m|
      invariant |all| == i
      invariant forall j :: 0 <= j < i ==> items[j].Ok? && all[j] == Sled.Entries(db.m)[j]
    {
      match items[i]
      case Ok(value) =>
        all := all + [value];
      case Err(_) =>
        return Err(DatabaseError.Get);
    }
    if !Sled.IterFails(db.m, failAt) {
      assert all == Sled.Entries(db.m);
    }
    return Ok(all);
  }

  /**
   * What `get_all` returns for contents `m`: `Get` when the scan fails,
   * `Deserialize` when any one entry does not decode, and otherwise every
   * entry, decoded, in key order.
   */
  function Snapshot<T>(m: Sled.Contents, ser: Serializer<T>, failAt: Option<nat>): (r: Result<seq<(string, T)>, DatabaseError>)
    ensures r == Err(DatabaseError.Get) <==> Sled.IterFails(m, failAt)
    ensures r == Err(Deserialize) <==>
      !Sled.IterFails(m, failAt) && exists i :: 0 <= i < |m| && !Decodable(Sled.Entries(m)[i], ser)
    ensures r.Err? ==> r.error == DatabaseError.Get || r.error == Deserialize
    ensures r.Ok? ==> |r.value| == |m|
    ensures r.Ok? ==> forall i :: 0 <= i < |m| ==>
      Utf8.Encode(r.value[i].0) == Sled.Entries(m)[i].0 && ser.fromBin(Sled.Entries(m)[i].1) == Ok(r.value[i].1)
    ensures r.Ok? ==> DistinctKeys(r.value)
    ensures r.Ok? ==> forall i :: 0 <= i < |m| ==>
      Utf8.Encode(r.value[i].0) in m && ser.fromBin(m[Utf8.Encode(r.value[i].0)]) == Ok(r.value[i].1)
  {
    if Sled.IterFails(m, failAt) then Err(DatabaseError.Get)
    else
      match DecodeEntries(Sled.Entries(m), ser)
      case None =>
        var es := Sled.Entries(m);
        var i :| 0 <= i < |es| && !Decodable(es[i], ser);
        assert 0 <= i < |m| && !Decodable(Sled.Entries(m)[i], ser);
        Err(Deserialize)
      case Some(s) =>
        DecodedScan(m, ser, s);
        Ok(s)
  }

  /** A fully decoded scan lines up with the engine's entries, one pair per key. */
  lemma DecodedScan<T>(m: Sled.Contents, ser: Serializer<T>, s: seq<(string, T)>)
    requires DecodeEntries(Sled.Entries(m), ser) == Some(s)
    ensures |s| == |m|
    ensures forall i :: 0 <= i < |m| ==>
      Utf8.Encode(s[i].0) == Sled.Entries(m)[i].0 && ser.fromBin(Sled.Entries(m)[i].1) == Ok(s[i].1)
    ensures DistinctKeys(s)
    ensures forall i :: 0 <= i < |m| ==>
      Utf8.Encode(s[i].0) in m && ser.fromBin(m[Utf8.Encode(s[i].0)]) == Ok(s[i].1)
  {
    var es := Sled.Entries(m);
    forall i | 0 <= i < |m|
      ensures Utf8.Encode(s[i].0) == es[i].0 && ser.fromBin(es[i].1) == Ok(s[i].1)
    {
      assert DecodeEntry(es[i], ser) == Some(s[i]);
    }
    forall i | 0 <= i < |m| ensures Utf8.Encode(s[i].0) in m && m[Utf8.Encode(s[i].0)] == es[i].1 {
      Sled.EntriesEnumerate(m);
      assert es[i] in es;
    }
    forall i, j | 0 <= i < j < |s| ensures s[i].0 != s[j].0 {
      Sled.EntriesDistinct(m, i, j);
    }
  }

  /** `get_all`: every entry decoded, or none at all. */
  method GetAll<T>(tree: Sled.Tree, ser: Serializer<T>, failAt: Option<nat>) returns (r: Result<seq<(string, T)>, DatabaseError>)
    ensures r == Snapshot(tree.m, ser, failAt)
  {
    var fetched := GetAllFromTree(tree, failAt);
    if fetched.Err? {
      return Err(fetched.error);
    }
    var decoded := DecodeAll(fetched.value, ser);
    match decoded
    case None => r := Err(Deserialize);
    case Some(all) => r := Ok(all);
  }

  /** `get_last_from_tree`: the raw entry under the greatest key. */
  function GetLastFromTree(db: Sled.Contents, ioError: bool): (r: Result<Sled.Entry, DatabaseError>)
    ensures r.Err? <==> ioError || db == map[]
    ensures r.Err? ==> r.error == (if ioError then DatabaseError.Get else NotFound)
    ensures r.Ok? ==> r.value.0 in db && db[r.value.0] == r.value.1
    ensures r.Ok? ==> forall k :: k in db && k != r.value.0 ==> Less(k, r.value.0)
  {
    match Sled.Last(db, ioError)
    case Ok(Some(tuple)) => Ok(tuple)
    case Ok(None) => Err(NotFound)
    case Err(_) => Err(DatabaseError.Get)
  }

  /**
   * `get_last`: the decoded entry under the greatest key in byte order,
   * which need not be the one stored last.
   */
  function GetLast<T>(db: Sled.Contents, ser: Serializer<T>, ioError: bool): (r: Result<(string, T), DatabaseError>)
    ensures ioError ==> r == Err(DatabaseError.Get)
    ensures !ioError && db == map[] ==> r == Err(NotFound)
    ensures !ioError && db != map[] ==>
      (r.Ok? <==> Decodable(Sled.LastEntry(db), ser)) && (r.Err? ==> r.error == Deserialize)
    ensures r.Ok? ==> var k := Utf8.Encode(r.value.0);
      k in db && ser.fromBin(db[k]) == Ok(r.value.1) &&
      forall k' :: k' in db && k' != k ==> Less(k', k)
  {
    match GetLastFromTree(db, ioError)
    case Err(e) => Err(e)
    case Ok((binaryKey, binaryValue)) =>
      match Utf8.Decode(binaryKey)
      case None => Err(Deserialize)
      case Some(key) =>
        Utf8.EncodeDecode(binaryKey);
        match ser.fromBin(binaryValue)
        case Err(_) => Err(Deserialize)
        case Ok(value) => Ok((key, value))
  }

  /** `set_to_tree`: an engine insert, reporting failure as `Set`. */
  method SetToTree(db: Sled.Tree, key: string, bin: seq<byte>, ioError: bool) returns (r: Result<(), DatabaseError>)
    modifies db
    ensures r.Err? <==> ioError
    ensures r.Err? ==> r.error == DatabaseError.Set && db.m == old(db.m)
    ensures r.Ok? ==> db.m == old(db.m)[Utf8.Encode(key) := bin]
  {
    var inserted := db.Insert(Utf8.Encode(key), bin, ioError);
    match inserted
    case Ok(_) => r := Ok(());
    case Err(_) => r := Err(DatabaseError.Set);
  }

  /**
   * `set`: serializes, then writes, overwriting any earlier value. An insert
   * failure surfaces as `Communicate`, not as the `Set` that `set_to_tree`
   * reported.
   */
  method Set<T(!new)>(tree: Sled.Tree, key: string, data: T, ser: Serializer<T>, ioError: bool) returns (r: Result<(), DatabaseError>)
    modifies tree
    ensures ser.toBin(data).Err? ==> r == Err(Serialize) && tree.m == old(tree.m)
    ensures ser.toBin(data).Ok? && ioError ==> r == Err(Communicate) && tree.m == old(tree.m)
    ensures ser.toBin(data).Ok? && !ioError ==>
      r == Ok(()) && tree.m == old(tree.m)[Utf8.Encode(key) := ser.toBin(data).value]
    // reading back what was written
    ensures r.Ok? && RoundTrips(ser) ==> GetValue(tree.m, key, ser, false) == Ok(data)
    // every other key reads as before
    ensures forall k :: k != key ==> GetValue(tree.m, k, ser, false) == GetValue(old(tree.m), k, ser, false)
    // writing the value a key already holds changes nothing
    ensures (ser.toBin(data).Ok? && Utf8.Encode(key) in old(tree.m) &&
             old(tree.m)[Utf8.Encode(key)] == ser.toBin(data).value) ==> tree.m == old(tree.m)
  {
    var binaryData := ser.toBin(data);
    if binaryData.Err? {
      return Err(Serialize);
    }
    var written := SetToTree(tree, key, binaryData.value, ioError);
    if written.Err? {
      return Err(Communicate);
    }
    r := Ok(());
    forall k | k != key ensures Utf8.Encode(k) != Utf8.Encode(key) {
      Utf8.EncodeInjective(k, key);
    }
  }

  /** `delete`: removes `key`; `NotFound` when it was absent, `NoDelete` on an engine failure. */
  method Delete(tree: Sled.Tree, key: string, ioError: bool) returns (r: Result<(), DatabaseError>)
    modifies tree
    ensures ioError ==> r == Err(NoDelete) && tree.m == old(tree.m)
    ensures !ioError && Utf8.Encode(key) !in old(tree.m) ==> r == Err(NotFound) && tree.m == old(tree.m)
    ensures !ioError && Utf8.Encode(key) in old(tree.m) ==>
      r == Ok(()) && tree.m == old(tree.m) - {Utf8.Encode(key)}
    ensures !ioError ==> GetFromTree(tree.m, key, false) == Err(NotFound)
  {
    var removed := tree.Remove(Utf8.Encode(key), ioError);
    match removed
    case Ok(Some(_)) => r := Ok(());
    case Ok(None) =>
      assert tree.m == old(tree.m);
      r := Err(NotFound);
    case Err(_) => r := Err(NoDelete);
  }
}
