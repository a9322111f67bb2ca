/**
 * The second copy of the typed store, src/common/dbs/interface.rs. Its
 * engine-level helpers report the internal `DatabaseError`; the public
 * operations translate that into one error enum per operation:
 * `GetError`, `SetError`, `DeleteError`. It has no `get_last`.
 */
module Interface {
  import opened Results
  import opened Bytes
  import Utf8
  import Sled
  import opened Serial
  import Db

  /** The variants of `errors::DatabaseError` that this file produces or matches. */
  datatype DatabaseError = NotFound | Get | Set

  datatype GetError = NotFound | Database | Deserialize

  datatype SetError = Serialize | Database

  datatype DeleteError = NotFound | NoDelete

  /** `get_from_tree`: the stored bytes, or `NotFound`, or `Get` on an engine failure. */
  function GetFromTree(db: Sled.Contents, key: string, ioError: bool): (r: Result<seq<byte>, DatabaseError>)
    ensures r.Ok? <==> !ioError && Utf8.Encode(key) in db
    ensures r.Ok? ==> r.value == db[Utf8.Encode(key)]
    ensures r.Err? ==> r.error == (if ioError then DatabaseError.Get else DatabaseError.NotFound)
  {
    match Sled.Lookup(db, Utf8.Encode(key), ioError)
    case Ok(Some(value)) => Ok(value)
    case Ok(None) => Err(DatabaseError.NotFound)
    case Err(_) => Err(DatabaseError.Get)
  }

  /** `get_all_from_tree`: the raw entries in iteration order, or `Get`. */
  method GetAllFromTree(db: Sled.Tree, failAt: Option<nat>) returns (r: Result<seq<Sled.Entry>, DatabaseError>)
    ensures Sled.IterFails(db.m, failAt) ==> r == Err(DatabaseError.Get)
    ensures !Sled.IterFails(db.m, failAt) ==> r == Ok(Sled.Entries(db.m))
  {
    var items := Sled.Iter(db.m, failAt);
    var all := [];
    for i := 0 to |items|
      invariant i <= |db.m|
      invariant |all| == i
      invariant forall j :: 0 <= j < i ==> items[j].Ok? && all[j] == Sled.Entries(db.m)[j]
    {
      match items[i]
      case Ok(value) =>
        all := all + [value];
      case Err(_) =>
        return Err(DatabaseError.Get);
    }
    if !Sled.IterFails(db.m, failAt) {
      assert all == Sled.Entries(db.m);
    }
    return Ok(all);
  }

  /** The outcome of `get_all` here, read off the outcome of `get_all` in src/db/mod.rs. */
  lemma GetAllOutcome<T>(m: Sled.Contents, ser: Serializer<T>, failAt: Option<nat>)
    ensures var r := FromDb(Db.Snapshot(m, ser, failAt));
      && (Sled.IterFails(m, failAt) ==> r == Err(GetError.Database))
      && (!Sled.IterFails(m, failAt) ==>
            match DecodeEntries(Sled.Entries(m), ser)
            case Some(s) => r == Ok(s)
            case None => r == Err(GetError.Deserialize))
      && r != Err(GetError.NotFound)
      && (m == map[] && !Sled.IterFails(m, failAt) ==> r == Ok([]))
      && (r.Ok? ==> |r.value| == |m|)
  {
    if !Sled.IterFails(m, failAt) && DecodeEntries(Sled.Entries(m), ser).Some? {
      var s := DecodeEntries(Sled.Entries(m), ser).value;
      Db.DecodedScan(m, ser, s);
    }
  }

  /**
   * `get_all`. An engine failure is translated by a match that sends
   * `NotFound` to `NotFound`; since the scan only ever fails with `Get`, the
   * caller always sees `Database`, and an empty tree reads as the empty list.
   */
  method GetAll<T>(tree: Sled.Tree, ser: Serializer<T>, failAt: Option<nat>) returns (r: Result<seq<(string, T)>, GetError>)
    // the same outcome as `get_all` of src/db/mod.rs, with its error renamed;
    // GetAllOutcome spells out what that outcome is
    ensures r == FromDb(Db.Snapshot(tree.m, ser, failAt))
  {
    var fetched := GetAllFromTree(tree, failAt);
    match fetched
    case Err(error) =>
      r := Err(match error
               case NotFound => GetError.NotFound
               case _ => GetError.Database);
    case Ok(binaryData) =>
      var decoded := DecodeAll(binaryData, ser);
      match decoded
      case None => r := Err(GetError.Deserialize);
      case Some(all) => r := Ok(all);
  }

  /** `get`: the decoded value; `NotFound` stays `NotFound`, any other engine error is `Database`. */
  function GetValue<T>(db: Sled.Contents, key: string, ser: Serializer<T>, ioError: bool): (r: Result<T, GetError>)
    ensures ioError ==> r == Err(GetError.Database)
    ensures !ioError && Utf8.Encode(key) !in db ==> r == Err(GetError.NotFound)
    ensures !ioError && Utf8.Encode(key) in db ==>
      (r.Ok? <==> ser.fromBin(db[Utf8.Encode(key)]).Ok?) &&
      (r.Ok? ==> ser.fromBin(db[Utf8.Encode(key)]) == Ok(r.value)) &&
      (r.Err? ==> r.error == GetError.Deserialize)
    // the same outcome as `get` of src/db/mod.rs, with its error renamed
    ensures r == FromDb(Db.GetValue(db, key, ser, ioError))
  {
    match GetFromTree(db, key, ioError)
    case Ok(binaryData) =>
      (match ser.fromBin(binaryData)
       case Ok(value) => Ok(value)
       case Err(_) => Err(GetError.Deserialize))
    case Err(error) =>
      match error
      case NotFound => Err(GetError.NotFound)
      case _ => Err(GetError.Database)
  }

  /** `set_to_tree`: an engine insert, reporting failure as `Set`. */
  method SetToTree(db: Sled.Tree, key: string, bin: seq<byte>, ioError: bool) returns (r: Result<(), DatabaseError>)
    modifies db
    ensures r.Err? <==> ioError
    ensures r.Err? ==> r.error == DatabaseError.Set && db.m == old(db.m)
    ensures r.Ok? ==> db.m == old(db.m)[Utf8.Encode(key) := bin]
  {
    var inserted := db.Insert(Utf8.Encode(key), bin, ioError);
    match inserted
    case Ok(_) => r := Ok(());
    case Err(_) => r := Err(DatabaseError.Set);
  }

  /** `set`: serializes, then writes, overwriting any earlier value. */
  method Set<T(!new)>(tree: Sled.Tree, key: string, data: T, ser: Serializer<T>, ioError: bool) returns (r: Result<(), SetError>)
    modifies tree
    ensures ser.toBin(data).Err? ==> r == Err(SetError.Serialize) && tree.m == old(tree.m)
    ensures ser.toBin(data).Ok? && ioError ==> r == Err(SetError.Database) && tree.m == old(tree.m)
    ensures ser.toBin(data).Ok? && !ioError ==>
      r == Ok(()) && tree.m == old(tree.m)[Utf8.Encode(key) := ser.toBin(data).value]
    // reading back what was written
    ensures r.Ok? && RoundTrips(ser) ==> GetValue(tree.m, key, ser, false) == Ok(data)
    // every other key reads as before
    ensures forall k :: k != key ==> GetValue(tree.m, k, ser, false) == GetValue(old(tree.m), k, ser, false)
  {
    var binaryData := ser.toBin(data);
    if binaryData.Err? {
      return Err(SetError.Serialize);
    }
    var written := SetToTree(tree, key, binaryData.value, ioError);
    if written.Err? {
      return Err(SetError.Database);
    }
    r := Ok(());
    forall k | k != key ensures Utf8.Encode(k) != Utf8.Encode(key) {
      Utf8.EncodeInjective(k, key);
    }
  }

  /** `delete`: removes `key`; `NotFound` when it was absent, `NoDelete` on an engine failure. */
  method Delete(tree: Sled.Tree, key: string, ioError: bool) returns (r: Result<(), DeleteError>)
    modifies tree
    ensures ioError ==> r == Err(DeleteError.NoDelete) && tree.m == old(tree.m)
    ensures !ioError && Utf8.Encode(key) !in old(tree.m) ==> r == Err(DeleteError.NotFound) && tree.m == old(tree.m)
    ensures !ioError && Utf8.Encode(key) in old(tree.m) ==>
      r == Ok(()) && tree.m == old(tree.m) - {Utf8.Encode(key)}
  {
    var removed := tree.Remove(Utf8.Encode(key), ioError);
    match removed
    case Ok(Some(_)) => r := Ok(());
    case Ok(None) =>
      assert tree.m == old(tree.m);
      r := Err(DeleteError.NotFound);
    case Err(_) => r := Err(DeleteError.NoDelete);
  }

  /** The `GetError` this file reports where src/db/mod.rs reports `e`. */
  function FromDbError(e: Db.DatabaseError): GetError
  {
    match e
    case NotFound => GetError.NotFound
    case Deserialize => GetError.Deserialize
    case _ => GetError.Database
  }

  /** A result of src/db/mod.rs with its error renamed as this file names it. */
  function FromDb<T>(r: Result<T, Db.DatabaseError>): Result<T, GetError>
  {
    match r
    case Ok(v) => Ok(v)
    case Err(e) => Err(FromDbError(e))
  }
}
