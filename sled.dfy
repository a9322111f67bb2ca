/**
 * The embedded key-value engine, reduced to what the store relies on: a
 * finite map from byte keys to byte values, iterated in key order, with
 * atomic single-key reads and writes. Every engine call may fail with an
 * I/O error; which call fails is a parameter (`ioError`, `failAt`) chosen by
 * the environment, and a failed write leaves the contents as they were.
 */
module Sled {
  import opened Results
  import opened Bytes

  type Key = seq<byte>
  type Value = seq<byte>
  type Contents = map<Key, Value>
  type Entry = (Key, Value)

  /** The engine's own failure (storage or transport I/O). */
  datatype SledError = Io

  /** Keys strictly increase along `es`. */
  predicate StrictlySorted(es: seq<Entry>)
  {
    forall i, j :: 0 <= i < j < |es| ==> Less(es[i].0, es[j].0)
  }

  /** The entries of `m`, as the engine's iterator yields them: in key order. */
  function Entries(m: Contents): (es: seq<Entry>)
    ensures |es| == |m|
    decreases |m|
  {
    if m == map[] then []
    else
      var k := Least(m.Keys);
      var rest := m - {k};
      assert rest.Keys == m.Keys - {k};
      [(k, m[k])] + Entries(rest)
  }

  /** Each entry of `m` appears in the iteration; nothing else does. */
  predicate Enumerates(es: seq<Entry>, m: Contents)
  {
    && (forall i :: 0 <= i < |es| ==> es[i].0 in m && m[es[i].0] == es[i].1)
    && (forall k :: k in m ==> exists i :: 0 <= i < |es| && es[i].0 == k)
  }

  /** The iteration lists exactly the entries of `m`. */
  lemma {:induction false} EntriesEnumerate(m: Contents)
    ensures Enumerates(Entries(m), m)
    decreases |m|
  {
    if m != map[] {
      var k := Least(m.Keys);
      var rest := m - {k};
      assert rest.Keys == m.Keys - {k};
      var tail := Entries(rest);
      EntriesEnumerate(rest);
      var es := Entries(m);
      assert es == [(k, m[k])] + tail;
      forall i | 0 <= i < |es| ensures es[i].0 in m && m[es[i].0] == es[i].1 {
        if i > 0 {
          assert es[i] == tail[i - 1];
        }
      }
      forall k' | k' in m ensures exists i :: 0 <= i < |es| && es[i].0 == k' {
        CoverStep(k, m[k], rest, tail, k');
      }
    }
  }

  lemma CoverStep(k: Key, v: Value, rest: Contents, tail: seq<Entry>, k': Key)
    requires forall x :: x in rest ==> exists i :: 0 <= i < |tail| && tail[i].0 == x
    requires k' == k || k' in rest
    ensures exists i :: 0 <= i < |[(k, v)] + tail| && ([(k, v)] + tail)[i].0 == k'
  {
    var es := [(k, v)] + tail;
    if k' == k {
      assert es[0].0 == k';
    } else {
      var i :| 0 <= i < |tail| && tail[i].0 == k';
      assert es[i + 1].0 == k';
    }
  }

  /** The iteration visits keys in strictly increasing order. */
  lemma {:induction false} EntriesSorted(m: Contents)
    ensures StrictlySorted(Entries(m))
    decreases |m|
  {
    if m != map[] {
      var k := Least(m.Keys);
      var rest := m - {k};
      EntriesSorted(rest);
      EntriesEnumerate(rest);
      assert Entries(m) == [(k, m[k])] + Entries(rest);
      ConsSorted(k, m[k], Entries(rest), m.Keys);
    }
  }

  /** A key below every key of a sorted tail keeps the list sorted in front of it. */
  lemma ConsSorted(k: Key, v: Value, tail: seq<Entry>, keys: set<Key>)
    requires StrictlySorted(tail)
    requires k in keys && forall k' :: k' in keys && k' != k ==> Less(k, k')
    requires forall i :: 0 <= i < |tail| ==> tail[i].0 in keys && tail[i].0 != k
    ensures StrictlySorted([(k, v)] + tail)
  {
    var es := [(k, v)] + tail;
    forall i, j | 0 <= i < j < |es| ensures Less(es[i].0, es[j].0) {
      assert es[j] == tail[j - 1];
      if i > 0 {
        assert es[i] == tail[i - 1];
      }
    }
  }

  /** The iteration lists exactly the stored entries, in strictly increasing key order. */
  lemma EntriesSpec(m: Contents)
    ensures Enumerates(Entries(m), m)
    ensures StrictlySorted(Entries(m))
  {
    EntriesEnumerate(m);
    EntriesSorted(m);
  }

  /** Entries with distinct positions have distinct keys. */
  lemma EntriesDistinct(m: Contents, i: nat, j: nat)
    requires i < j < |Entries(m)|
    ensures Entries(m)[i].0 != Entries(m)[j].0
  {
    var es := Entries(m);
    EntriesSpec(m);
    LessIrreflexive(es[i].0);
  }

  /** The entry at the end of the iteration order carries the greatest key. */
  lemma {:induction false} LastIsGreatest(m: Contents)
    requires m != map[]
    ensures var es := Entries(m);
      forall k :: k in m && k != es[|es| - 1].0 ==> Less(k, es[|es| - 1].0)
  {
    var es := Entries(m);
    EntriesSpec(m);
    forall k | k in m && k != es[|es| - 1].0 ensures Less(k, es[|es| - 1].0) {
      var i :| 0 <= i < |es| && es[i].0 == k;
      assert i < |es| - 1;
    }
  }

  /** Whether an iteration that fails after `failAt` entries fails on `m` at all. */
  predicate IterFails(m: Contents, failAt: Option<nat>)
  {
    failAt.Some? && failAt.value <= |m|
  }

  /**
   * `Tree::iter`: every entry in key order, each wrapped in `Ok`; when the
   * engine fails after `failAt.value` entries, an `Err` takes the next place
   * and ends the iteration.
   */
  function Iter(m: Contents, failAt: Option<nat>): (items: seq<Result<Entry, SledError>>)
    ensures IterFails(m, failAt) ==>
      |items| == failAt.value + 1 && items[failAt.value] == Err(Io)
    ensures !IterFails(m, failAt) ==> |items| == |m|
    ensures forall i :: 0 <= i < |items| && items[i].Ok? ==> i < |m| && items[i].value == Entries(m)[i]
    ensures forall i :: 0 <= i < |items| - 1 ==> items[i].Ok?
    ensures !IterFails(m, failAt) ==> forall i :: 0 <= i < |items| ==> items[i].Ok?
  {
    var es := Entries(m);
    var oks := seq(|es|, i requires 0 <= i < |es| => Ok(es[i]));
    assert forall i :: 0 <= i < |oks| ==> oks[i] == Ok(es[i]);
    if IterFails(m, failAt) then
      var items := oks[..failAt.value] + [Err(Io)];
      assert forall i :: 0 <= i < failAt.value ==> items[i] == Ok(es[i]);
      items
    else oks
  }

  /** `Tree::get`. */
  function Lookup(m: Contents, key: Key, ioError: bool): Result<Option<Value>, SledError>
  {
    if ioError then Err(Io) else if key in m then Ok(Some(m[key])) else Ok(None)
  }

  /** The entry under the greatest key: the end of the iteration order. */
  function LastEntry(m: Contents): (e: Entry)
    requires m != map[]
    ensures e.0 in m && m[e.0] == e.1
    ensures forall k :: k in m && k != e.0 ==> Less(k, e.0)
  {
    var es := Entries(m);
    EntriesSpec(m);
    LastIsGreatest(m);
    es[|es| - 1]
  }

  /** `Tree::last`: the entry under the greatest key, `None` when empty. */
  function Last(m: Contents, ioError: bool): (r: Result<Option<Entry>, SledError>)
    ensures ioError ==> r == Err(Io)
    ensures !ioError ==> (r == Ok(None) <==> m == map[])
    // otherwise a stored entry whose key is greater than every other stored key
    ensures !ioError && m != map[] ==>
      && r.Ok? && r.value.Some?
      && r.value.value.0 in m && m[r.value.value.0] == r.value.value.1
      && forall k :: k in m && k != r.value.value.0 ==> Less(k, r.value.value.0)
  {
    if ioError then Err(Io)
    else if m == map[] then Ok(None)
    else Ok(Some(LastEntry(m)))
  }

  /**
   * The greatest key is not the latest insertion: into a new tree, insert
   * key [2] and then key [1]; `last` still returns the entry under [2].
   */
  method LastIsNotLatest(v: Value, w: Value) returns (r: Result<Option<Entry>, SledError>)
    ensures r == Ok(Some(([2 as byte], v)))
  {
    var t := new Tree();
    var _ := t.Insert([2], v, false);
    var _ := t.Insert([1], w, false);
    assert [1 as byte] in t.m && [2 as byte] in t.m;
    r := Last(t.m, false);
    var e := LastEntry(t.m);
    assert e.0 == [2 as byte] || Less([2 as byte], e.0);
  }

  /** A sled tree, updated in place by `insert` and `remove`. */
  class Tree {
    var m: Contents

    constructor ()
      ensures m == map[]
    {
      m := map[];
    }

    /** `Tree::insert`: stores `value` under `key`, returning the value it replaced. */
    method Insert(key: Key, value: Value, ioError: bool) returns (r: Result<Option<Value>, SledError>)
      modifies this
      ensures r.Err? <==> ioError
      ensures ioError ==> m == old(m)
      ensures !ioError ==> m == old(m)[key := value]
      ensures r.Ok? ==> r.value == (if key in old(m) then Some(old(m)[key]) else None)
    {
      if ioError {
        return Err(Io);
      }
      r := Ok(if key in m then Some(m[key]) else None);
      m := m[key := value];
    }

    /** `Tree::remove`: drops `key`, returning the value it held. */
    method Remove(key: Key, ioError: bool) returns (r: Result<Option<Value>, SledError>)
      modifies this
      ensures r.Err? <==> ioError
      ensures ioError ==> m == old(m)
      ensures !ioError ==> m == old(m) - {key}
      ensures r.Ok? ==> r.value == (if key in old(m) then Some(old(m)[key]) else None)
    {
      if ioError {
        return Err(Io);
      }
      r := Ok(if key in m then Some(m[key]) else None);
      m := m - {key};
    }
  }
}
