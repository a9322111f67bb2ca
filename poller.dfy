/**
 * The payment poller of src/poller/mod.rs. Each cycle reads every pending
 * invoice from the store, asks the chain for the recipient's balance (of the
 * invoice's token, or of the native coin), and for each invoice that is
 * covered deletes it and, only when the delete succeeded, hands it to the
 * gateway's callback. The chain is an oracle fixed for the cycle; the
 * callback is a log of the invoices it received.
 */
module Poller {
  import opened Results
  import Utf8
  import Sled
  import opened Serial
  import Db

  /** 2^256: `U256` amounts and balances stay below it. */
  const U256_LIMIT: int := 0x1_0000000000000000_0000000000000000_0000000000000000_0000000000000000
  type U256 = n: int | 0 <= n < U256_LIMIT

  /** How an invoice is paid: an ERC-20 token contract, or the native coin when absent. */
  datatype PaymentMethod = PaymentMethod(tokenAddress: Option<string>)

  /** The fields of an invoice the poller reads. */
  datatype Invoice = Invoice(to: string, amount: U256, paymentMethod: PaymentMethod)

  /** Why a balance query failed: the transport, or the token contract call. */
  datatype OracleError = Transport | ContractCall

  /**
   * The chain as the poller sees it during one cycle: the native balance of
   * an address, and `tokenBalance(contract, holder)`.
   */
  datatype Chain = Chain(
    nativeBalance: string -> Result<U256, OracleError>,
    tokenBalance: (string, string) -> Result<U256, OracleError>)

  /** `check_if_token_received`: whether `invoice.to` holds at least `amount` of the token. */
  function CheckIfTokenReceived(chain: Chain, token: string, invoice: Invoice): (r: Result<bool, OracleError>)
    ensures r.Ok? <==> chain.tokenBalance(token, invoice.to).Ok?
    ensures r.Err? ==> r.error == chain.tokenBalance(token, invoice.to).error
    ensures r.Ok? ==> (r.value <==> invoice.amount <= chain.tokenBalance(token, invoice.to).value)
  {
    match chain.tokenBalance(token, invoice.to)
    case Err(e) => Err(e)
    case Ok(balanceOfRecipient) => Ok(balanceOfRecipient >= invoice.amount)
  }

  /** `check_if_native_received`: whether `invoice.to` holds at least `amount` of the native coin. */
  function CheckIfNativeReceived(chain: Chain, invoice: Invoice): (r: Result<bool, OracleError>)
    ensures r.Ok? <==> chain.nativeBalance(invoice.to).Ok?
    ensures r.Err? ==> r.error == chain.nativeBalance(invoice.to).error
    ensures r.Ok? ==> (r.value <==> invoice.amount <= chain.nativeBalance(invoice.to).value)
  {
    match chain.nativeBalance(invoice.to)
    case Err(e) => Err(e)
    case Ok(balanceOfRecipient) => Ok(balanceOfRecipient >= invoice.amount)
  }

  /**
   * `check_and_process`: the invoice counts as paid when the balance of its
   * payment method covers the amount; a failed query counts as unpaid.
   */
  function CheckAndProcess(chain: Chain, invoice: Invoice): (settled: bool)
    ensures invoice.paymentMethod.tokenAddress.Some? ==>
      var q := chain.tokenBalance(invoice.paymentMethod.tokenAddress.value, invoice.to);
      (settled <==> q.Ok? && q.value >= invoice.amount)
    ensures invoice.paymentMethod.tokenAddress.None? ==>
      var q := chain.nativeBalance(invoice.to);
      (settled <==> q.Ok? && q.value >= invoice.amount)
  {
    match invoice.paymentMethod.tokenAddress
    case Some(address) =>
      (match CheckIfTokenReceived(chain, address, invoice)
       case Ok(result) => result
       case Err(_) => false)
    case None =>
      match CheckIfNativeReceived(chain, invoice)
      case Ok(result) => result
      case Err(_) => false
  }

  /**
   * Entry `i` of a cycle's snapshot reaches the callback: it is paid, and the
   * engine does not fail the delete (`removeFails(i)` says whether it does).
   */
  predicate Due(chain: Chain, removeFails: nat -> bool, i: nat, entry: (string, Invoice))
  {
    CheckAndProcess(chain, entry.1) && !removeFails(i)
  }

  /** The snapshot entries a cycle hands to the callback, in snapshot order. */
  function Fired(s: seq<(string, Invoice)>, chain: Chain, removeFails: nat -> bool): (f: seq<(string, Invoice)>)
    ensures |f| <= |s|
    decreases |s|
  {
    if s == [] then []
    else
      var n := |s| - 1;
      Fired(s[..n], chain, removeFails) + (if Due(chain, removeFails, n, s[n]) then [s[n]] else [])
  }

  /** The invoices of a list of entries, in order. */
  function Invoices(f: seq<(string, Invoice)>): seq<Invoice>
  {
    seq(|f|, i requires 0 <= i < |f| => f[i].1)
  }

  /** `idx` picks the entries of `f` out of `s`, at increasing positions, each of them due. */
  predicate Picks(idx: seq<nat>, f: seq<(string, Invoice)>, s: seq<(string, Invoice)>, chain: Chain, removeFails: nat -> bool)
  {
    && |idx| == |f|
    && (forall k :: 0 <= k < |idx| ==> idx[k] < |s| && f[k] == s[idx[k]] && Due(chain, removeFails, idx[k], s[idx[k]]))
    && (forall a, b :: 0 <= a < b < |idx| ==> idx[a] < idx[b])
  }

  /** What the callback receives is a due subsequence of the snapshot, in snapshot order. */
  lemma {:induction false} FiredInOrder(s: seq<(string, Invoice)>, chain: Chain, removeFails: nat -> bool)
    ensures exists idx :: Picks(idx, Fired(s, chain, removeFails), s, chain, removeFails)
    decreases |s|
  {
    if s == [] {
      var none: seq<nat> := [];
      assert Picks(none, Fired(s, chain, removeFails), s, chain, removeFails);
    } else {
      var n := |s| - 1;
      FiredInOrder(s[..n], chain, removeFails);
      var front := Fired(s[..n], chain, removeFails);
      var idx: seq<nat> :| Picks(idx, front, s[..n], chain, removeFails);
      forall k | 0 <= k < |idx| ensures idx[k] < n && front[k] == s[idx[k]] {
        assert s[..n][idx[k]] == s[idx[k]];
      }
      if Due(chain, removeFails, n, s[n]) {
        var idx' := idx + [n];
        assert Fired(s, chain, removeFails) == front + [s[n]];
        assert Picks(idx', front + [s[n]], s, chain, removeFails);
      } else {
        assert Fired(s, chain, removeFails) == front;
        assert Picks(idx, front, s, chain, removeFails);
      }
    }
  }

  /** Every entry that is due reaches the callback. */
  lemma {:induction false} FiredComplete(s: seq<(string, Invoice)>, chain: Chain, removeFails: nat -> bool, i: nat)
    requires i < |s| && Due(chain, removeFails, i, s[i])
    ensures s[i] in Fired(s, chain, removeFails)
    decreases |s|
  {
    var n := |s| - 1;
    if i < n {
      FiredComplete(s[..n], chain, removeFails, i);
    }
  }

  /** Only entries that are due reach the callback. */
  lemma FiredSound(s: seq<(string, Invoice)>, chain: Chain, removeFails: nat -> bool, e: (string, Invoice))
    requires e in Fired(s, chain, removeFails)
    ensures exists i :: 0 <= i < |s| && s[i] == e && Due(chain, removeFails, i, s[i])
  {
    var f := Fired(s, chain, removeFails);
    FiredInOrder(s, chain, removeFails);
    var idx: seq<nat> :| Picks(idx, f, s, chain, removeFails);
    var k :| 0 <= k < |f| && f[k] == e;
    assert s[idx[k]] == e;
  }

  /** Every invoice a cycle hands to the callback was settled on the chain. */
  lemma FiredPaid(s: seq<(string, Invoice)>, chain: Chain, removeFails: nat -> bool)
    ensures var invs := Invoices(Fired(s, chain, removeFails));
      forall i :: 0 <= i < |invs| ==> CheckAndProcess(chain, invs[i])
  {
    var f := Fired(s, chain, removeFails);
    forall i | 0 <= i < |f| ensures CheckAndProcess(chain, Invoices(f)[i]) {
      assert f[i] in f;
      FiredSound(s, chain, removeFails, f[i]);
    }
  }

  /** With distinct keys in the snapshot, no key reaches the callback twice in a cycle. */
  lemma FiredOnce(s: seq<(string, Invoice)>, chain: Chain, removeFails: nat -> bool)
    requires DistinctKeys(s)
    ensures DistinctKeys(Fired(s, chain, removeFails))
  {
    var f := Fired(s, chain, removeFails);
    FiredInOrder(s, chain, removeFails);
    var idx: seq<nat> :| Picks(idx, f, s, chain, removeFails);
    forall a, b | 0 <= a < b < |f| ensures Keys(f)[a] != Keys(f)[b] {
      assert idx[a] < idx[b];
      DistinctKeysAt(s, idx[a], idx[b]);
    }
  }

  /** An entry of the snapshot whose key the cycle has removed was handed to the callback. */
  lemma RemovedMeansFired(s: seq<(string, Invoice)>, chain: Chain, removeFails: nat -> bool, j: nat)
    requires DistinctKeys(s) && j < |s|
    requires Utf8.Encode(s[j].0) in KeyBytes(Fired(s, chain, removeFails))
    ensures Due(chain, removeFails, j, s[j])
  {
    var f := Fired(s, chain, removeFails);
    var e :| e in f && Utf8.Encode(e.0) == Utf8.Encode(s[j].0);
    Utf8.EncodeInjective(e.0, s[j].0);
    FiredSound(s, chain, removeFails, e);
    var i :| 0 <= i < |s| && s[i] == e && Due(chain, removeFails, i, s[i]);
    if i != j {
      DistinctKeysAt(s, i, j);
    }
  }

  /**
   * After a cycle over snapshot `s` of contents `m`, exactly the keys handed
   * to the callback are gone and every unpaid invoice is still stored, as it was.
   */
  lemma CycleKeepsUnpaid(m: Sled.Contents, s: seq<(string, Invoice)>, chain: Chain, removeFails: nat -> bool)
    requires DistinctKeys(s)
    requires forall j :: 0 <= j < |s| ==> Utf8.Encode(s[j].0) in m
    ensures var left := m - KeyBytes(Fired(s, chain, removeFails));
      forall j :: 0 <= j < |s| && !CheckAndProcess(chain, s[j].1) ==>
        Utf8.Encode(s[j].0) in left && left[Utf8.Encode(s[j].0)] == m[Utf8.Encode(s[j].0)]
    ensures var left := m - KeyBytes(Fired(s, chain, removeFails));
      forall e :: e in Fired(s, chain, removeFails) ==> Utf8.Encode(e.0) in m && Utf8.Encode(e.0) !in left
  {
    forall j | 0 <= j < |s| && !CheckAndProcess(chain, s[j].1)
      ensures Utf8.Encode(s[j].0) !in KeyBytes(Fired(s, chain, removeFails))
    {
      if Utf8.Encode(s[j].0) in KeyBytes(Fired(s, chain, removeFails)) {
        RemovedMeansFired(s, chain, removeFails, j);
      }
    }
    forall e | e in Fired(s, chain, removeFails) ensures Utf8.Encode(e.0) in m {
      FiredSound(s, chain, removeFails, e);
    }
    KeyBytesOf(Fired(s, chain, removeFails));
  }

  /** The key of an entry not yet reached is not among those the cycle has removed so far. */
  lemma NotYetRemoved(s: seq<(string, Invoice)>, chain: Chain, removeFails: nat -> bool, i: nat)
    requires DistinctKeys(s) && i < |s|
    ensures Utf8.Encode(s[i].0) !in KeyBytes(Fired(s[..i], chain, removeFails))
  {
    var f := Fired(s[..i], chain, removeFails);
    forall e | e in f ensures Utf8.Encode(e.0) != Utf8.Encode(s[i].0) {
      FiredSound(s[..i], chain, removeFails, e);
      var j :| 0 <= j < i && s[..i][j] == e;
      DistinctKeysAt(s, j, i);
      Utf8.EncodeInjective(e.0, s[i].0);
    }
  }

  /** The engine keys of a list of string keys. */
  function KeySet(ks: seq<string>): set<Sled.Key>
  {
    set k | k in ks :: Utf8.Encode(k)
  }

  /** The engine keys of a list of entries. */
  function KeyBytes(f: seq<(string, Invoice)>): set<Sled.Key>
  {
    KeySet(Keys(f))
  }

  /** The engine key of every entry of `f` is among the engine keys of `f`. */
  lemma KeyBytesOf(f: seq<(string, Invoice)>)
    ensures forall e :: e in f ==> Utf8.Encode(e.0) in KeyBytes(f)
  {
    forall e | e in f ensures Utf8.Encode(e.0) in KeyBytes(f) {
      var i :| 0 <= i < |f| && f[i] == e;
      assert Keys(f)[i] == e.0;
    }
  }

  /**
   * A stretch of polling that started from store contents `m`, ended with
   * `m'`, and handed the callback `invoices`, the i-th of them for the key
   * `keys[i]`: no key was notified twice, each invoice is what the bytes
   * stored under its key deserialize to, and the store lost exactly the
   * notified keys and nothing else.
   */
  ghost predicate Handed(m: Sled.Contents, m': Sled.Contents, ser: Serializer<Invoice>,
                         keys: seq<string>, invoices: seq<Invoice>)
  {
    && |keys| == |invoices|
    && NoDuplicates(keys)
    && (forall i :: 0 <= i < |keys| ==>
          Utf8.Encode(keys[i]) in m && ser.fromBin(m[Utf8.Encode(keys[i])]) == Ok(invoices[i]))
    && m' == m - KeySet(keys)
  }

  /** A cycle over a snapshot whose entries decode from the store hands over exactly its fired entries. */
  lemma CycleHanded(m: Sled.Contents, s: seq<(string, Invoice)>, ser: Serializer<Invoice>,
                    chain: Chain, removeFails: nat -> bool)
    requires DistinctKeys(s)
    requires forall j :: 0 <= j < |s| ==>
      Utf8.Encode(s[j].0) in m && ser.fromBin(m[Utf8.Encode(s[j].0)]) == Ok(s[j].1)
    ensures var fired := Fired(s, chain, removeFails);
      Handed(m, m - KeyBytes(fired), ser, Keys(fired), Invoices(fired))
  {
    var fired := Fired(s, chain, removeFails);
    FiredOnce(s, chain, removeFails);
    forall i | 0 <= i < |fired|
      ensures Utf8.Encode(fired[i].0) in m && ser.fromBin(m[Utf8.Encode(fired[i].0)]) == Ok(fired[i].1)
    {
      assert fired[i] in fired;
      FiredSound(s, chain, removeFails, fired[i]);
    }
  }



  /** Two stretches of polling, one after the other, are one stretch. */
  lemma HandedJoin(m0: Sled.Contents, m1: Sled.Contents, m2: Sled.Contents, ser: Serializer<Invoice>,
                   k1: seq<string>, i1: seq<Invoice>, k2: seq<string>, i2: seq<Invoice>)
    requires Handed(m0, m1, ser, k1, i1) && Handed(m1, m2, ser, k2, i2)
    ensures Handed(m0, m2, ser, k1 + k2, i1 + i2)
  {
    var ks := k1 + k2;
    var invs := i1 + i2;
    forall i | 0 <= i < |ks|
      ensures Utf8.Encode(ks[i]) in m0 && ser.fromBin(m0[Utf8.Encode(ks[i])]) == Ok(invs[i])
    {
      if i >= |k1| {
        assert ks[i] == k2[i - |k1|] && invs[i] == i2[i - |k1|];
      }
    }
    forall i, j | 0 <= i < j < |ks| ensures ks[i] != ks[j] {
      if i < |k1| && j >= |k1| {
        assert ks[i] in k1 && ks[j] == k2[j - |k1|];
        assert Utf8.Encode(ks[i]) !in m1;
      } else if i >= |k1| {
        assert ks[i] == k2[i - |k1|] && ks[j] == k2[j - |k1|];
      }
    }
    assert KeySet(ks) == KeySet(k1) + KeySet(k2);
  }

  /** One more entry of the snapshot processed. */
  lemma FiredStep(s: seq<(string, Invoice)>, chain: Chain, removeFails: nat -> bool, i: nat)
    requires i < |s|
    ensures Fired(s[..i + 1], chain, removeFails) ==
      Fired(s[..i], chain, removeFails) + (if Due(chain, removeFails, i, s[i]) then [s[i]] else [])
  {
    assert s[..i + 1][..i] == s[..i];
  }

  lemma AppendEntry(f: seq<(string, Invoice)>, e: (string, Invoice))
    ensures KeyBytes(f + [e]) == KeyBytes(f) + {Utf8.Encode(e.0)}
    ensures Invoices(f + [e]) == Invoices(f) + [e.1]
    ensures Keys(f + [e]) == Keys(f) + [e.0]
  {
    assert Keys(f + [e]) == Keys(f) + [e.0];
  }

  lemma RemoveOneMore(m: Sled.Contents, removed: set<Sled.Key>, k: Sled.Key)
    ensures m - removed - {k} == m - (removed + {k})
  {
  }

  /** The gateway: its tree of pending invoices, and the invoices its callback has received. */
  class PaymentGateway {
    const tree: Sled.Tree
    const pollIntervalSeconds: nat
    /** The invoices handed to the callback, in the order it was invoked. */
    var callbackLog: seq<Invoice>
    /** The store keys of those invoices. */
    ghost var callbackKeys: seq<string>

    constructor (tree: Sled.Tree, pollIntervalSeconds: nat)
      ensures this.tree == tree && this.pollIntervalSeconds == pollIntervalSeconds
      ensures callbackLog == [] && callbackKeys == []
    {
      this.tree := tree;
      this.pollIntervalSeconds := pollIntervalSeconds;
      callbackLog := [];
      callbackKeys := [];
    }
  }

  /**
   * One pass of the `poll_payments` loop body. `scanFault` is where the
   * engine fails the scan, if it does; `removeFails(i)` whether it fails the
   * delete of the `i`-th snapshot entry.
   */
  method PollOnce(gw: PaymentGateway, ser: Serializer<Invoice>, chain: Chain,
                  scanFault: Option<nat>, removeFails: nat -> bool)
    modifies gw, gw.tree
    ensures var snap := Db.Snapshot(old(gw.tree.m), ser, scanFault);
      snap.Err? ==>
        gw.tree.m == old(gw.tree.m) && gw.callbackLog == old(gw.callbackLog) &&
        gw.callbackKeys == old(gw.callbackKeys)
    ensures var snap := Db.Snapshot(old(gw.tree.m), ser, scanFault);
      snap.Ok? ==>
        var fired := Fired(snap.value, chain, removeFails);
        && gw.tree.m == old(gw.tree.m) - KeyBytes(fired)
        && gw.callbackLog == old(gw.callbackLog) + Invoices(fired)
        && gw.callbackKeys == old(gw.callbackKeys) + Keys(fired)
        && DistinctKeys(fired)
        && (forall j :: 0 <= j < |snap.value| && !CheckAndProcess(chain, snap.value[j].1) ==>
              Utf8.Encode(snap.value[j].0) in gw.tree.m)
        && (forall e :: e in fired ==>
              Utf8.Encode(e.0) in old(gw.tree.m) && Utf8.Encode(e.0) !in gw.tree.m)
  {
    var all := Db.GetAll(gw.tree, ser, scanFault);
    match all
    case Err(_) =>
    case Ok(entries) =>
      ghost var m0 := gw.tree.m;
      ProcessSnapshot(gw, entries, chain, removeFails);
      FiredOnce(entries, chain, removeFails);
      CycleKeepsUnpaid(m0, entries, chain, removeFails);
  }

  /**
   * One snapshot entry: if its invoice is paid, delete it from the store and,
   * only when that delete succeeds, hand the invoice to the callback. The
   * delete fails when the engine fails (`removeFails`) or when the key is no
   * longer stored.
   */
  method ProcessEntry(gw: PaymentGateway, chain: Chain, entry: (string, Invoice), removeFails: bool)
    modifies gw, gw.tree
    ensures CheckAndProcess(chain, entry.1) && !removeFails && Utf8.Encode(entry.0) in old(gw.tree.m) ==>
      && gw.tree.m == old(gw.tree.m) - {Utf8.Encode(entry.0)}
      && gw.callbackLog == old(gw.callbackLog) + [entry.1]
      && gw.callbackKeys == old(gw.callbackKeys) + [entry.0]
    // unpaid, delete failed, or key already gone (`NotFound`): no callback
    ensures !(CheckAndProcess(chain, entry.1) && !removeFails && Utf8.Encode(entry.0) in old(gw.tree.m)) ==>
      && gw.tree.m == old(gw.tree.m)
      && gw.callbackLog == old(gw.callbackLog)
      && gw.callbackKeys == old(gw.callbackKeys)
  {
    var checkResult := CheckAndProcess(chain, entry.1);
    if checkResult {
      var deleted := Db.Delete(gw.tree, entry.0, removeFails);
      match deleted
      case Ok(()) =>
        gw.callbackLog := gw.callbackLog + [entry.1];
        gw.callbackKeys := gw.callbackKeys + [entry.0];
      case Err(_) =>
    }
  }

  /**
   * The `for entry in all` loop of a cycle: check each invoice in snapshot
   * order; delete the paid ones, and invoke the callback for each delete
   * that succeeded.
   */
  method ProcessSnapshot(gw: PaymentGateway, entries: seq<(string, Invoice)>, chain: Chain, removeFails: nat -> bool)
    requires DistinctKeys(entries)
    requires forall j :: 0 <= j < |entries| ==> Utf8.Encode(entries[j].0) in gw.tree.m
    modifies gw, gw.tree
    ensures var fired := Fired(entries, chain, removeFails);
      && gw.tree.m == old(gw.tree.m) - KeyBytes(fired)
      && gw.callbackLog == old(gw.callbackLog) + Invoices(fired)
      && gw.callbackKeys == old(gw.callbackKeys) + Keys(fired)
  {
    ghost var m0 := gw.tree.m;
    ghost var log0 := gw.callbackLog;
    ghost var keys0 := gw.callbackKeys;
    for i := 0 to |entries|
      invariant gw.tree.m == m0 - KeyBytes(Fired(entries[..i], chain, removeFails))
      invariant gw.callbackLog == log0 + Invoices(Fired(entries[..i], chain, removeFails))
      invariant gw.callbackKeys == keys0 + Keys(Fired(entries[..i], chain, removeFails))
    {
      ghost var m := gw.tree.m;
      ghost var log := gw.callbackLog;
      ghost var keys := gw.callbackKeys;
      ProcessEntry(gw, chain, entries[i], removeFails(i));
      SnapshotStep(m0, entries, chain, removeFails, i, m, gw.tree.m, log0, log, gw.callbackLog, keys0, keys, gw.callbackKeys);
    }
    assert entries[..|entries|] == entries;
  }

  /** One step of the `for entry in all` loop, told as the states before and after it. */
  lemma SnapshotStep(m0: Sled.Contents, entries: seq<(string, Invoice)>, chain: Chain, removeFails: nat -> bool, i: nat,
                     m: Sled.Contents, m': Sled.Contents, log0: seq<Invoice>, log: seq<Invoice>, log': seq<Invoice>,
                     keys0: seq<string>, keys: seq<string>, keys': seq<string>)
    requires DistinctKeys(entries) && i < |entries|
    requires forall j :: 0 <= j < |entries| ==> Utf8.Encode(entries[j].0) in m0
    requires var fired := Fired(entries[..i], chain, removeFails);
      m == m0 - KeyBytes(fired) && log == log0 + Invoices(fired) && keys == keys0 + Keys(fired)
    requires var e := entries[i];
      var go := CheckAndProcess(chain, e.1) && !removeFails(i) && Utf8.Encode(e.0) in m;
      && (go ==> m' == m - {Utf8.Encode(e.0)} && log' == log + [e.1] && keys' == keys + [e.0])
      && (!go ==> m' == m && log' == log && keys' == keys)
    ensures var fired := Fired(entries[..i + 1], chain, removeFails);
      m' == m0 - KeyBytes(fired) && log' == log0 + Invoices(fired) && keys' == keys0 + Keys(fired)
  {
    var fired := Fired(entries[..i], chain, removeFails);
    var e := entries[i];
    var fired' := Fired(entries[..i + 1], chain, removeFails);
    FiredStep(entries, chain, removeFails, i);
    NotYetRemoved(entries, chain, removeFails, i);
    assert Utf8.Encode(e.0) in m;
    if Due(chain, removeFails, i, e) {
      assert fired' == fired + [e];
      AppendEntry(fired, e);
      RemoveOneMore(m0, KeyBytes(fired), Utf8.Encode(e.0));
      assert m' == m0 - KeyBytes(fired');
    } else {
      assert fired' == fired;
    }
  }

  /** The environment of one cycle: the chain's answers and the engine's failures. */
  datatype Round = Round(chain: Chain, scanFault: Option<nat>, removeFails: nat -> bool)

  /** What a cycle leaves behind, as `PollOnce` describes it, is one stretch of polling. */
  lemma CycleOutcome(m: Sled.Contents, m': Sled.Contents, ser: Serializer<Invoice>,
                     snap: Result<seq<(string, Invoice)>, Db.DatabaseError>, chain: Chain, removeFails: nat -> bool,
                     keys: seq<string>, keys': seq<string>, log: seq<Invoice>, log': seq<Invoice>)
    requires snap.Err? ==> m' == m && keys' == keys && log' == log
    requires snap.Ok? ==>
      && DistinctKeys(snap.value)
      && (forall j :: 0 <= j < |snap.value| ==>
            Utf8.Encode(snap.value[j].0) in m && ser.fromBin(m[Utf8.Encode(snap.value[j].0)]) == Ok(snap.value[j].1))
      && var fired := Fired(snap.value, chain, removeFails);
         m' == m - KeyBytes(fired) && keys' == keys + Keys(fired) && log' == log + Invoices(fired)
    ensures |keys'| >= |keys| && |log'| >= |log|
    ensures keys'[..|keys|] == keys && log'[..|log|] == log
    ensures Handed(m, m', ser, keys'[|keys|..], log'[|log|..])
    ensures forall i :: |log| <= i < |log'| ==> CheckAndProcess(chain, log'[i])
    ensures forall k :: k in m && ser.fromBin(m[k]).Ok? && !CheckAndProcess(chain, ser.fromBin(m[k]).value) ==>
      k in m' && m'[k] == m[k]
    ensures snap.Err? ==> m' == m && log'[|log|..] == []
    ensures snap.Ok? ==> var fired := Fired(snap.value, chain, removeFails);
      m' == m - KeyBytes(fired) && log'[|log|..] == Invoices(fired)
  {
    if snap.Ok? {
      var fired := Fired(snap.value, chain, removeFails);
      CycleHanded(m, snap.value, ser, chain, removeFails);
      FiredPaid(snap.value, chain, removeFails);
      assert keys'[|keys|..] == Keys(fired);
      assert log'[|log|..] == Invoices(fired);
    } else {
      assert keys'[|keys|..] == [] && log'[|log|..] == [];
      assert KeySet([]) == {};
    }
    assert keys'[..|keys|] == keys;
    assert log'[..|log|] == log;
    PendingKept(m, m', ser, keys'[|keys|..], log'[|log|..], inv => CheckAndProcess(chain, inv));
  }

  /**
   * What one turn does, told by the store it starts from and the one it
   * leaves: a failed read changes nothing and hands nothing over; otherwise
   * the callback receives the invoices of the snapshot that are settled and
   * whose delete succeeds, in snapshot order, and the store loses exactly
   * their keys.
   */
  ghost predicate TurnDelivers(m: Sled.Contents, m': Sled.Contents, ser: Serializer<Invoice>,
                               round: Round, added: seq<Invoice>)
  {
    match Db.Snapshot(m, ser, round.scanFault)
    case Err(_) => m' == m && added == []
    case Ok(snap) =>
      var fired := Fired(snap, round.chain, round.removeFails);
      m' == m - KeyBytes(fired) && added == Invoices(fired)
  }

  /** The deliveries of successive turns, one after the other. */
  function Concat(ds: seq<seq<Invoice>>): seq<Invoice>
  {
    if ds == [] then [] else Concat(ds[..|ds| - 1]) + ds[|ds| - 1]
  }

  lemma ConcatAppend(ds: seq<seq<Invoice>>, d: seq<Invoice>)
    ensures Concat(ds + [d]) == Concat(ds) + d
  {
    assert (ds + [d])[..|ds|] == ds;
  }

  /**
   * `starts[r]` is the store turn `r` of `rounds` started from, and
   * `delivered[r]` what it handed the callback: each turn did what
   * `TurnDelivers` says, and each started where the previous one ended.
   */
  ghost predicate Trace(ser: Serializer<Invoice>, rounds: seq<Round>,
                        starts: seq<Sled.Contents>, delivered: seq<seq<Invoice>>)
  {
    && |starts| == |rounds| + 1 && |delivered| == |rounds|
    && forall r :: 0 <= r < |rounds| ==> TurnDelivers(starts[r], starts[r + 1], ser, rounds[r], delivered[r])
  }

  /** A trace of some turns, followed by one more turn, is a trace of all of them. */
  lemma TraceStep(ser: Serializer<Invoice>, rounds: seq<Round>, r: nat,
                  starts: seq<Sled.Contents>, delivered: seq<seq<Invoice>>, m': Sled.Contents, added: seq<Invoice>)
    requires r < |rounds| && Trace(ser, rounds[..r], starts, delivered)
    requires TurnDelivers(starts[r], m', ser, rounds[r], added)
    ensures Trace(ser, rounds[..r + 1], starts + [m'], delivered + [added])
    ensures Concat(delivered + [added]) == Concat(delivered) + added
  {
    var starts', delivered' := starts + [m'], delivered + [added];
    forall j | 0 <= j < r + 1
      ensures TurnDelivers(starts'[j], starts'[j + 1], ser, rounds[..r + 1][j], delivered'[j])
    {
      if j < r {
        assert rounds[..r + 1][j] == rounds[..r][j];
        assert TurnDelivers(starts[j], starts[j + 1], ser, rounds[..r][j], delivered[j]);
      }
    }
    ConcatAppend(delivered, added);
  }

  /** Some turn of `rounds` found `invoice` settled on the chain. */
  ghost predicate SettledIn(rounds: seq<Round>, invoice: Invoice)
  {
    exists r :: 0 <= r < |rounds| && CheckAndProcess(rounds[r].chain, invoice)
  }

  /** Invoices settled in turn `r` join the invoices settled in some turn. */
  lemma SettledJoin(rounds: seq<Round>, r: nat, i1: seq<Invoice>, i2: seq<Invoice>)
    requires r < |rounds|
    requires forall i :: 0 <= i < |i1| ==> SettledIn(rounds, i1[i])
    requires forall i :: 0 <= i < |i2| ==> CheckAndProcess(rounds[r].chain, i2[i])
    ensures forall i :: 0 <= i < |i1 + i2| ==> SettledIn(rounds, (i1 + i2)[i])
  {
    forall i | 0 <= i < |i1 + i2| ensures SettledIn(rounds, (i1 + i2)[i]) {
      if i >= |i1| {
        assert (i1 + i2)[i] == i2[i - |i1|];
        assert CheckAndProcess(rounds[r].chain, (i1 + i2)[i]);
      } else {
        assert (i1 + i2)[i] == i1[i];
      }
    }
  }

  /**
   * The pending invariant: over a stretch of polling that handed over only
   * invoices satisfying `settled`, a stored invoice that deserializes and
   * does not satisfy it is still stored, unchanged.
   */
  lemma {:induction false} PendingKept(m: Sled.Contents, m': Sled.Contents, ser: Serializer<Invoice>,
                                       keys: seq<string>, invoices: seq<Invoice>, settled: Invoice -> bool)
    requires Handed(m, m', ser, keys, invoices)
    requires forall i :: 0 <= i < |invoices| ==> settled(invoices[i])
    ensures forall k :: k in m && ser.fromBin(m[k]).Ok? && !settled(ser.fromBin(m[k]).value) ==>
      k in m' && m'[k] == m[k]
  {
    forall k | k in m && ser.fromBin(m[k]).Ok? && !settled(ser.fromBin(m[k]).value)
      ensures k in m' && m'[k] == m[k]
    {
      assert k !in KeySet(keys);
    }
  }

  /**
   * One turn of the polling loop: a cycle, then the pause, which is not
   * modelled. Whatever the scan returned, the callback log and the notified
   * keys only grow, and what they gained is a stretch of polling that handed
   * over the invoices stored under distinct keys and removed exactly those.
   */
  method PollRound(gw: PaymentGateway, ser: Serializer<Invoice>, round: Round)
    modifies gw, gw.tree
    ensures |gw.callbackKeys| >= |old(gw.callbackKeys)| && |gw.callbackLog| >= |old(gw.callbackLog)|
    ensures gw.callbackKeys[..|old(gw.callbackKeys)|] == old(gw.callbackKeys)
    ensures gw.callbackLog[..|old(gw.callbackLog)|] == old(gw.callbackLog)
    ensures Handed(old(gw.tree.m), gw.tree.m, ser,
                   gw.callbackKeys[|old(gw.callbackKeys)|..], gw.callbackLog[|old(gw.callbackLog)|..])
    // only invoices the chain settled in this turn reach the callback ...
    ensures forall i :: |old(gw.callbackLog)| <= i < |gw.callbackLog| ==> CheckAndProcess(round.chain, gw.callbackLog[i])
    // ... so a stored invoice it did not settle stays stored
    ensures forall k :: k in old(gw.tree.m) && ser.fromBin(old(gw.tree.m)[k]).Ok? &&
                        !CheckAndProcess(round.chain, ser.fromBin(old(gw.tree.m)[k]).value) ==>
      k in gw.tree.m && gw.tree.m[k] == old(gw.tree.m)[k]
    // and exactly the settled invoices whose delete succeeds are handed over
    ensures TurnDelivers(old(gw.tree.m), gw.tree.m, ser, round, gw.callbackLog[|old(gw.callbackLog)|..])
  {
    ghost var m0 := gw.tree.m;
    ghost var keys0 := gw.callbackKeys;
    ghost var log0 := gw.callbackLog;
    PollOnce(gw, ser, round.chain, round.scanFault, round.removeFails);
    CycleOutcome(m0, gw.tree.m, ser, Db.Snapshot(m0, ser, round.scanFault), round.chain, round.removeFails,
                 keys0, gw.callbackKeys, log0, gw.callbackLog);
  }

  /** A sequence that starts with `base + parts` is `base` followed by `parts` and the rest. */
  lemma Extends<T>(whole: seq<T>, base: seq<T>, parts: seq<T>)
    requires |whole| >= |base + parts| && whole[..|base + parts|] == base + parts
    ensures whole == base + (parts + whole[|base + parts|..])
  {
    assert whole == whole[..|base + parts|] + whole[|base + parts|..];
    assert (base + parts) + whole[|base + parts|..] == base + (parts + whole[|base + parts|..]);
  }

  /** What follows `prefix` in `prefix + rest` is `rest`, and the sequence starts with `prefix`. */
  lemma Suffix<T>(prefix: seq<T>, rest: seq<T>)
    ensures (prefix + rest)[|prefix|..] == rest && (prefix + rest)[..|prefix|] == prefix
  {
  }

  /**
   * What `turns` turns of `rounds` have done, starting from store `m0`, key
   * record `k0` and log `l0`, now that the store is `m` and the gateway's
   * key record and log are `keysNow` and `logNow`: they added `keys` and
   * `invoices`, handed over for distinct keys stored at the start, settled
   * in some turn, and `starts` and `delivered` trace them turn by turn.
   */
  ghost predicate Progress(ser: Serializer<Invoice>, rounds: seq<Round>, turns: nat,
                           m0: Sled.Contents, k0: seq<string>, l0: seq<Invoice>,
                           m: Sled.Contents, keysNow: seq<string>, logNow: seq<Invoice>,
                           keys: seq<string>, invoices: seq<Invoice>,
                           starts: seq<Sled.Contents>, delivered: seq<seq<Invoice>>)
  {
    && turns <= |rounds|
    && keysNow == k0 + keys && logNow == l0 + invoices
    && Handed(m0, m, ser, keys, invoices)
    && (forall i :: 0 <= i < |invoices| ==> SettledIn(rounds, invoices[i]))
    && Trace(ser, rounds[..turns], starts, delivered)
    && starts[0] == m0 && starts[turns] == m
    && invoices == Concat(delivered)
  }

  /** No turns yet: nothing has been done. */
  lemma ProgressStart(ser: Serializer<Invoice>, rounds: seq<Round>, m0: Sled.Contents, k0: seq<string>, l0: seq<Invoice>)
    ensures Progress(ser, rounds, 0, m0, k0, l0, m0, k0, l0, [], [], [m0], [])
  {
    assert KeySet([]) == {};
  }

  /** One more turn, told as `PollRound` describes it, extends the progress by what that turn added. */
  lemma RoundProgress(ser: Serializer<Invoice>, rounds: seq<Round>, r: nat,
                      m0: Sled.Contents, k0: seq<string>, l0: seq<Invoice>,
                      m: Sled.Contents, keysNow: seq<string>, logNow: seq<Invoice>,
                      keys: seq<string>, invoices: seq<Invoice>,
                      starts: seq<Sled.Contents>, delivered: seq<seq<Invoice>>,
                      m': Sled.Contents, keys': seq<string>, log': seq<Invoice>)
    requires r < |rounds|
    requires Progress(ser, rounds, r, m0, k0, l0, m, keysNow, logNow, keys, invoices, starts, delivered)
    requires |keys'| >= |keysNow| && |log'| >= |logNow|
    requires keys'[..|keysNow|] == keysNow && log'[..|logNow|] == logNow
    requires Handed(m, m', ser, keys'[|keysNow|..], log'[|logNow|..])
    requires forall i :: |logNow| <= i < |log'| ==> CheckAndProcess(rounds[r].chain, log'[i])
    requires TurnDelivers(m, m', ser, rounds[r], log'[|logNow|..])
    ensures Progress(ser, rounds, r + 1, m0, k0, l0, m', keys', log',
                     keys + keys'[|keysNow|..], invoices + log'[|logNow|..],
                     starts + [m'], delivered + [log'[|logNow|..]])
  {
    var addedKeys, addedInvoices := keys'[|keysNow|..], log'[|logNow|..];
    HandedJoin(m0, m, m', ser, keys, invoices, addedKeys, addedInvoices);
    forall i | 0 <= i < |addedInvoices| ensures CheckAndProcess(rounds[r].chain, addedInvoices[i]) {
      assert addedInvoices[i] == log'[|logNow| + i];
    }
    SettledJoin(rounds, r, invoices, addedInvoices);
    TraceStep(ser, rounds, r, starts, delivered, m', addedInvoices);
    Extends(keys', k0, keys);
    Extends(log', l0, invoices);
  }

  /** After the last turn, the progress is what `PollPayments` promises. */
  lemma ProgressDone(ser: Serializer<Invoice>, rounds: seq<Round>,
                     m0: Sled.Contents, k0: seq<string>, l0: seq<Invoice>,
                     m: Sled.Contents, keysNow: seq<string>, logNow: seq<Invoice>,
                     keys: seq<string>, invoices: seq<Invoice>,
                     starts: seq<Sled.Contents>, delivered: seq<seq<Invoice>>)
    requires Progress(ser, rounds, |rounds|, m0, k0, l0, m, keysNow, logNow, keys, invoices, starts, delivered)
    ensures |keysNow| >= |k0| && |logNow| >= |l0|
    ensures keysNow[..|k0|] == k0 && logNow[..|l0|] == l0
    ensures Handed(m0, m, ser, keysNow[|k0|..], logNow[|l0|..])
    ensures forall i :: |l0| <= i < |logNow| ==> SettledIn(rounds, logNow[i])
    ensures forall k :: k in m0 && ser.fromBin(m0[k]).Ok? && !SettledIn(rounds, ser.fromBin(m0[k]).value) ==>
      k in m && m[k] == m0[k]
    ensures Trace(ser, rounds, starts, delivered)
    ensures starts[0] == m0 && starts[|rounds|] == m
    ensures logNow == l0 + Concat(delivered)
  {
    Suffix(k0, keys);
    Suffix(l0, invoices);
    forall i | |l0| <= i < |logNow| ensures SettledIn(rounds, logNow[i]) {
      assert logNow[i] == invoices[i - |l0|];
    }
    PendingKept(m0, m, ser, keys, invoices, inv => SettledIn(rounds, inv));
    assert rounds[..|rounds|] == rounds;
  }

  /**
   * `poll_payments`, run for the turns in `rounds`. Across all of them the
   * callback log only grows, and what it gained was handed over for distinct
   * keys, each invoice being the one stored under its key at the start, and
   * the store has lost exactly those keys: the callback fires at most once
   * per invoice key, and only after that key was deleted. Each invoice it
   * received was settled in some turn, so an invoice that no turn settled is
   * still stored. "At most once per key" rests on no other task writing to
   * the tree: a key that is deleted and then stored again would be a new
   * invoice to the poller.
   */
  method PollPayments(gw: PaymentGateway, ser: Serializer<Invoice>, rounds: seq<Round>)
    returns (ghost starts: seq<Sled.Contents>, ghost delivered: seq<seq<Invoice>>)
    modifies gw, gw.tree
    ensures |gw.callbackKeys| >= |old(gw.callbackKeys)| && |gw.callbackLog| >= |old(gw.callbackLog)|
    ensures gw.callbackKeys[..|old(gw.callbackKeys)|] == old(gw.callbackKeys)
    ensures gw.callbackLog[..|old(gw.callbackLog)|] == old(gw.callbackLog)
    ensures Handed(old(gw.tree.m), gw.tree.m, ser,
                   gw.callbackKeys[|old(gw.callbackKeys)|..], gw.callbackLog[|old(gw.callbackLog)|..])
    ensures forall i :: |old(gw.callbackLog)| <= i < |gw.callbackLog| ==> SettledIn(rounds, gw.callbackLog[i])
    ensures forall k :: k in old(gw.tree.m) && ser.fromBin(old(gw.tree.m)[k]).Ok? &&
                        !SettledIn(rounds, ser.fromBin(old(gw.tree.m)[k]).value) ==>
      k in gw.tree.m && gw.tree.m[k] == old(gw.tree.m)[k]
    // turn by turn: each turn handed over exactly its settled, deleted invoices
    ensures Trace(ser, rounds, starts, delivered)
    ensures starts[0] == old(gw.tree.m) && starts[|rounds|] == gw.tree.m
    ensures gw.callbackLog == old(gw.callbackLog) + Concat(delivered)
  {
    ghost var m0, k0, l0 := gw.tree.m, gw.callbackKeys, gw.callbackLog;
    ghost var keys: seq<string>, invoices: seq<Invoice> := [], [];
    starts, delivered := [m0], [];
    ProgressStart(ser, rounds, m0, k0, l0);
    for r := 0 to |rounds|
      invariant Progress(ser, rounds, r, m0, k0, l0, gw.tree.m, gw.callbackKeys, gw.callbackLog,
                         keys, invoices, starts, delivered)
    {
      ghost var m, keysNow, logNow := gw.tree.m, gw.callbackKeys, gw.callbackLog;
      PollRound(gw, ser, rounds[r]);
      RoundProgress(ser, rounds, r, m0, k0, l0, m, keysNow, logNow, keys, invoices, starts, delivered,
                    gw.tree.m, gw.callbackKeys, gw.callbackLog);
      keys, invoices := keys + gw.callbackKeys[|keysNow|..], invoices + gw.callbackLog[|logNow|..];
      starts, delivered := starts + [gw.tree.m], delivered + [gw.callbackLog[|logNow|..]];
    }
    ProgressDone(ser, rounds, m0, k0, l0, gw.tree.m, gw.callbackKeys, gw.callbackLog, keys, invoices, starts, delivered);
  }

}
