# acceptevm store and payment poller, modelled in Dafny

This project models two parts of the acceptevm payment gateway and proves properties about them.

**The typed key-value store.** It is a layer over a sled tree, written twice in the repository:

- `src/db/mod.rs` (module `Db`): `get`, `get_all`, `get_last`, `set` and `delete`, with every failure reported as one `DatabaseError`;
- `src/common/dbs/interface.rs` (module `Interface`): the same operations apart from `get_last`, with the engine errors turned into `GetError`, `SetError` and `DeleteError`.

Keys are Rust `&str`. They are stored as their UTF-8 bytes and validated on the way back by `String::from_utf8`. Values are converted by the value type's `to_bin`/`from_bin`.

**The payment poller** (`src/poller/mod.rs`, module `Poller`). Each cycle it:

1. reads every pending invoice;
2. asks the chain, for each invoice, whether the recipient's balance covers the amount, in the invoice's ERC-20 token or in the native coin;
3. deletes each covered invoice and, only when the delete succeeded, hands it to the gateway's callback.

Supporting modules:

- `Results`: `Option` and `Result`.
- `Bytes`: bytes, plus the byte-lexicographic key order the engine iterates in. It proves that order is a strict total order with a least element in every non-empty key set.
- `Utf8`: UTF-8 as defined by sections 3 and 4 of RFC 3629. Both round trips are proved: decoding an encoded string gives it back, and bytes that decode are exactly the encoding of their decoding.
- `Sled`: what this code relies on from the engine.
  - The tree's contents are a map from key bytes to value bytes.
  - Iteration lists the entries in key order and may fail at a given position.
  - `last` returns the entry with the greatest key.
  - `insert` and `remove` are methods of a `Tree` object.
- `Serial`: a value type's serializer as a pair of functions. `RoundTrips` is the round-trip property every `Serializable` implementation is expected to have. `DecodeEntries` decodes a scan all-or-nothing.

Engine I/O failures, chain answers and delete failures are parameters of the operations:

- `ioError`: whether this engine call fails;
- `failAt`: the position at which the scan fails, if it does;
- `Chain`: the balances the chain reports during one cycle;
- `removeFails`: which deletes of the cycle fail.

The callback is represented by the gateway's `callbackLog`. It records the invoices in the order the callback received them. A ghost `callbackKeys` records their store keys.

### Behaviour worth knowing

- `get_last` (`src/db/mod.rs:34-67`) is documented as returning "the last added item". The code returns sled's `last()`, which is the entry with the greatest key in byte order. `Sled.LastIsNotLatest` exhibits a tree where that is not the entry inserted last. The model follows the code.
- In `interface.rs`, `get_all` maps an engine `NotFound` to `GetError::NotFound` (`src/common/dbs/interface.rs:59-62`). `get_all_from_tree` only ever fails with `Get`, so that arm is dead: `Interface.GetAll` never returns `NotFound`.
- `set` in `src/db/mod.rs` reports a failed insert as `Communicate`, not as the `Set` that `set_to_tree` produced.
- An engine failure on delete is the `NoDelete` variant.
- The poller imports `get_all` and `delete` from `gateway::db` (`src/poller/mod.rs:7`), a module that is not part of this model. The model uses the `Db` operations of `src/db/mod.rs` for them. Their outcome is the same as that of `interface.rs` up to the error's name: `Interface.GetAll` returns the result of `Db.Snapshot` with the error renamed. The poller only distinguishes success from failure, so the choice does not change what a cycle does.

## Model

| member | source | states |
|---|---|---|
| Db.GetFromTree | src/db/mod.rs:6-14 | Ok exactly when the engine does not fail and the key is stored, with the stored bytes; NotFound for a missing key; Get on an engine failure |
| Db.GetValue | src/db/mod.rs:94-100 | engine failure gives Get, a missing key NotFound; a stored key gives Ok exactly when its bytes deserialize, with that value, and Deserialize otherwise |
| Db.GetAllFromTree | src/db/mod.rs:16-32 | fails with Get exactly when the scan fails; otherwise returns every stored entry in the engine's key order |
| Db.Snapshot | src/db/mod.rs:70-91 | what get_all returns: Get exactly when the scan fails; Deserialize exactly when the scan succeeds and some entry does not decode; otherwise one decoded entry per stored key, in key order, with distinct keys whose encodings are stored and values that deserialize from the stored bytes |
| Db.DecodedScan | src/db/mod.rs:73-90 | an all-decoded scan has one entry per stored key, each key re-encodes to its stored key, each value is what the stored bytes deserialize to, and keys are distinct |
| Db.GetAll | src/db/mod.rs:70-91 | a failed scan is passed on as Get; otherwise the entry-by-entry conversion is reported as Deserialize when it fails and as the converted list when it succeeds, which is exactly Db.Snapshot |
| Db.GetLastFromTree | src/db/mod.rs:35-50 | fails exactly on an engine failure (Get) or an empty tree (NotFound); otherwise a stored entry whose key is greater than every other stored key |
| Db.GetLast | src/db/mod.rs:53-67 | Get on engine failure, NotFound on an empty tree; otherwise Ok exactly when the greatest-key entry decodes, and then its key re-encodes to the greatest stored key and its value deserializes from the stored bytes; Deserialize when it does not decode |
| Db.SetToTree | src/db/mod.rs:103-111 | fails with Set exactly when the engine fails, leaving the tree unchanged; otherwise the key's bytes now map to the given bytes |
| Db.Set | src/db/mod.rs:114-123 | Serialize when to_bin fails, Communicate when the insert fails, both leaving the tree unchanged; on success the key maps to the serialized value, reads back as the value when the serializer round-trips, every other key reads as before, and rewriting the stored value changes nothing |
| Db.Delete | src/db/mod.rs:126-137 | NoDelete on engine failure and NotFound for an absent key, both leaving the tree unchanged; otherwise Ok and exactly that key is removed; afterwards a read of the key is NotFound |
| Interface.GetFromTree | src/common/dbs/interface.rs:6-18 | Ok exactly when the engine does not fail and the key is stored, with the stored bytes; NotFound for a missing key; Get on engine failure |
| Interface.GetAllFromTree | src/common/dbs/interface.rs:21-36 | fails with Get exactly when the scan fails; otherwise every stored entry in key order |
| Interface.GetAll | src/common/dbs/interface.rs:39-65 | the same outcome as `get_all` of src/db/mod.rs (Db.Snapshot) with its error renamed, as Interface.GetAllOutcome spells out |
| Interface.GetAllOutcome | src/common/dbs/interface.rs:39-65 | the outcome of this file's get_all: Database when the scan fails; otherwise the all-or-nothing decoding of the entries, Deserialize when one does not decode; never NotFound; an empty tree gives an empty list; one result per stored key |
| Interface.GetValue | src/common/dbs/interface.rs:67-86 | engine failure gives Database, a missing key NotFound; a stored key gives Ok exactly when its bytes deserialize, with that value, and Deserialize otherwise; the same outcome as Db.GetValue with its error renamed |
| Interface.SetToTree | src/common/dbs/interface.rs:88-95 | fails with Set exactly when the engine fails, leaving the tree unchanged; otherwise the key's bytes now map to the given bytes |
| Interface.Set | src/common/dbs/interface.rs:97-105 | Serialize when to_bin fails, Database when the insert fails, both leaving the tree unchanged; on success the key maps to the serialized value, reads back as the value when the serializer round-trips, and every other key reads as before |
| Interface.Delete | src/common/dbs/interface.rs:107-119 | NoDelete on engine failure and NotFound for an absent key, both leaving the tree unchanged; otherwise Ok and exactly that key is removed |
| Serial.DecodeEntry | src/db/mod.rs:75-88 | one entry converts exactly when its key is valid UTF-8 and its value deserializes; the key then re-encodes to the stored key |
| Serial.DecodeAll | src/db/mod.rs:74-90 | the loop that converts the entries one at a time and stops at the first failure returns the all-or-nothing conversion Serial.DecodeEntries (the same loop is src/common/dbs/interface.rs:42-56) |
| Serial.DecodeEntries | src/db/mod.rs:73-90 | a scan converts exactly when every entry converts; then one result per entry, each the conversion of the entry at the same position |
| Utf8.DecodeEncode | src/db/mod.rs:77-80 | every string key stored as its UTF-8 bytes is given back by String::from_utf8 |
| Utf8.EncodeDecode | src/db/mod.rs:56-59 | bytes that String::from_utf8 accepts are exactly the UTF-8 encoding of the string it returns |
| Utf8.EncodeInjective | src/db/mod.rs:6-7 | distinct string keys address distinct engine keys |
| Sled.EntriesSpec | src/db/mod.rs:18 | the engine's iteration lists exactly the stored entries, each once, in strictly increasing key order |
| Sled.Iter | src/db/mod.rs:18-30 | a scan that fails at position p yields p entries in key order and then the error; a scan that does not fail yields every entry in key order |
| Sled.LastIsGreatest | src/db/mod.rs:36 | the last entry of the iteration order is the stored entry with the greatest key |
| Sled.LastEntry | src/db/mod.rs:36-44 | of a non-empty tree, a stored entry whose key is greater than every other stored key |
| Sled.LastIsNotLatest | src/db/mod.rs:34-36 | inserting key [2] and then key [1] makes `last` return key [2], not the entry added last |
| Sled.Last | src/db/mod.rs:36-44 | an engine failure gives Io; otherwise None exactly when the tree is empty, and for a non-empty tree a stored entry whose key is greater than every other stored key |
| Sled.Tree.Insert | src/db/mod.rs:104 | fails exactly on an engine failure and then changes nothing; otherwise maps the key to the value and returns the value it replaced |
| Sled.Tree.Remove | src/db/mod.rs:127 | fails exactly on an engine failure and then changes nothing; otherwise removes the key and returns the value it held |
| Poller.CheckIfTokenReceived | src/poller/mod.rs:13-22 | a failed token balance query is passed on; otherwise true exactly when the recipient's token balance is at least the amount |
| Poller.CheckIfNativeReceived | src/poller/mod.rs:24-36 | a failed native balance query is passed on; otherwise true exactly when the recipient's native balance is at least the amount |
| Poller.CheckAndProcess | src/poller/mod.rs:40-60 | an invoice with a token address is settled exactly when that token's balance query succeeds and covers the amount; one without is settled exactly when the native query succeeds and covers it; a failed query counts as unpaid |
| Poller.FiredInOrder | src/poller/mod.rs:68-84 | what the callback receives in a cycle is a subsequence of the snapshot, in snapshot order, of entries that are paid and whose delete succeeded |
| Poller.FiredComplete | src/poller/mod.rs:69-75 | every snapshot entry that is paid and whose delete succeeds reaches the callback |
| Poller.FiredSound | src/poller/mod.rs:69-75 | only snapshot entries that are paid and whose delete succeeded reach the callback |
| Poller.FiredPaid | src/poller/mod.rs:69-75 | every invoice a cycle hands to the callback was settled on the chain: check_and_process returned true for it |
| Poller.FiredOnce | src/poller/mod.rs:68-84 | with distinct keys in the snapshot, no key reaches the callback twice in one cycle |
| Poller.RemovedMeansFired | src/poller/mod.rs:71-80 | a snapshot entry whose key the cycle removed was paid and its delete succeeded, so it went to the callback |
| Poller.CycleKeepsUnpaid | src/poller/mod.rs:66-86 | after a cycle every unpaid invoice of the snapshot is still stored unchanged, and every invoice handed to the callback was stored and is gone |
| Poller.NotYetRemoved | src/poller/mod.rs:68-72 | when an entry is reached, its key has not been removed by the cycle so far, so its delete can only fail through the engine |
| Poller.ProcessEntry | src/poller/mod.rs:69-84 | a paid entry whose key is still stored and whose delete succeeds is removed, and its invoice and key are appended to the callback log; an unpaid entry, a failed delete or a key that is already gone (NotFound) changes nothing |
| Poller.SnapshotStep | src/poller/mod.rs:68-84 | one step of the snapshot loop extends the cycle's outcome by exactly that entry when it is due, and by nothing otherwise |
| Poller.ProcessSnapshot | src/poller/mod.rs:67-86 | processing the whole snapshot removes exactly the keys of the entries handed to the callback, and the callback receives those entries in snapshot order |
| Poller.PollOnce | src/poller/mod.rs:66-93 | a failed read changes nothing; otherwise the store loses exactly the notified keys, the callback log gains exactly their invoices in snapshot order, no key is notified twice, and every unpaid invoice is still stored |
| Poller.CycleHanded | src/poller/mod.rs:66-86 | a cycle over a snapshot read from the store notifies distinct keys, each invoice being what the bytes stored under its key deserialize to, and the store loses exactly those keys |
| Poller.CycleOutcome | src/poller/mod.rs:66-93 | whether the read fails or not, a cycle keeps the earlier callback log; what it adds was handed over for distinct stored keys, which are exactly the keys the store lost, and was settled on the chain in that cycle; a stored invoice the chain did not settle stays stored, unchanged |
| Poller.PendingKept | src/poller/mod.rs:69-84 | over a stretch of polling that handed over only settled invoices, every stored invoice that deserializes and is not settled is still stored, unchanged |
| Poller.SettledJoin | src/poller/mod.rs:64-98 | invoices settled in one turn, added to invoices settled in some turn, are all settled in some turn |
| Poller.HandedJoin | src/poller/mod.rs:64-98 | two stretches of polling, one after the other, are one: the joined keys are still distinct, each invoice is still the one stored under its key at the start, and the store has lost exactly the joined keys |
| Poller.TraceStep | src/poller/mod.rs:64-98 | the record of some turns, followed by one more turn, is the record of all of them, and the deliveries so far plus the new one are the deliveries of all of them |
| Poller.RoundProgress | src/poller/mod.rs:64-98 | a turn that does what PollRound promises, after turns that did what PollPayments promises, extends that promise by one turn |
| Poller.ProgressDone | src/poller/mod.rs:64-98 | once every turn is done, what the loop has built up is exactly what PollPayments promises |
| Poller.PollRound | src/poller/mod.rs:65-97 | one turn of the loop does exactly what one cycle does (TurnDelivers): a failed read changes nothing; otherwise the callback receives, in snapshot order, the invoices that are settled and whose delete succeeds, and the store loses exactly their keys; the earlier callback log is kept, the added keys are distinct and were stored with bytes that deserialize to the invoices handed for them, and a stored invoice the chain did not settle stays stored, unchanged |
| Poller.PollPayments | src/poller/mod.rs:64-98 | over any number of turns, each turn does what TurnDelivers says from the store it started with, and the callback log is the earlier log followed by every turn's delivery; across all turns no invoice key reaches the callback twice, each invoice is what the bytes stored under its key at the start deserialize to and was settled in some turn, the store at the end is the starting store minus exactly the notified keys, and an invoice no turn settled is still stored, unchanged |

## Left out

- Engine internals (sled's pages, log and flushing) are out of scope. The engine is its contents map, key-ordered iteration, `get`, `last`, `insert` and `remove`. Its failures are parameters.
- The chain client is out of scope. `web3`, the ERC-20 contract binding, `get_native_balance` and the JSON-RPC transport become the `Chain` oracle. It answers with a balance or an error, and its answers are fixed for one cycle.
- Address parsing in `get_native_balance` (`src/poller/mod.rs:26`) is not modelled. It panics through `unwrap` on an address that does not parse. The oracle takes the address string as it is.
- `U256` is an integer bounded by 2^256. Only its `>=` comparison is used, so no arithmetic or wrap-around is involved.
- `PollPayments` runs a given finite sequence of rounds. The source's `loop` never ends, and the sleep between turns is not modelled; only its position after each cycle is. The clock functions of `src/common/mod.rs` are not used by the core and are not modelled.
- Logging (`log_sync`) is not modelled because it does not affect results.
- The async runtime, the callback's mutex and concurrent access to the tree by other tasks are not modelled. No other task changes the tree during or between the modelled cycles.
- Poller.ProcessSnapshot: requires every snapshot key to be stored and the keys to be distinct. This holds for a snapshot that `get_all` has just read, given that no other task changes the tree. With that assumption, the `NotFound` outcome of a delete can arise only inside `ProcessEntry`, which models it.
- The callback is a log of the invoices it receives. What it does with them is outside the core.
- The value types are not modelled. `Serializable`, `Invoice` and their byte encoding are in the types module, which is not part of this model. A serializer is an arbitrary pair of functions. An invoice has only the fields the poller reads: recipient, amount and payment method.
- The error enums of `src/common/dbs/errors.rs` are not part of this model. `Interface.DatabaseError` has only the variants that `interface.rs` produces or matches.
- The `valid_balance` test (`src/poller/mod.rs:101-121`) queries a live chain and is not modelled.
