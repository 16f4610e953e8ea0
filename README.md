# QuarkChain cluster bring-up, key-value layer and peer-refresh policy in Dafny

This project models three parts of the QuarkChain cluster node and proves properties of them.

- **Master bring-up bookkeeping** (`master.dfy`, module `Master`). The master does the following:
  - reads the slave list from the cluster configuration;
  - connects to each slave and checks the slave's `PING` reply against the configured id and shard masks;
  - builds `shardToSlaves`, which lists the slaves that run each shard, together with the `slavePool` set;
  - runs the slave-to-slave mesh phase only when every shard is covered.
- **Key-value layer** (`bytes.dfy`, `lex.dfy`, `kv_store.dfy`, `db_ops.dfy`; modules `ByteCodec`, `Lex`, `KvStore`, `DbOps`):
  - `InMemoryDb`, a dictionary store with an inclusive range scan sorted in ascending byte order;
  - `OverlayDb`, a write overlay with `None` tombstones in front of a base store;
  - `ShardedDb`, a namespace that prefixes every key with a 4-byte big-endian shard id;
  - the records that the database mixin writes: transactions, spent outputs, the per-address transaction index with inverse-time keys, and minor-block records;
  - the `add1`/`sub1` 4-byte counters.
- **P2P connection management** (`p2p_network.dfy`, module `P2P`):
  - which active peers `refreshConnections` drops and which discovered addresses it dials;
  - the rule that only the lesser `ip:port` string initiates a connection;
  - the cluster-peer-id counter;
  - `shutdownPeers`;
  - the connected-peer list of the discovery service.

Shared modules:

- `ByteCodec` holds the big-endian integer codec: `int.from_bytes` / `int.to_bytes`, including the OverflowError cases.
- `Lex` holds Python's lexicographic comparison of bytes and strings.
- `Wrappers` holds `Option` and `Result`.

Where the source changes state in place, the model does too:

- The stores and the servers are classes whose methods carry `modifies` clauses.
- The master's shard table is an array of sequences.
- The loops of the source are loops here, with invariants.

Each method is proved against a specification function. For example:

- `InMemoryDb.RangeIter` yields exactly `RangeSpec`: the keys in range, listed by a least-first enumeration.
- `PutTx` leaves the store equal to an explicit map update.

The properties the source relies on are proved as lemmas about those functions.

External behaviour enters the model as parameters:

- the ping reply and the mesh reply of a slave;
- IP-address parsing;
- transaction deserialisation;
- UTF-8 decoding;
- `is_shard_in_mask`.

Serialised objects (transactions, headers, blocks, transaction inputs) are opaque byte strings. Closing and dialing peers are returned as values.

`shutdown()` is `loop.stop()`. The running task does not resume from its next network wait, so the model sets a flag and ends the bring-up with `Halted` at the next such wait. The code between two waits still runs.

## Model

| member | source | states |
|---|---|---|
| ByteCodec.IntToBytes | quarkchain/db.py:18-19 | `n.to_bytes(w, "big")` succeeds exactly when 0 <= n < 256^w, and the `w` bytes it returns decode back to `n` |
| ByteCodec.BE4 | quarkchain/db.py:288 | the 4-byte big-endian encoding of a 32-bit value has length 4 and decodes to that value |
| ByteCodec.FromToBE | quarkchain/db.py:73 | encoding a value that fits in `w` bytes and then decoding it gives the value back, and the encoding has length `w` |
| ByteCodec.ToFromBE | quarkchain/db.py:73 | decoding a byte string and re-encoding it at its own width gives the string back |
| ByteCodec.FromBEInjective | quarkchain/db.py:63 | two byte strings of one length that decode to the same value are equal |
| ByteCodec.FromBEBound | quarkchain/db.py:63 | an n-byte string decodes to a value below 256^n |
| ByteCodec.OrderMatchesValue | quarkchain/db.py:17-18 | for byte strings of one length, byte-order comparison agrees with numeric comparison of their big-endian values, in both directions |
| ByteCodec.BE4Order | quarkchain/db.py:17-18 | 4-byte encodings compare exactly as the numbers they encode |
| ByteCodec.Add1 | quarkchain/db.py:239-242 | `add1(b)` is the 4-byte encoding of value(b)+1; it fails (OverflowError) exactly when value(b)+1 does not fit in 4 bytes |
| ByteCodec.Sub1 | quarkchain/db.py:245-248 | `sub1(b)` is the 4-byte encoding of value(b)-1; it fails exactly when value(b) is 0 or value(b)-1 does not fit in 4 bytes |
| ByteCodec.Sub1Add1 | quarkchain/db.py:239-248 | `sub1(add1(b)) == b` for a 4-byte counter below 2^32-1 |
| ByteCodec.Add1Sub1 | quarkchain/db.py:239-248 | `add1(sub1(b)) == b` for a 4-byte counter above 0 |
| Lex.Irreflexive | quarkchain/db.py:154-156 | no byte string is less than itself |
| Lex.Asymmetric | quarkchain/db.py:154-156 | two byte strings are never each less than the other |
| Lex.Transitive | quarkchain/db.py:154-156 | byte order is transitive |
| Lex.Total | quarkchain/db.py:154-156 | of two distinct byte strings, one is less than the other |
| Lex.PrefixLess | quarkchain/db.py:73-75 | a proper prefix sorts before every extension of it |
| Lex.LessAppend | quarkchain/db.py:17-18 | when heads of equal length differ, their order decides the order of the whole keys, whatever follows |
| Lex.AppendLess | quarkchain/db.py:17-18 | conversely, the order of `a+x` and `b+y` with equal-length heads puts `a` at or below `b`, and when the heads are equal it is decided by `x` and `y` |
| Lex.SharedPrefix | quarkchain/db.py:37 | a common key prefix does not change the order of what follows it |
| KvStore.SortedKeysElements | quarkchain/db.py:156 | the sorted listing of a key set is strictly ascending, has the set's size, and holds exactly the set's keys |
| KvStore.SortedKeysUnique | quarkchain/db.py:156 | every strictly ascending list of exactly a set's keys is the sorted listing of that set, so `keys.sort()` has one possible result |
| KvStore.InsertSorted | quarkchain/db.py:156 | inserting a new key into an ascending list keeps it ascending and adds exactly that key |
| KvStore.SortKeys | quarkchain/db.py:156 | `keys.sort()` on distinct keys yields the same keys in strictly ascending order |
| KvStore.RangeSpecProperties | quarkchain/db.py:151-158 | the scan yields only stored keys with `start <= k <= end` (both bounds included), each paired with its value, in strictly ascending order, and it yields every such key |
| KvStore.InMemoryDb.constructor | quarkchain/db.py:148-149 | a new store is empty |
| KvStore.InMemoryDb.Contains | quarkchain/db.py:169-170 | `k in db` holds exactly when `get(k)` finds a stored value |
| KvStore.InMemoryDb.Get | quarkchain/db.py:160-161 | `get` returns the stored value for a present key and the default for an absent one |
| KvStore.InMemoryDb.Put | quarkchain/db.py:163-164 | after `put(k, v)`, `get(k)` is `v` and every other key reads as before |
| KvStore.InMemoryDb.Remove | quarkchain/db.py:166-170 | `remove` of an absent key is a KeyError and leaves the store as it was; otherwise it deletes exactly that key; afterwards `k in db` is false and other keys are unchanged |
| KvStore.InMemoryDb.CollectKeys | quarkchain/db.py:152-155 | the first loop of `rangeIter` collects each stored key with `start <= k <= end` exactly once, and no other key |
| KvStore.InMemoryDb.RangeIter | quarkchain/db.py:151-158 | the collect-sort-yield loop returns exactly the specified range scan |
| KvStore.OverlayDb.constructor | quarkchain/db.py:254-257 | a new overlay is empty and sits in front of the given store |
| KvStore.OverlayDb.Contains | quarkchain/db.py:273-279 | `k in db` holds exactly when `get(k)` returns a value, so a tombstone hides the base store's entry and a key without an overlay entry is looked up in the base store |
| KvStore.OverlayDb.Get | quarkchain/db.py:259-279 | `get(k)` returns a value exactly when `k in db`; a key without an overlay entry reads through to the base store |
| KvStore.OverlayDb.Put | quarkchain/db.py:264-265 | `put` changes only the overlay and never the base store; the key then reads back its value and other keys read as before |
| KvStore.OverlayDb.Delete | quarkchain/db.py:267-279 | `delete` stores a tombstone, so the key is absent and reads as `None` even when the base store holds it; the base store and other keys are unchanged |
| KvStore.StripPrefix | quarkchain/db.py:303-304 | stripping keeps each entry's value and removes exactly the first `n` bytes of each key |
| KvStore.RangeKeepsPrefix | quarkchain/db.py:302-304 | every key between `p+start` and `p+end` begins with `p` |
| KvStore.ShardKeysDisjoint | quarkchain/db.py:288-300 | keys of two different shard ids never coincide in the shared store |
| KvStore.ShardedDb.constructor | quarkchain/db.py:285-288 | the shard key is the 4-byte big-endian shard id |
| KvStore.ShardedDb.Contains | quarkchain/db.py:299-300 | `k in db` holds exactly when the base store holds shard key ++ `k`, which is exactly when `get(k)` finds a value |
| KvStore.ShardedDb.Get | quarkchain/db.py:290-300 | `get(k)` reads the base store's entry under shard key ++ `k` |
| KvStore.ShardedDb.Put | quarkchain/db.py:293-294 | `put(k, v)` writes exactly shard key ++ `k` in the base store, and `k` reads back `v` |
| KvStore.ShardedDb.Remove | quarkchain/db.py:296-297 | `remove(k)` deletes shard key ++ `k`, or fails with KeyError and changes nothing when that key is absent |
| KvStore.ShardedDb.RangeIter | quarkchain/db.py:302-304 | the scan is the base store's scan between the prefixed bounds with 4 bytes stripped from each key, and every stripped key, prefixed again, is a stored key with the yielded value |
| DbOps.AddrPrefix | quarkchain/db.py:70-72 | an address-index prefix is 29 bytes long: `addr_` followed by the 24-byte address |
| DbOps.AddrKey | quarkchain/db.py:37 | an index key is the 29-byte address prefix, then 4 bytes holding MAX_TIMESTAMP minus the create time, then the transaction hash |
| DbOps.GetItem | quarkchain/db.py:131-135 | `db[key]` returns the stored value, or raises KeyError exactly when the key is absent |
| DbOps.GetTxAndTimestamp | quarkchain/db.py:56-64 | returns nothing exactly when the `tx_` record is absent or empty; otherwise the timestamp is the record's first 4 bytes read big-endian (below 2^32), and the serialised transaction is the rest |
| DbOps.InputAddress | quarkchain/db.py:24-26 | the slow-path lookup raises TypeError exactly when the spent transaction has no record; the other failures are a decode error and IndexError |
| DbOps.AccountAddresses | quarkchain/db.py:21-35 | the set is defined exactly when consumed outputs are given or every input's lookup succeeds; it holds every output's address; on the fast path it is exactly the consumed addresses together with the output addresses; on the slow path it holds each input's spent address |
| DbOps.DecodeAccountEntry | quarkchain/db.py:76-80 | an index entry's hash is the key after its first 33 bytes, or empty for a shorter key; its create time is below 256^len(value); the value itself is pinned by `AccountEntryRoundTrip` |
| DbOps.GetSpentTxHash | quarkchain/db.py:85-86 | returns a value exactly when the input's `spent_` key is stored, and that value is the stored hash |
| DbOps.GetMinorBlockTxCount | quarkchain/db.py:122-126 | the count is 0 when there is no count record; otherwise it is below 256^len(record), and a 4-byte record is exactly the count's 4-byte encoding |
| DbOps.TakeLimit | quarkchain/db.py:81-83 | with `limit > 0` at most `limit` items are kept, and a limit of 0 or below keeps them all; the result is always a prefix |
| DbOps.Successor | quarkchain/db.py:73 | `(int.from_bytes(start)+1).to_bytes(len(start))` has the same width and encodes value(start)+1 |
| DbOps.SuccessorFits | quarkchain/db.py:73 | the successor fits in the prefix's width when the first byte is below 255, as `a` of `addr_` is, so the conversion never overflows |
| DbOps.AddrScanEnd | quarkchain/db.py:70-73 | the scan's upper bound has the prefix's width and encodes the prefix's value plus one |
| DbOps.CollectAccountAddresses | quarkchain/db.py:21-35 | the address set is the consumed outputs' addresses (fast path), or the addresses of the outputs each input spends (slow path), together with the outputs' addresses; a slow-path lookup that raises (missing transaction: TypeError, undecodable: decode error, bad index: IndexError) is reported |
| DbOps.SpentAddresses | quarkchain/db.py:22-27 | the slow-path loop succeeds exactly when every input's lookup does and then collects each input's spent address; a failure is the error of some input's lookup |
| DbOps.AddOutputAddresses | quarkchain/db.py:33-35 | the loop over the outputs adds exactly their addresses to the set |
| DbOps.PutAccountEntries | quarkchain/db.py:36-37 | the store gains exactly one index entry per address, each holding the 4-byte create time |
| DbOps.PutTxToAccounts | quarkchain/db.py:15-37 | the store gains one index entry per distinct address, or nothing at all when a lookup raises |
| DbOps.PutSpentRecords | quarkchain/db.py:52-53 | every input's `spent_` key maps to the spending transaction's hash |
| DbOps.PutTx | quarkchain/db.py:39-54 | a create time outside 0..2^32-1 raises OverflowError before any write; otherwise the store holds the `tx_` record (4-byte create time ++ transaction), the header records, the optional root-header record and the spent records, plus the address index; when a lookup raises, the earlier records stay written and no index entry is written |
| DbOps.PutMinorBlock | quarkchain/db.py:100-107 | the block, coinbase and count records are written under the block hash; an empty transaction list raises IndexError after the block record, and a count of 2^32 or more raises OverflowError after two records |
| DbOps.AccountTxIter | quarkchain/db.py:69-83 | the iterator yields, for the inclusive scan from the address prefix to its successor, each entry's hash (the key after the timestamp) and create time, stopping after `limit` entries when `limit > 0` |
| DbOps.DecodeEntries | quarkchain/db.py:75-83 | the loop over the scanned entries returns the decoded entries in scan order, cut after `limit` entries when `limit > 0` |
| DbOps.AddrKeyInjective | quarkchain/db.py:36-37 | an index key determines its address, create time and hash, so distinct addresses give distinct entries |
| DbOps.NewerSortsFirst | quarkchain/db.py:15-37 | for one address, a later create time gives a strictly smaller key, so the scan lists newest first |
| DbOps.EarlierIsNotOlder | quarkchain/db.py:15-37 | conversely, a key that sorts earlier never has an older create time |
| DbOps.PrefixedInSuccessorScan | quarkchain/db.py:70-75 | every longer key that begins with the prefix lies within the scan's bounds |
| DbOps.SuccessorScanIsPrefixed | quarkchain/db.py:70-75 | every longer key within the scan's bounds begins with the prefix |
| DbOps.AddrScanIsPrefixScan | quarkchain/db.py:69-75 | for keys longer than the prefix, being within an address's scan is equivalent to beginning with that address's prefix, so one address's scan never yields another's entries |
| DbOps.AccountEntryRoundTrip | quarkchain/db.py:69-80 | an index entry written by `putTx` is met by its address's scan and decodes to its transaction hash and create time |
| DbOps.AccountKeysArePrefixed | quarkchain/db.py:37 | every address-index key begins with `addr_` |
| DbOps.AddrKeyPrefixed | quarkchain/db.py:37 | a single address-index key begins with `addr_` |
| DbOps.TxRecordRoundTrip | quarkchain/db.py:45-64 | after `putTx`, `getTxAndTimestamp` returns the serialised transaction and the block's create time, whether or not index entries were written |
| DbOps.SpentRecordsRoundTrip | quarkchain/db.py:85-86 | after `putTx`, `getSpentTxHash` of each input returns the spending transaction's hash |
| DbOps.InputAddressAfterPutTx | quarkchain/db.py:24-26 | once `putTx` has stored a transaction, a later slow-path lookup of an input that spends one of its outputs returns that output's address |
| DbOps.MinorBlockTxCountRoundTrip | quarkchain/db.py:122-126 | `getMinorBlockTxCount` returns the count `putMinorBlock` stored, and 0 for a block without a count record |
| Master.SlaveInfoList | quarkchain/cluster/master.py:20-25 | the info list has one entry per configured slave, in order, with that slave's id, port, shard masks and parsed IP; it fails exactly when some IP does not parse |
| Master.GetSlaveInfoList | quarkchain/cluster/master.py:20-25 | the loop returns exactly that list, or the parse error |
| Master.AnyMaskCovers | quarkchain/cluster/master.py:42-45 | the early-exit mask scan is true exactly when some mask of the list covers the shard |
| Master.SlaveConnection.constructor | quarkchain/cluster/master.py:32-37 | a connection needs a non-empty mask list and keeps the slave's id and masks |
| Master.SlaveConnection.HasShard | quarkchain/cluster/master.py:41-45 | `hasShard(s)` holds exactly when some mask `m` of the slave satisfies `is_shard_in_mask(s, m)` |
| Master.AllConnected | quarkchain/cluster/master.py:59-65 | the scan of the reply succeeds exactly when every result string is empty |
| Master.ConnectToSlavesVerdict | quarkchain/cluster/master.py:52-65 | a reply whose length differs from the request raises; otherwise the verdict is true exactly when no slave reported an error |
| Master.Covering | quarkchain/cluster/master.py:135-137 | a shard's list of slaves holds exactly the connected slaves that run the shard, in connection order |
| Master.CoveringAppend | quarkchain/cluster/master.py:134-137 | connecting one more slave appends it to exactly the lists of the shards it runs, and adds it to the pool |
| Master.ExtendsStep | quarkchain/cluster/master.py:134-137 | when every shard's list gains the new slave exactly if it runs the shard, the table stays equal to the starting table followed by each shard's covering slaves |
| Master.MasterServer.constructor | quarkchain/cluster/master.py:92-93 | `shardToSlaves` starts as `shardSize` empty lists and `slavePool` starts empty |
| Master.MasterServer.ListNonEmptyIffCovered | quarkchain/cluster/master.py:98-100 | a shard's list is non-empty exactly when some pooled slave runs the shard |
| Master.MasterServer.HasAllShards | quarkchain/cluster/master.py:98-100 | `__hasAllShards` holds exactly when every shard is run by some pooled slave |
| Master.MasterServer.RegisterSlave | quarkchain/cluster/master.py:134-137 | registering adds the slave to the pool, appends it to `shardToSlaves[s]` exactly for the shards `s` in range that it runs, leaves every other list unchanged, and keeps the table consistent with the pool |
| Master.MasterServer.CheckPingReply | quarkchain/cluster/master.py:125-132 | a ping reply with a different id or a different mask list calls `shutdown()` |
| Master.MasterServer.ConnectSlave | quarkchain/cluster/master.py:118-137 | one loop step creates a fresh connection, checks the ping reply, and registers the slave even when the check failed |
| Master.MasterServer.ConnectAll | quarkchain/cluster/master.py:117-137 | the loop registers the configured slaves in order, and every shard's list gains those that run the shard in configuration order; shutdown is requested exactly when some reply mismatched; after a mismatch the loop halts at the next connection wait (`Halted`), so a slave is registered only when no earlier reply mismatched; a slave with no masks stops the loop with the earlier ones registered |
| Master.MasterServer.ConnectToSlaves | quarkchain/cluster/master.py:115-137 | the same, for the configured slave list, or nothing changes when an IP does not parse |
| Master.MasterServer.SetupSlaveToSlaveConnections | quarkchain/cluster/master.py:139-147 | an empty pool returns without reading the configuration; otherwise each step halts when shutdown was requested, then reads the slave list (an unparsable IP raises before any request) and sends it to the slave; on success every pooled slave was sent the list, every verdict is defined, at most one is false, and shutdown is requested exactly when one is; a reply of the wrong length raises; when every verdict is true and no shutdown was pending, it succeeds without requesting shutdown |
| Master.MasterServer.InitCluster | quarkchain/cluster/master.py:153-159 | when some shard has no slave, or when the connect phase fails on an unparsable IP or a slave without masks, no slave is sent a mesh request; on success every pooled slave is; no mesh request is sent when shutdown was requested before or when some ping reply mismatched; `Halted` only follows a shutdown request |
| P2P.Decimal | quarkchain/p2p/p2p_network.py:223 | the decimal text of a port is non-empty and made of digits only |
| P2P.SplitIpPort | quarkchain/p2p/p2p_network.py:242 | `ip, port = ip_port.split(':')` succeeds exactly when the text holds one `:`, and then the text is host ++ `:` ++ port |
| P2P.SplitIpPortRoundTrip | quarkchain/p2p/p2p_network.py:242 | an address formatted from a host without `:` splits back into the host and the port's digits |
| P2P.ConnectedPeers | quarkchain/p2p/p2p_network.py:92-100 | the list is defined exactly when every reported peer's version decodes, and it is no longer than the pool |
| P2P.ConnectedPeersMembership | quarkchain/p2p/p2p_network.py:92-100 | a version is listed exactly when some present, running peer announced bytes that decode to it |
| P2P.ConnectedPeersAppend | quarkchain/p2p/p2p_network.py:92-100 | the list for two concatenated pools is the concatenation of their lists, so pool order is kept |
| P2P.P2PNetwork.constructor | quarkchain/p2p/p2p_network.py:192-203 | the pools start empty and the cluster-peer-id counter starts at 0, which is reserved for the master |
| P2P.P2PNetwork.RefreshConnections | quarkchain/p2p/p2p_network.py:215-247 | the peers to close are exactly the active peers whose `ip:port` is not listed; the candidates are the listed addresses minus the active ones; each candidate above the node's own `ip:port` is dialed; a candidate that does not split raises |
| P2P.P2PNetwork.GetNextClusterPeerId | quarkchain/p2p/p2p_network.py:297-299 | each call returns the previous counter value plus one: the id is at least 1, larger than every id handed out before, and never reused |
| P2P.P2PNetwork.ShutdownPeers | quarkchain/p2p/p2p_network.py:267-271 | the active pool becomes empty, and every peer that was in it is closed exactly once |
| P2P.P2PNetwork.GetPeerByClusterPeerId | quarkchain/p2p/p2p_network.py:301-302 | returns the peer registered under the id, or `None` when there is none |
| P2P.OneOfTwoIsLesser | quarkchain/p2p/p2p_network.py:239-247 | of two distinct `ip:port` strings exactly one is the lesser, and none is less than itself |
| P2P.AtMostOneDials | quarkchain/p2p/p2p_network.py:239-243 | of two nodes, at most one dials the other, whatever their pools and discovery lists, and no node dials its own address |
| P2P.ListedActivePeerKept | quarkchain/p2p/p2p_network.py:221-235 | an active peer that is still listed is neither closed nor dialed again |
| P2P.DialTargetIsNewListedAndGreater | quarkchain/p2p/p2p_network.py:234-243 | every dial target comes from a listed address that no active peer has and that lies above the node's own address |
| P2P.NewListedAndGreaterIsDialed | quarkchain/p2p/p2p_network.py:234-243 | conversely, every listed address that no active peer has, that lies above the node's own address and that splits, is dialed |

## Left out

- Sockets, retries and the event loop are not modelled:
  - `MasterServer.__connect` with its retry loop, and `startAndLoop`. `shutdown` is a flag that halts the bring-up at its next network wait.
  - `P2PNetwork.connect`, `newPeer`, `startServer`, `start` and `shutdown`.
  - `SlaveConnection.close` and `closeWithError`.
  - The RPC framing of `Connection` and `writeRpcRequest`.
  - The ping and mesh replies are function parameters.
- `is_shard_in_mask` is an uninterpreted parameter, and no mask semantics are assumed. `quarkchain/utils.py` is not part of this model.
- IP parsing (`ipaddress.ip_address`), `Transaction.deserialize`, UTF-8 decoding and `getHash` are function parameters or opaque fields. Serialised objects are opaque byte strings.
- `Constant.ADDRESS_LENGTH` is taken as 24 bytes: a 20-byte recipient and a 4-byte full shard id. `quarkchain/core.py` is not part of this model.
- The database mixin's operations are modelled over `InMemoryDb`, the store the mixin is used with here. `PersistentDb` (rocksdb) and the `DB` singleton are not modelled.
- `getTxRootBlockHeader`, `getTxBlockHeader`, `getMinorBlockByHash`, `putRootBlock` and the root-block getters are not modelled. They are single `put`/`get` calls on a prefixed key, followed by deserialisation.
- `OverlayDb.commit` is not modelled; it does nothing.
- Set iteration order is unspecified. The slow-path address set, the `to_be_connected` set and `slavePool` are iterated in an arbitrary order.
- Peer objects are values: a peer's `ip` and `port`.
- The devp2p stack is not modelled: `Devp2pService` hooks, `Devp2pApp`, `devp2p_app` and `serve_app`.
- Logging, `__logSummary`, `parse_args` and `main` are not modelled.
- A peer's `remote_client_version` is either the initial empty text or announced bytes. The test `!= ''` excludes only the former, because bytes never compare equal to text.
- DbOps.AccountTxIter: stopping at the limit is modelled as the end of the iteration. On Python 3.7 and later, the `raise StopIteration()` inside the generator reaches the consumer as RuntimeError (PEP 479), after the `limit` entries have been yielded.
- P2P.P2PNetwork.RefreshConnections: when a split raises, the contract says only that the targets dialed so far are a subset of the full dial set. Which targets those are depends on the set's iteration order.
- Master.MasterServer.SetupSlaveToSlaveConnections: when a reply of the wrong length raises or a false verdict halts the loop, the contract bounds the slaves already sent a request without fixing them. They depend on the pool's iteration order.
- Master.MasterServer.SetupSlaveToSlaveConnections: after `shutdown()` the model sends no request to the next slave. Whether `waitUntilActive` or `writeRpcRequest` writes anything before the stopped loop stops the task depends on `Connection`; `quarkchain/protocol.py` is not part of this model.
- Master.MasterServer.ConnectAll: after `shutdown()` the model makes no further connection attempt. The source opens the next connection only after its wait resumes, which a stopped loop never does.
- Master.MasterServer.InitCluster: the contract states the mesh-phase gate, the halt and its outcome. It does not restate the shard-table effects that `ConnectToSlaves` already states.
- KvStore.ShardedDb.constructor: the shard id is a 32-bit value. The source raises OverflowError for an id outside that range when it builds the shard key, and the model does not represent such an id.
- KvStore.OverlayDb: the base store is an `InMemoryDb`. The source accepts any store that has `get`.
- KvStore.ShardedDb: the base store is an `InMemoryDb`. The source accepts any store with `get`, `put`, `remove`, `__contains__` and `rangeIter`.
