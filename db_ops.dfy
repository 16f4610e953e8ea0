/**
 * The record layout the database mixin writes on top of a key-value store:
 * transactions (`tx_`), their block headers, spent outputs (`spent_`), the
 * per-address transaction index (`addr_`), and minor-block records.
 * Integers are stored as 4-byte big-endian strings; the address index stores
 * the inverse of the creation time so that a scan lists newest entries first.
 * Serialised objects (transactions, headers, blocks) are opaque byte strings.
 */
module DbOps {
  import opened Wrappers
  import opened ByteCodec
  import opened KvStore
  import Lex

  /** `Constant.ADDRESS_LENGTH`: a serialised address is a 20-byte recipient and a 4-byte full shard id. */
  const ADDRESS_LENGTH: nat := 24

  /** `DbOpsMixin.MAX_TIMESTAMP` */
  const MAX_TIMESTAMP: uint32 := 0xFFFF_FFFF

  /** A serialised `Address`. */
  type Address = a: Bytes | |a| == ADDRESS_LENGTH witness seq(24, i => 0)

  /** A transaction input: the spent transaction's hash and output index, and its serialised form. */
  datatype TxInput = TxInput(hash: Bytes, index: nat, encoded: Bytes)

  datatype TxOutput = TxOutput(address: Address)

  /** A transaction; `hash` stands for `getHash()` and `encoded` for `serialize()`. */
  datatype Tx = Tx(inList: seq<TxInput>, outList: seq<TxOutput>, hash: Bytes, encoded: Bytes)

  /** A block header; `createTime` is a Python int, which `putTx` must fit into 4 bytes. */
  datatype BlockHeader = BlockHeader(createTime: int, hash: Bytes, encoded: Bytes)

  datatype MinorBlock = MinorBlock(header: BlockHeader, txList: seq<Tx>, encoded: Bytes)

  const TX_PREFIX: Bytes := [116, 120, 95]  // "tx_"
  const TX_BLOCK_HEADER_PREFIX: Bytes := [116, 120, 66, 108, 111, 99, 107, 72, 101, 97, 100, 101, 114, 95]  // "txBlockHeader_"
  const TX_ROOT_BLOCK_HEADER_PREFIX: Bytes := [116, 120, 82, 111, 111, 116, 66, 108, 111, 99, 107, 72, 101, 97, 100, 101, 114, 95]  // "txRootBlockHeader_"
  const SPENT_PREFIX: Bytes := [115, 112, 101, 110, 116, 95]  // "spent_"
  const ADDR_PREFIX: Bytes := [97, 100, 100, 114, 95]  // "addr_"
  const MBLOCK_PREFIX: Bytes := [109, 98, 108, 111, 99, 107, 95]  // "mblock_"
  const MBLOCK_COINBASE_TX_PREFIX: Bytes := [109, 98, 108, 111, 99, 107, 67, 111, 105, 110, 98, 97, 115, 101, 84, 120, 95]  // "mblockCoinbaseTx_"
  const MBLOCK_TX_COUNT_PREFIX: Bytes := [109, 98, 108, 111, 99, 107, 84, 120, 67, 111, 117, 110, 116, 95]  // "mblockTxCount_"

  // ---------------------------------------------------------------------------
  // Keys

  function TxKey(txHash: Bytes): Bytes { TX_PREFIX + txHash }
  function TxBlockHeaderKey(txHash: Bytes): Bytes { TX_BLOCK_HEADER_PREFIX + txHash }
  function TxRootBlockHeaderKey(txHash: Bytes): Bytes { TX_ROOT_BLOCK_HEADER_PREFIX + txHash }
  function SpentKey(txIn: TxInput): Bytes { SPENT_PREFIX + txIn.encoded }

  /** The start of an address's index: `b'addr_' + address.serialize()`. */
  function AddrPrefix(addr: Address): (r: Bytes)
    ensures |r| == 29
  {
    ADDR_PREFIX + addr
  }

  /**
   * An address-index key: `addr_ ++ address ++ BE4(MAX_TIMESTAMP - createTime) ++ txHash`.
   * Bytes 29..33 hold the inverse time, and the hash starts at byte 33.
   */
  function AddrKey(addr: Address, createTime: uint32, txHash: Bytes): (r: Bytes)
    ensures |r| == 33 + |txHash|
    ensures r[..29] == AddrPrefix(addr) && r[33..] == txHash
    ensures FromBE(r[29..33]) + createTime == MAX_TIMESTAMP
  {
    var r := AddrPrefix(addr) + BE4(MAX_TIMESTAMP - createTime) + txHash;
    assert r[29..33] == BE4(MAX_TIMESTAMP - createTime);
    r
  }

  /** The block hash a record is stored under: the given one, else the computed one. */
  function HashOf(computed: Bytes, given: Option<Bytes>): Bytes
  {
    if given.Some? then given.value else computed
  }

  // ---------------------------------------------------------------------------
  // Writes, as map updates

  /** Putting one value under each of a set of keys. */
  function WriteAll(keys: set<Bytes>, value: Bytes): map<Bytes, Bytes>
  {
    map k | k in keys :: value
  }

  function SpentKeys(inputs: seq<TxInput>): set<Bytes>
  {
    set i | i in inputs :: SpentKey(i)
  }

  function AccountKeys(addrs: set<Address>, createTime: uint32, txHash: Bytes): set<Bytes>
  {
    set a | a in addrs :: AddrKey(a, createTime, txHash)
  }

  /** The store after the first puts of `putTx`: the `tx_` record, the header records and the `spent_` records. */
  function TxBaseWrites(kv: map<Bytes, Bytes>, tx: Tx, header: BlockHeader,
                        rootBlockHeader: Option<Bytes>, txHash: Bytes): map<Bytes, Bytes>
    requires 0 <= header.createTime < TWO_TO_32
  {
    var kv1 := kv[TxKey(txHash) := BE4(header.createTime) + tx.encoded]
                 [TxBlockHeaderKey(txHash) := header.encoded];
    var kv2 := if rootBlockHeader.Some? then kv1[TxRootBlockHeaderKey(txHash) := rootBlockHeader.value] else kv1;
    kv2 + WriteAll(SpentKeys(tx.inList), txHash)
  }

  // ---------------------------------------------------------------------------
  // Reads

  /** `getTxAndTimestamp(txHash)`: the serialised transaction and the confirming block's create time. */
  function GetTxAndTimestamp(kv: map<Bytes, Bytes>, txHash: Bytes): (r: Option<(Bytes, nat)>)
    ensures r.None? <==> TxKey(txHash) !in kv || kv[TxKey(txHash)] == []
    ensures r.Some? ==> r.value.1 < TWO_TO_32
    ensures r.Some? && |kv[TxKey(txHash)]| >= 4 ==> kv[TxKey(txHash)] == ToBE(r.value.1, 4) + r.value.0
    ensures r.Some? && |kv[TxKey(txHash)]| < 4 ==> r.value.0 == []
  {
    if TxKey(txHash) !in kv || kv[TxKey(txHash)] == [] then None
    else
      var value := kv[TxKey(txHash)];
      var n := if |value| < 4 then |value| else 4;
      assert Pow256(n) <= Pow256(4) == TWO_TO_32 by {
        assert Pow256(0) == 1 && Pow256(1) == 256 && Pow256(2) == 65536 && Pow256(3) == 16777216;
      }
      ToFromBE(value[..n]);
      assert value == value[..n] + value[n..];
      Some((value[n..], FromBE(value[..n])))
  }

  /**
   * The address that input `txIn` spends, looked up as the slow path of
   * `__putTxToAccounts` does: `getTx(txIn.hash).outList[txIn.index].address`.
   * `decode` stands for `Transaction.deserialize`.
   */
  function InputAddress(kv: map<Bytes, Bytes>, txIn: TxInput, decode: Bytes -> Option<Tx>): (r: Result<Address, DbError>)
    ensures r == Err(TypeError) <==> GetTxAndTimestamp(kv, txIn.hash).None?
    ensures r.Err? ==> r.error in {TypeError, DecodeError, IndexError}
  {
    match GetTxAndTimestamp(kv, txIn.hash)
    case None => Err(TypeError)
    case Some((encoded, _)) =>
      match decode(encoded)
      case None => Err(DecodeError)
      case Some(t) =>
        if txIn.index < |t.outList| then Ok(t.outList[txIn.index].address) else Err(IndexError)
  }

  /** Whether the slow path resolves the address of every input. */
  predicate InputsResolve(kv: map<Bytes, Bytes>, tx: Tx, decode: Bytes -> Option<Tx>)
  {
    forall i :: 0 <= i < |tx.inList| ==> InputAddress(kv, tx.inList[i], decode).Ok?
  }

  /**
   * The addresses `__putTxToAccounts` indexes: the outputs' addresses and the
   * consumed outputs' addresses (given, or looked up); `None` when a lookup raises.
   */
  function AccountAddresses(kv: map<Bytes, Bytes>, tx: Tx, consumedUtxoList: Option<seq<Address>>,
                            decode: Bytes -> Option<Tx>): (r: Option<set<Address>>)
    ensures r.Some? <==> consumedUtxoList.Some? || InputsResolve(kv, tx, decode)
    ensures r.Some? ==> forall o :: o in tx.outList ==> o.address in r.value
    ensures consumedUtxoList.Some? ==>
      && r.Some?
      && forall a :: a in r.value <==> a in consumedUtxoList.value || exists o :: o in tx.outList && o.address == a
    ensures consumedUtxoList.None? && r.Some? ==>
      forall i :: 0 <= i < |tx.inList| ==> InputAddress(kv, tx.inList[i], decode).value in r.value
  {
    var outs := set o | o in tx.outList :: o.address;
    if consumedUtxoList.Some? then Some((set c | c in consumedUtxoList.value) + outs)
    else if InputsResolve(kv, tx, decode) then
      Some((set i | 0 <= i < |tx.inList| :: InputAddress(kv, tx.inList[i], decode).value) + outs)
    else None
  }

  /** `accountTxIter`'s decoding of one index entry: the hash after the timestamp, and the stored time. */
  function DecodeAccountEntry(entry: (Bytes, Bytes)): (r: (Bytes, nat))
    ensures |entry.0| >= 33 ==> entry.0 == entry.0[..33] + r.0
    ensures |entry.0| < 33 ==> r.0 == []
    ensures r.1 < Pow256(|entry.1|)
  {
    var timestampEnd := |ADDR_PREFIX| + ADDRESS_LENGTH + 4;
    FromBEBound(entry.1);
    (if |entry.0| >= timestampEnd then entry.0[timestampEnd..] else [], FromBE(entry.1))
  }

  function DecodeAccountEntries(entries: seq<(Bytes, Bytes)>): (r: seq<(Bytes, nat)>)
    ensures |r| == |entries| && forall i :: 0 <= i < |r| ==> r[i] == DecodeAccountEntry(entries[i])
  {
    seq(|entries|, i requires 0 <= i < |entries| => DecodeAccountEntry(entries[i]))
  }

  /** The first `limit` items when `limit > 0`, all of them otherwise. */
  function TakeLimit<T>(limit: int, s: seq<T>): (r: seq<T>)
    ensures 0 < limit ==> |r| == if limit < |s| then limit else |s|
    ensures limit <= 0 ==> r == s
    ensures r <= s
  {
    if 0 < limit < |s| then s[..limit] else s
  }

  /** The big-endian successor of a byte string whose first byte leaves room for it, at the same width. */
  function Successor(start: Bytes): (r: Bytes)
    requires start != [] && start[0] < 255
    ensures |r| == |start| && FromBE(r) == FromBE(start) + 1
  {
    SuccessorFits(start);
    FromToBE(FromBE(start) + 1, |start|);
    ToBE(FromBE(start) + 1, |start|)
  }

  /** The inclusive upper bound of an address's scan: the successor of its prefix (which begins with 'a'). */
  function AddrScanEnd(addr: Address): (r: Bytes)
    ensures |r| == |AddrPrefix(addr)| && FromBE(r) == FromBE(AddrPrefix(addr)) + 1
  {
    assert AddrPrefix(addr)[0] == ADDR_PREFIX[0];
    Successor(AddrPrefix(addr))
  }

  /** `getSpentTxHash(txIn)` */
  function GetSpentTxHash(kv: map<Bytes, Bytes>, txIn: TxInput): (r: Option<Bytes>)
    ensures r.Some? <==> SpentKey(txIn) in kv
    ensures r.Some? ==> r.value == kv[SPENT_PREFIX + txIn.encoded]
  {
    if SpentKey(txIn) in kv then Some(kv[SpentKey(txIn)]) else None
  }

  /** `getMinorBlockTxCount(h)`: the stored count, 0 when there is none. */
  function GetMinorBlockTxCount(kv: map<Bytes, Bytes>, blockHash: Bytes): (r: nat)
    ensures MBLOCK_TX_COUNT_PREFIX + blockHash !in kv ==> r == 0
    ensures MBLOCK_TX_COUNT_PREFIX + blockHash in kv ==> r < Pow256(|kv[MBLOCK_TX_COUNT_PREFIX + blockHash]|)
    ensures MBLOCK_TX_COUNT_PREFIX + blockHash in kv && |kv[MBLOCK_TX_COUNT_PREFIX + blockHash]| == 4 ==>
      r < TWO_TO_32 && BE4(r) == kv[MBLOCK_TX_COUNT_PREFIX + blockHash]
  {
    var key := MBLOCK_TX_COUNT_PREFIX + blockHash;
    if key !in kv then 0
    else
      FromBEBound(kv[key]);
      assert Pow256(4) == TWO_TO_32;
      if |kv[key]| == 4 then
        FromBEInjective(BE4(FromBE(kv[key])), kv[key]);
        FromBE(kv[key])
      else FromBE(kv[key])
  }

  /** `db[key]` (`__getitem__`): the stored value; an absent key raises KeyError. */
  function GetItem(kv: map<Bytes, Bytes>, key: Bytes): (r: Result<Bytes, DbError>)
    ensures r.Ok? <==> key in kv
    ensures r.Ok? ==> r.value == kv[key]
    ensures r.Err? ==> r.error == KeyError
  {
    if key in kv then Ok(kv[key]) else Err(KeyError)
  }

  // ---------------------------------------------------------------------------
  // Operations on a store

  /**
   * The first half of `__putTxToAccounts`: the set of addresses the
   * transaction touches, from the given consumed outputs or, without them, by
   * looking up each input's source output (the first failing lookup raises).
   */
  method CollectAccountAddresses(kv: map<Bytes, Bytes>, tx: Tx, consumedUtxoList: Option<seq<Address>>,
                                 decode: Bytes -> Option<Tx>)
    returns (r: Result<set<Address>, DbError>)
    ensures r.Ok? <==> AccountAddresses(kv, tx, consumedUtxoList, decode).Some?
    ensures r.Ok? ==> r.value == AccountAddresses(kv, tx, consumedUtxoList, decode).value
    ensures r.Err? ==> r.error in {TypeError, DecodeError, IndexError}
  {
    var inputAddrs: set<Address> := {};
    if consumedUtxoList.None? {
      // Slow path
      var spent := SpentAddresses(kv, tx, decode);
      if spent.Err? {
        return Err(spent.error);
      }
      inputAddrs := spent.value;
    } else {
      // Fast path
      var consumed := consumedUtxoList.value;
      for i := 0 to |consumed|
        invariant inputAddrs == set c | c in consumed[..i]
      {
        assert consumed[..i + 1] == consumed[..i] + [consumed[i]];
        inputAddrs := inputAddrs + {consumed[i]};
      }
      assert consumed[..|consumed|] == consumed;
    }
    var addrSet := AddOutputAddresses(inputAddrs, tx.outList);
    r := Ok(addrSet);
  }

  /** The slow path of `__putTxToAccounts`: the address of the output each input spends, stopping at the first lookup that raises. */
  method SpentAddresses(kv: map<Bytes, Bytes>, tx: Tx, decode: Bytes -> Option<Tx>)
    returns (r: Result<set<Address>, DbError>)
    ensures r.Ok? <==> InputsResolve(kv, tx, decode)
    ensures r.Ok? ==> r.value == set i | 0 <= i < |tx.inList| :: InputAddress(kv, tx.inList[i], decode).value
    ensures r.Err? ==> exists i :: 0 <= i < |tx.inList| && InputAddress(kv, tx.inList[i], decode) == Err(r.error)
  {
    var addrSet: set<Address> := {};
    for i := 0 to |tx.inList|
      invariant forall j :: 0 <= j < i ==> InputAddress(kv, tx.inList[j], decode).Ok?
      invariant addrSet == set j | 0 <= j < i :: InputAddress(kv, tx.inList[j], decode).value
    {
      var addr := InputAddress(kv, tx.inList[i], decode);
      if addr.Err? {
        return Err(addr.error);
      }
      addrSet := addrSet + {addr.value};
    }
    r := Ok(addrSet);
  }

  /** `__putTxToAccounts`'s loop over the outputs: their addresses join the set. */
  method AddOutputAddresses(addrs: set<Address>, outList: seq<TxOutput>) returns (r: set<Address>)
    ensures r == addrs + set o | o in outList :: o.address
  {
    r := addrs;
    for i := 0 to |outList|
      invariant r == addrs + set o | o in outList[..i] :: o.address
    {
      assert outList[..i + 1] == outList[..i] + [outList[i]];
      r := r + {outList[i].address};
    }
    assert outList[..|outList|] == outList;
  }

  /** The second half of `__putTxToAccounts`: one index entry per address, valued with the create time. */
  method PutAccountEntries(db: InMemoryDb, addrs: set<Address>, createTime: uint32, txHash: Bytes)
    modifies db
    ensures db.kv == old(db.kv) + WriteAll(AccountKeys(addrs, createTime, txHash), BE4(createTime))
  {
    var timestampValue := BE4(createTime);
    var todo := addrs;
    ghost var done: set<Address> := {};
    while todo != {}
      invariant done + todo == addrs && done !! todo
      invariant db.kv == old(db.kv) + WriteAll(AccountKeys(done, createTime, txHash), timestampValue)
      decreases todo
    {
      var addr :| addr in todo;
      var key := AddrKey(addr, createTime, txHash);
      db.Put(key, timestampValue);
      AccountKeysAdd(done, addr, createTime, txHash);
      WriteAllAdd(old(db.kv), AccountKeys(done, createTime, txHash), key, timestampValue);
      done := done + {addr};
      todo := todo - {addr};
    }
  }

  /**
   * `__putTxToAccounts`: collects the addresses, then writes their index
   * entries; a raising lookup leaves the store as it was.
   */
  method PutTxToAccounts(db: InMemoryDb, tx: Tx, txHash: Bytes, createTime: uint32,
                         consumedUtxoList: Option<seq<Address>>, decode: Bytes -> Option<Tx>)
    returns (r: Result<(), DbError>)
    modifies db
    ensures match AccountAddresses(old(db.kv), tx, consumedUtxoList, decode)
      case None => r.Err? && r.error in {TypeError, DecodeError, IndexError} && db.kv == old(db.kv)
      case Some(addrs) =>
        r.Ok? && db.kv == old(db.kv) + WriteAll(AccountKeys(addrs, createTime, txHash), BE4(createTime))
  {
    var addrs := CollectAccountAddresses(db.kv, tx, consumedUtxoList, decode);
    if addrs.Err? {
      return Err(addrs.error);
    }
    PutAccountEntries(db, addrs.value, createTime, txHash);
    r := Ok(());
  }

  /** The `spent_` records of `putTx`: each input's key maps to the spending transaction's hash. */
  method PutSpentRecords(db: InMemoryDb, inputs: seq<TxInput>, txHash: Bytes)
    modifies db
    ensures db.kv == old(db.kv) + WriteAll(SpentKeys(inputs), txHash)
  {
    for i := 0 to |inputs|
      invariant db.kv == old(db.kv) + WriteAll(SpentKeys(inputs[..i]), txHash)
    {
      var key := SpentKey(inputs[i]);
      db.Put(key, txHash);
      WriteAllAdd(old(db.kv), SpentKeys(inputs[..i]), key, txHash);
      assert inputs[..i + 1] == inputs[..i] + [inputs[i]];
      assert SpentKeys(inputs[..i + 1]) == SpentKeys(inputs[..i]) + {key};
    }
    assert inputs[..|inputs|] == inputs;
  }

  /**
   * `putTx`: writes the `tx_` record (4-byte create time followed by the
   * serialised transaction), the block-header records, one `spent_` record per
   * input, and the address index.  A raising slow-path lookup leaves the
   * earlier records written.
   */
  method PutTx(db: InMemoryDb, tx: Tx, blockHeader: BlockHeader, rootBlockHeader: Option<Bytes>,
               givenTxHash: Option<Bytes>, consumedUtxoList: Option<seq<Address>>,
               decode: Bytes -> Option<Tx>)
    returns (r: Result<(), DbError>)
    modifies db
    ensures !(0 <= blockHeader.createTime < TWO_TO_32) ==> r == Err(OverflowError) && db.kv == old(db.kv)
    ensures 0 <= blockHeader.createTime < TWO_TO_32 ==>
      var txHash := HashOf(tx.hash, givenTxHash);
      var base := TxBaseWrites(old(db.kv), tx, blockHeader, rootBlockHeader, txHash);
      match AccountAddresses(base, tx, consumedUtxoList, decode)
      case None => r.Err? && r.error != OverflowError && db.kv == base
      case Some(addrs) =>
        r.Ok? && db.kv == base + WriteAll(AccountKeys(addrs, blockHeader.createTime, txHash), BE4(blockHeader.createTime))
  {
    var txHash := HashOf(tx.hash, givenTxHash);
    var stamp := IntToBytes(blockHeader.createTime, 4);
    assert Pow256(4) == TWO_TO_32;
    if stamp.None? {
      return Err(OverflowError);
    }
    FromBEInjective(stamp.value, BE4(blockHeader.createTime));
    db.Put(TxKey(txHash), stamp.value + tx.encoded);
    db.Put(TxBlockHeaderKey(txHash), blockHeader.encoded);
    if rootBlockHeader.Some? {
      db.Put(TxRootBlockHeaderKey(txHash), rootBlockHeader.value);
    }
    PutSpentRecords(db, tx.inList, txHash);
    r := PutTxToAccounts(db, tx, txHash, blockHeader.createTime, consumedUtxoList, decode);
  }

  /**
   * `putMinorBlock`: the serialised block, its coinbase transaction (the first
   * of its list: IndexError when the list is empty) and its transaction count
   * (OverflowError beyond 4 bytes), each under the block hash.
   */
  method PutMinorBlock(db: InMemoryDb, block: MinorBlock, givenHash: Option<Bytes>)
    returns (r: Result<(), DbError>)
    modifies db
    ensures var h := HashOf(block.header.hash, givenHash);
      var kv1 := old(db.kv)[MBLOCK_PREFIX + h := block.encoded];
      if block.txList == [] then r == Err(IndexError) && db.kv == kv1
      else
        var kv2 := kv1[MBLOCK_COINBASE_TX_PREFIX + h := block.txList[0].encoded];
        if |block.txList| >= TWO_TO_32 then r == Err(OverflowError) && db.kv == kv2
        else r == Ok(()) && db.kv == kv2[MBLOCK_TX_COUNT_PREFIX + h := BE4(|block.txList|)]
  {
    var h := HashOf(block.header.hash, givenHash);
    db.Put(MBLOCK_PREFIX + h, block.encoded);
    if block.txList == [] {
      return Err(IndexError);
    }
    db.Put(MBLOCK_COINBASE_TX_PREFIX + h, block.txList[0].encoded);
    var count := IntToBytes(|block.txList|, 4);
    if count.None? {
      return Err(OverflowError);
    }
    db.Put(MBLOCK_TX_COUNT_PREFIX + h, count.value);
    FromBEInjective(count.value, BE4(|block.txList|));
    r := Ok(());
  }

  /**
   * `accountTxIter(address, limit)`: scans the store from the address prefix to
   * its big-endian successor, yielding each entry's transaction hash and create
   * time, and stops after `limit` entries when `limit > 0`.
   */
  method AccountTxIter(db: InMemoryDb, address: Address, limit: int) returns (r: seq<(Bytes, nat)>)
    ensures r == TakeLimit(limit, DecodeAccountEntries(RangeSpec(db.kv, AddrPrefix(address), AddrScanEnd(address))))
  {
    var entries := db.RangeIter(AddrPrefix(address), AddrScanEnd(address));
    r := DecodeEntries(entries, limit);
  }

  /** The loop of `accountTxIter` over the scanned entries: decode each, stop after `limit` when `limit > 0`. */
  method DecodeEntries(entries: seq<(Bytes, Bytes)>, limit: int) returns (r: seq<(Bytes, nat)>)
    ensures r == TakeLimit(limit, DecodeAccountEntries(entries))
  {
    ghost var all := DecodeAccountEntries(entries);
    r := [];
    var done := 0;
    while done < |entries| && !(0 < limit <= done)
      invariant 0 <= done <= |entries|
      invariant 0 < limit ==> done <= limit
      invariant r == all[..done]
    {
      r := r + [DecodeAccountEntry(entries[done])];
      done := done + 1;
    }
    assert done == |entries| ==> r == all;
  }

  // ---------------------------------------------------------------------------
  // Lemmas

  /** Two keys whose prefixes differ at some position inside both prefixes differ. */
  lemma DifferAt(p: Bytes, q: Bytes, i: nat, x: Bytes, y: Bytes)
    requires i < |p| && i < |q| && p[i] != q[i]
    ensures p + x != q + y
  {
    assert (p + x)[i] == p[i] && (q + y)[i] == q[i];
  }

  /** A byte string whose first byte is below 255 has a big-endian successor of the same width. */
  lemma SuccessorFits(bs: Bytes)
    requires bs != [] && bs[0] < 255
    ensures FromBE(bs) + 1 < Pow256(|bs|)
  {
    var p := Pow256(|bs| - 1);
    FromBEBound(bs[1..]);
    MulLe(bs[0] as int + 1, 255, p);
    assert FromBE(bs) + 1 <= (bs[0] as int + 1) * p;
  }

  lemma WriteAllAdd(kv: map<Bytes, Bytes>, keys: set<Bytes>, k: Bytes, value: Bytes)
    ensures (kv + WriteAll(keys, value))[k := value] == kv + WriteAll(keys + {k}, value)
  {
  }

  lemma AccountKeysAdd(addrs: set<Address>, a: Address, createTime: uint32, txHash: Bytes)
    ensures AccountKeys(addrs + {a}, createTime, txHash) == AccountKeys(addrs, createTime, txHash) + {AddrKey(a, createTime, txHash)}
  {
  }

  /**
   * An index key determines its address, create time and hash, so the index
   * holds exactly one entry per distinct address of a transaction.
   */
  lemma AddrKeyInjective(a1: Address, t1: uint32, h1: Bytes, a2: Address, t2: uint32, h2: Bytes)
    requires AddrKey(a1, t1, h1) == AddrKey(a2, t2, h2)
    ensures a1 == a2 && t1 == t2 && h1 == h2
  {
    var k := AddrKey(a1, t1, h1);
    assert k[5..29] == a1 && k[29..33] == BE4(MAX_TIMESTAMP - t1) && k[33..] == h1;
    var k' := AddrKey(a2, t2, h2);
    assert k'[5..29] == a2 && k'[29..33] == BE4(MAX_TIMESTAMP - t2) && k'[33..] == h2;
  }

  /** Within one address, a later create time sorts strictly earlier in the index. */
  lemma NewerSortsFirst(addr: Address, t1: uint32, h1: Bytes, t2: uint32, h2: Bytes)
    requires t1 > t2
    ensures Lex.Less(AddrKey(addr, t1, h1), AddrKey(addr, t2, h2))
  {
    var p := AddrPrefix(addr);
    BE4Order(MAX_TIMESTAMP - t1, MAX_TIMESTAMP - t2);
    Lex.LessAppend(BE4(MAX_TIMESTAMP - t1), BE4(MAX_TIMESTAMP - t2), h1, h2);
    var u, v := BE4(MAX_TIMESTAMP - t1) + h1, BE4(MAX_TIMESTAMP - t2) + h2;
    Lex.SharedPrefix(p, u, v);
    assert AddrKey(addr, t1, h1) == p + u && AddrKey(addr, t2, h2) == p + v;
  }

  /** Conversely, an index entry that sorts earlier is no older. */
  lemma EarlierIsNotOlder(addr: Address, t1: uint32, h1: Bytes, t2: uint32, h2: Bytes)
    requires Lex.Less(AddrKey(addr, t1, h1), AddrKey(addr, t2, h2))
    ensures t1 >= t2
  {
    if t1 < t2 {
      NewerSortsFirst(addr, t2, h2, t1, h1);
      Lex.Asymmetric(AddrKey(addr, t1, h1), AddrKey(addr, t2, h2));
    }
  }

  /** A longer key that begins with `start` lies between `start` and its successor. */
  lemma PrefixedInSuccessorScan(start: Bytes, rest: Bytes)
    requires start != [] && start[0] < 255 && rest != []
    ensures InRange(start + rest, start, Successor(start))
  {
    var end := Successor(start);
    Lex.PrefixLess(start, rest);
    OrderMatchesValue(start, end);
    Lex.LessAppend(start, end, rest, []);
    assert end + [] == end;
  }

  /** Conversely, a longer key between `start` and its successor begins with `start`. */
  lemma SuccessorScanIsPrefixed(start: Bytes, head: Bytes, rest: Bytes)
    requires start != [] && start[0] < 255 && rest != [] && |head| == |start|
    requires InRange(head + rest, start, Successor(start))
    ensures head == start
  {
    var end := Successor(start);
    if head != start {
      assert |head + rest| > |start| == |end|;
      assert Lex.Less(start + [], head + rest) by { assert start + [] == start; }
      Lex.AppendLess(start, head, [], rest);
      OrderMatchesValue(start, head);
      OrderMatchesValue(end, head);
      assert FromBE(end) <= FromBE(head);
      if FromBE(head) == FromBE(end) {
        FromBEInjective(head, end);
        Lex.PrefixLess(end, rest);
      } else {
        Lex.LessAppend(end, head, [], rest);
        assert end + [] == end;
      }
      assert Lex.Less(end, head + rest);
      assert Lex.Less(head + rest, end);
      Lex.Asymmetric(head + rest, end);
    }
  }

  /**
   * The inclusive scan from an address prefix to its successor meets exactly
   * the longer keys that begin with the prefix, so an address's scan never
   * yields another address's index entries.
   */
  lemma AddrScanIsPrefixScan(addr: Address, k: Bytes)
    requires |k| > 29
    ensures InRange(k, AddrPrefix(addr), AddrScanEnd(addr)) <==> k[..29] == AddrPrefix(addr)
  {
    var start := AddrPrefix(addr);
    assert start[0] == ADDR_PREFIX[0];
    assert k == k[..29] + k[29..];
    if k[..29] == start {
      PrefixedInSuccessorScan(start, k[29..]);
    } else if InRange(k, start, AddrScanEnd(addr)) {
      SuccessorScanIsPrefixed(start, k[..29], k[29..]);
    }
  }

  /** An index entry written by `putTx` is met by its address's scan and decodes to its hash and time. */
  lemma AccountEntryRoundTrip(addr: Address, createTime: uint32, txHash: Bytes)
    ensures InRange(AddrKey(addr, createTime, txHash), AddrPrefix(addr), AddrScanEnd(addr))
    ensures DecodeAccountEntry((AddrKey(addr, createTime, txHash), BE4(createTime))) == (txHash, createTime)
  {
    var k := AddrKey(addr, createTime, txHash);
    assert k[..29] == AddrPrefix(addr);
    AddrScanIsPrefixScan(addr, k);
    assert k[33..] == txHash;
  }

  /**
   * After `putTx` (whether or not the address index could then be written),
   * the `tx_` record yields the create time and the serialised transaction.
   */
  lemma TxRecordRoundTrip(kv: map<Bytes, Bytes>, tx: Tx, header: BlockHeader,
                          rootBlockHeader: Option<Bytes>, txHash: Bytes, accountWrites: map<Bytes, Bytes>)
    requires 0 <= header.createTime < TWO_TO_32
    requires forall k :: k in accountWrites ==> ADDR_PREFIX <= k
    ensures GetTxAndTimestamp(TxBaseWrites(kv, tx, header, rootBlockHeader, txHash) + accountWrites, txHash)
      == Some((tx.encoded, header.createTime as nat))
  {
    var key := TxKey(txHash);
    var base := TxBaseWrites(kv, tx, header, rootBlockHeader, txHash);
    DifferAt(TX_PREFIX, TX_BLOCK_HEADER_PREFIX, 2, txHash, txHash);
    DifferAt(TX_PREFIX, TX_ROOT_BLOCK_HEADER_PREFIX, 2, txHash, txHash);
    assert key !in SpentKeys(tx.inList) by {
      forall i | i in tx.inList ensures key != SpentKey(i) {
        DifferAt(TX_PREFIX, SPENT_PREFIX, 0, txHash, i.encoded);
      }
    }
    assert !(ADDR_PREFIX <= key) by { assert key[0] == 116; }
    var value := BE4(header.createTime) + tx.encoded;
    assert base[key] == value;
    assert value[..4] == BE4(header.createTime) && value[4..] == tx.encoded;
  }

  /** After `putTx`, every input's `spent_` record yields the spending transaction's hash. */
  lemma SpentRecordsRoundTrip(kv: map<Bytes, Bytes>, tx: Tx, header: BlockHeader,
                              rootBlockHeader: Option<Bytes>, txHash: Bytes, accountWrites: map<Bytes, Bytes>)
    requires 0 <= header.createTime < TWO_TO_32
    requires forall k :: k in accountWrites ==> ADDR_PREFIX <= k
    ensures forall i :: 0 <= i < |tx.inList| ==>
      GetSpentTxHash(TxBaseWrites(kv, tx, header, rootBlockHeader, txHash) + accountWrites, tx.inList[i]) == Some(txHash)
  {
    forall i | 0 <= i < |tx.inList|
      ensures GetSpentTxHash(TxBaseWrites(kv, tx, header, rootBlockHeader, txHash) + accountWrites, tx.inList[i]) == Some(txHash)
    {
      var sk := SpentKey(tx.inList[i]);
      assert sk in SpentKeys(tx.inList);
      assert !(ADDR_PREFIX <= sk) by { assert sk[0] == 115; }
    }
  }

  /**
   * The slow path of `__putTxToAccounts` finds, for an input that spends output
   * `index` of a transaction `putTx` stored, exactly that output's address.
   */
  lemma InputAddressAfterPutTx(kv: map<Bytes, Bytes>, t: Tx, header: BlockHeader, rootBlockHeader: Option<Bytes>,
                               accountWrites: map<Bytes, Bytes>, txIn: TxInput, decode: Bytes -> Option<Tx>)
    requires 0 <= header.createTime < TWO_TO_32
    requires forall k :: k in accountWrites ==> ADDR_PREFIX <= k
    requires decode(t.encoded) == Some(t) && txIn.index < |t.outList|
    ensures InputAddress(TxBaseWrites(kv, t, header, rootBlockHeader, txIn.hash) + accountWrites, txIn, decode)
      == Ok(t.outList[txIn.index].address)
  {
    TxRecordRoundTrip(kv, t, header, rootBlockHeader, txIn.hash, accountWrites);
  }

  /** Every key of the address index begins with `addr_`. */
  lemma AccountKeysArePrefixed(addrs: set<Address>, createTime: uint32, txHash: Bytes)
    ensures forall k :: k in WriteAll(AccountKeys(addrs, createTime, txHash), BE4(createTime)) ==> ADDR_PREFIX <= k
  {
    forall k | k in AccountKeys(addrs, createTime, txHash) ensures ADDR_PREFIX <= k {
      var a :| a in addrs && k == AddrKey(a, createTime, txHash);
      AddrKeyPrefixed(a, createTime, txHash);
    }
  }

  lemma AddrKeyPrefixed(a: Address, createTime: uint32, txHash: Bytes)
    ensures ADDR_PREFIX <= AddrKey(a, createTime, txHash)
  {
    var k := AddrKey(a, createTime, txHash);
    assert k == ADDR_PREFIX + (a + BE4(MAX_TIMESTAMP - createTime) + txHash);
  }

  /** `getMinorBlockTxCount` returns the count `putMinorBlock` stored, and 0 for an unknown block. */
  lemma MinorBlockTxCountRoundTrip(kv: map<Bytes, Bytes>, h: Bytes, coinbase: Bytes, encoded: Bytes, count: uint32)
    ensures GetMinorBlockTxCount(kv[MBLOCK_PREFIX + h := encoded][MBLOCK_COINBASE_TX_PREFIX + h := coinbase]
                                   [MBLOCK_TX_COUNT_PREFIX + h := BE4(count)], h) == count
    ensures MBLOCK_TX_COUNT_PREFIX + h !in kv ==> GetMinorBlockTxCount(kv, h) == 0
  {
  }
}
