/**
 * The in-memory key-value stores of the database layer: a plain dictionary
 * store with an inclusive sorted range scan, a write overlay with deletion
 * tombstones in front of a base store, and a shard namespace that prefixes
 * every key with the shard id's 4-byte big-endian encoding.
 */
module KvStore {
  import opened Wrappers
  import opened ByteCodec
  import Lex

  /** The exceptions the store operations raise. */
  datatype DbError = KeyError | IndexError | TypeError | OverflowError | DecodeError

  /** `start <= k <= end` in Python's byte order, both bounds included. */
  predicate InRange(k: Bytes, start: Bytes, end: Bytes)
  {
    Lex.LessEq(start, k) && Lex.LessEq(k, end)
  }

  predicate StrictlySorted(s: seq<Bytes>)
  {
    forall i, j :: 0 <= i < j < |s| ==> Lex.Less(s[i], s[j])
  }

  /** The smallest element of a set of keys. */
  ghost predicate IsLeast(m: Bytes, keys: set<Bytes>)
  {
    m in keys && forall k :: k in keys ==> Lex.LessEq(m, k)
  }

  /** The keys of `keys` listed in ascending byte order: what `sorted(keys)` yields. */
  ghost function SortedKeys(keys: set<Bytes>): seq<Bytes>
    decreases keys
  {
    if keys == {} then []
    else
      LeastExists(keys);
      var m :| IsLeast(m, keys);
      [m] + SortedKeys(keys - {m})
  }

  ghost function KeysInRange(kv: map<Bytes, Bytes>, start: Bytes, end: Bytes): set<Bytes>
  {
    set k | k in kv && InRange(k, start, end)
  }

  /** Each listed key paired with its stored value. */
  function Entries(kv: map<Bytes, Bytes>, keys: seq<Bytes>): (r: seq<(Bytes, Bytes)>)
    requires forall k :: k in keys ==> k in kv
    ensures |r| == |keys| && forall i :: 0 <= i < |keys| ==> r[i] == (keys[i], kv[keys[i]])
  {
    seq(|keys|, i requires 0 <= i < |keys| => (keys[i], kv[keys[i]]))
  }

  /** What `rangeIter(start, end)` yields on a store holding `kv`. */
  ghost function RangeSpec(kv: map<Bytes, Bytes>, start: Bytes, end: Bytes): seq<(Bytes, Bytes)>
  {
    SortedKeysElements(KeysInRange(kv, start, end));
    Entries(kv, SortedKeys(KeysInRange(kv, start, end)))
  }

  /** Inserts a key into an ascending list of keys at its place. */
  function Insert(s: seq<Bytes>, x: Bytes): seq<Bytes>
  {
    if s == [] then [x]
    else if Lex.Less(x, s[0]) then [x] + s
    else [s[0]] + Insert(s[1..], x)
  }

  // ---------------------------------------------------------------------------
  // Ordering lemmas

  lemma {:induction false} LeastExists(keys: set<Bytes>)
    requires keys != {}
    ensures exists m :: IsLeast(m, keys)
    decreases keys
  {
    var x :| x in keys;
    var rest := keys - {x};
    if rest == {} {
      assert keys == {x};
      assert IsLeast(x, keys);
    } else {
      LeastExists(rest);
      var m: Bytes :| IsLeast(m, rest);
      if Lex.Less(x, m) {
        forall k | k in keys ensures Lex.LessEq(x, k) {
          if k != x {
            assert Lex.LessEq(m, k);
            Lex.LessEqTransitive(x, m, k);
          }
        }
        assert IsLeast(x, keys);
      } else {
        if x != m {
          Lex.Total(x, m);
        }
        assert IsLeast(m, keys);
      }
    }
  }

  lemma LeastUnique(m: Bytes, n: Bytes, keys: set<Bytes>)
    requires IsLeast(m, keys) && IsLeast(n, keys)
    ensures m == n
  {
    Lex.Asymmetric(m, n);
  }

  /** `SortedKeys` starts with the least key, followed by the rest in order. */
  lemma SortedKeysUnfold(m: Bytes, keys: set<Bytes>)
    requires IsLeast(m, keys)
    ensures SortedKeys(keys) == [m] + SortedKeys(keys - {m})
  {
    forall m' | IsLeast(m', keys) ensures m' == m {
      LeastUnique(m, m', keys);
    }
  }

  /** A key below every key of a strictly ascending list can be put in front of it. */
  lemma ConsStrictlySorted(m: Bytes, rest: seq<Bytes>)
    requires StrictlySorted(rest)
    requires forall j :: 0 <= j < |rest| ==> Lex.Less(m, rest[j])
    ensures StrictlySorted([m] + rest)
  {
    forall i, j | 0 <= i < j < |[m] + rest| ensures Lex.Less(([m] + rest)[i], ([m] + rest)[j]) {
      if i > 0 {
        assert ([m] + rest)[i] == rest[i - 1];
      }
      assert ([m] + rest)[j] == rest[j - 1];
    }
  }

  /** `SortedKeys` lists every key of the set exactly once, in strictly ascending order. */
  lemma {:induction false} SortedKeysElements(keys: set<Bytes>)
    ensures StrictlySorted(SortedKeys(keys))
    ensures |SortedKeys(keys)| == |keys|
    ensures forall k :: k in SortedKeys(keys) <==> k in keys
    decreases keys
  {
    if keys != {} {
      LeastExists(keys);
      var m :| IsLeast(m, keys);
      var rest := SortedKeys(keys - {m});
      SortedKeysUnfold(m, keys);
      SortedKeysElements(keys - {m});
      forall j | 0 <= j < |rest| ensures Lex.Less(m, rest[j]) {
        assert rest[j] in keys && rest[j] != m;
      }
      ConsStrictlySorted(m, rest);
    }
  }

  /** The head of a strictly ascending list is its least key, and the tail holds the others. */
  lemma HeadIsLeast(t: seq<Bytes>, keys: set<Bytes>)
    requires t != [] && StrictlySorted(t)
    requires forall k :: k in t <==> k in keys
    ensures IsLeast(t[0], keys)
    ensures StrictlySorted(t[1..])
    ensures forall k :: k in t[1..] <==> k in keys - {t[0]}
  {
    assert t[0] in keys;
    forall k | k in keys ensures Lex.LessEq(t[0], k) {
      var j :| 0 <= j < |t| && t[j] == k;
      assert j == 0 || Lex.Less(t[0], t[j]);
    }
    forall i, j | 0 <= i < j < |t[1..]| ensures Lex.Less(t[1..][i], t[1..][j]) {
      assert t[1..][i] == t[i + 1] && t[1..][j] == t[j + 1];
    }
    forall k ensures k in t[1..] <==> k in keys - {t[0]} {
      if k in t[1..] {
        var j :| 1 <= j < |t| && t[j] == k;
        assert Lex.Less(t[0], t[j]);
        Lex.Irreflexive(k);
      }
      if k in keys - {t[0]} {
        var j :| 0 <= j < |t| && t[j] == k;
        assert j != 0;
        assert t[1..][j - 1] == k;
      }
    }
  }

  /** A strictly ascending list of exactly the keys of a set is `SortedKeys` of that set. */
  lemma {:induction false} SortedKeysUnique(t: seq<Bytes>, keys: set<Bytes>)
    requires StrictlySorted(t)
    requires forall k :: k in t <==> k in keys
    ensures t == SortedKeys(keys)
    decreases keys
  {
    if t == [] {
      assert forall k :: k !in keys;
      assert keys == {};
    } else {
      HeadIsLeast(t, keys);
      SortedKeysUnfold(t[0], keys);
      SortedKeysUnique(t[1..], keys - {t[0]});
      assert t == [t[0]] + t[1..];
    }
  }

  /** Inserting a new key into an ascending list keeps it ascending and adds exactly that key. */
  lemma {:induction false} InsertSorted(s: seq<Bytes>, x: Bytes)
    requires StrictlySorted(s) && x !in s
    ensures StrictlySorted(Insert(s, x))
    ensures |Insert(s, x)| == |s| + 1
    ensures forall k :: k in Insert(s, x) <==> k in s || k == x
  {
    if s == [] {
    } else if Lex.Less(x, s[0]) {
      forall j | 0 <= j < |s| ensures Lex.Less(x, s[j]) {
        if j > 0 {
          Lex.Transitive(x, s[0], s[j]);
        }
      }
    } else {
      Lex.Total(x, s[0]);
      InsertSorted(s[1..], x);
      var t := Insert(s[1..], x);
      assert s == [s[0]] + s[1..];
      forall j | 0 <= j < |t| ensures Lex.Less(s[0], t[j]) {
        assert t[j] in s[1..] || t[j] == x;
      }
    }
  }

  /**
   * `keys.sort()` on a list of distinct keys: the same keys in ascending order.
   */
  method SortKeys(keys: seq<Bytes>) returns (sorted: seq<Bytes>)
    requires forall i, j :: 0 <= i < j < |keys| ==> keys[i] != keys[j]
    ensures StrictlySorted(sorted)
    ensures |sorted| == |keys|
    ensures forall k :: k in sorted <==> k in keys
  {
    sorted := [];
    for i := 0 to |keys|
      invariant StrictlySorted(sorted)
      invariant |sorted| == i
      invariant forall k :: k in sorted <==> k in keys[..i]
    {
      assert keys[i] !in keys[..i];
      InsertSorted(sorted, keys[i]);
      sorted := Insert(sorted, keys[i]);
      assert keys[..i + 1] == keys[..i] + [keys[i]];
    }
    assert keys[..|keys|] == keys;
  }

  /** The scan of a store is exactly its keys in range, ascending, each with its value. */
  lemma RangeSpecProperties(kv: map<Bytes, Bytes>, start: Bytes, end: Bytes)
    ensures var r := RangeSpec(kv, start, end);
      && (forall i :: 0 <= i < |r| ==> r[i].0 in kv && r[i].1 == kv[r[i].0] && InRange(r[i].0, start, end))
      && (forall i, j :: 0 <= i < j < |r| ==> Lex.Less(r[i].0, r[j].0))
      && (forall k :: k in kv && InRange(k, start, end) ==> exists i :: 0 <= i < |r| && r[i].0 == k)
  {
    var keys := SortedKeys(KeysInRange(kv, start, end));
    SortedKeysElements(KeysInRange(kv, start, end));
    var r := RangeSpec(kv, start, end);
    forall i | 0 <= i < |r| ensures r[i].0 in kv && r[i].1 == kv[r[i].0] && InRange(r[i].0, start, end) {
      assert r[i].0 == keys[i] && keys[i] in KeysInRange(kv, start, end);
    }
    forall k | k in kv && InRange(k, start, end) ensures exists i :: 0 <= i < |r| && r[i].0 == k {
      assert k in keys;
      var i :| 0 <= i < |keys| && keys[i] == k;
      assert r[i].0 == k;
    }
  }

  /** A key between `p + s` and `p + e` begins with `p`. */
  lemma {:induction false} RangeKeepsPrefix(p: Bytes, s: Bytes, e: Bytes, k: Bytes)
    requires InRange(k, p + s, p + e)
    ensures |k| >= |p| && k[..|p|] == p
    decreases |p|
  {
    if p != [] {
      var ps, pe := p + s, p + e;
      assert ps[0] == p[0] && pe[0] == p[0];
      assert k != [];
      if k[0] < p[0] {
        assert Lex.Less(k, ps);
        Lex.Asymmetric(k, ps);
        assert false;
      } else if k[0] > p[0] {
        assert Lex.Less(pe, k);
        Lex.Asymmetric(k, pe);
        assert false;
      }
      assert ps[1..] == p[1..] + s && pe[1..] == p[1..] + e;
      RangeKeepsPrefix(p[1..], s, e, k[1..]);
      assert k[..|p|] == [k[0]] + k[1..][..|p| - 1];
      assert p == [p[0]] + p[1..];
    }
  }

  // ---------------------------------------------------------------------------
  // InMemoryDb

  /** `InMemoryDb`: a dictionary from byte keys to byte values. */
  class InMemoryDb {
    var kv: map<Bytes, Bytes>

    constructor ()
      ensures kv == map[]
    {
      kv := map[];
    }

    /** `key in db`: exactly the keys `get` finds a value for. */
    predicate Contains(key: Bytes)
      reads this
      ensures Contains(key) <==> Get(key, None).Some?
    {
      key in kv
    }

    /** `get(key, default)`: the stored value, or `default` for an absent key. */
    function Get(key: Bytes, default: Option<Bytes>): (r: Option<Bytes>)
      reads this
      ensures key in kv ==> r == Some(kv[key])
      ensures key !in kv ==> r == default
    {
      if key in kv then Some(kv[key]) else default
    }

    /** `put(key, value)` */
    method Put(key: Bytes, value: Bytes)
      modifies this
      ensures kv == old(kv)[key := value]
      ensures Get(key, None) == Some(value)
      ensures forall k :: k != key ==> Get(k, None) == old(Get(k, None))
    {
      kv := kv[key := value];
    }

    /** `remove(key)`: deletes a present key; an absent key raises KeyError (`Err`). */
    method Remove(key: Bytes) returns (r: Result<(), DbError>)
      modifies this
      ensures r.Err? <==> key !in old(kv)
      ensures r.Ok? ==> kv == old(kv) - {key}
      ensures r.Err? ==> kv == old(kv)
      ensures !Contains(key)
      ensures forall k :: k != key ==> Get(k, None) == old(Get(k, None))
    {
      if key !in kv {
        return Err(KeyError);
      }
      kv := kv - {key};
      r := Ok(());
    }

    /** The first loop of `rangeIter`: the stored keys within the bounds, each once, in iteration order. */
    method CollectKeys(start: Bytes, end: Bytes) returns (keys: seq<Bytes>)
      ensures forall k :: k in keys <==> k in kv && InRange(k, start, end)
      ensures forall i, j :: 0 <= i < j < |keys| ==> keys[i] != keys[j]
    {
      keys := [];
      var unseen := kv.Keys;
      while unseen != {}
        invariant unseen <= kv.Keys
        invariant forall k :: k in keys <==> k in kv && k !in unseen && InRange(k, start, end)
        invariant forall i, j :: 0 <= i < j < |keys| ==> keys[i] != keys[j]
        decreases unseen
      {
        var k :| k in unseen;
        if Lex.LessEq(start, k) && Lex.LessEq(k, end) {
          keys := keys + [k];
        }
        unseen := unseen - {k};
      }
    }

    /**
     * `rangeIter(start, end)`: collects the keys with `start <= k <= end`,
     * sorts them, and yields each with its value.
     */
    method RangeIter(start: Bytes, end: Bytes) returns (r: seq<(Bytes, Bytes)>)
      ensures r == RangeSpec(kv, start, end)
    {
      var keys := CollectKeys(start, end);
      keys := SortKeys(keys);
      SortedKeysUnique(keys, KeysInRange(kv, start, end));
      r := [];
      for i := 0 to |keys|
        invariant r == Entries(kv, keys[..i])
      {
        r := r + [(keys[i], kv[keys[i]])];
      }
      assert keys[..|keys|] == keys;
    }
  }

  // ---------------------------------------------------------------------------
  // OverlayDb

  /**
   * `OverlayDb`: writes go to `overlay`; a deletion stores a tombstone (`None`);
   * reads consult the overlay first and fall through to the base store.
   */
  class OverlayDb {
    const base: InMemoryDb
    var overlay: map<Bytes, Option<Bytes>>

    constructor (db: InMemoryDb)
      ensures base == db && overlay == map[]
    {
      base := db;
      overlay := map[];
    }

    /** `key in db` (`_has_key`): exactly the keys `get` finds a value for, so a tombstone hides the base entry. */
    predicate Contains(key: Bytes)
      reads this, base
      ensures Contains(key) <==> Get(key).Some?
      ensures key in overlay && overlay[key].None? ==> !Contains(key)
    {
      if key in overlay then overlay[key].Some? else base.Get(key, None).Some?
    }

    /** `get(key)`: the overlay entry (a tombstone reads as `None`), else the base store's value. */
    function Get(key: Bytes): (r: Option<Bytes>)
      reads this, base
      ensures key in overlay ==> r == overlay[key]
      ensures key !in overlay ==> r == base.Get(key, None)
    {
      if key in overlay then overlay[key] else base.Get(key, None)
    }

    /** `put(key, value)`: only the overlay changes. */
    method Put(key: Bytes, value: Bytes)
      modifies this
      ensures overlay == old(overlay)[key := Some(value)]
      ensures base.kv == old(base.kv)
      ensures Get(key) == Some(value) && Contains(key)
      ensures forall k :: k != key ==> Get(k) == old(Get(k))
    {
      overlay := overlay[key := Some(value)];
    }

    /** `delete(key)`: stores a tombstone, hiding any value the base store holds. */
    method Delete(key: Bytes)
      modifies this
      ensures overlay == old(overlay)[key := None]
      ensures base.kv == old(base.kv)
      ensures Get(key) == None && !Contains(key)
      ensures forall k :: k != key ==> Get(k) == old(Get(k))
    {
      overlay := overlay[key := None];
    }
  }

  // ---------------------------------------------------------------------------
  // ShardedDb

  /** Stripping the shard prefix from each key of a scan. */
  function StripPrefix(n: nat, entries: seq<(Bytes, Bytes)>): (r: seq<(Bytes, Bytes)>)
    ensures |r| == |entries|
    ensures forall i :: 0 <= i < |r| ==> r[i].1 == entries[i].1
    ensures forall i :: 0 <= i < |r| && |entries[i].0| >= n ==> r[i].0 == entries[i].0[n..]
  {
    seq(|entries|, i requires 0 <= i < |entries| =>
      (if |entries[i].0| >= n then entries[i].0[n..] else [], entries[i].1))
  }

  /** Keys of two different shards never coincide. */
  lemma ShardKeysDisjoint(a: uint32, b: uint32, k1: Bytes, k2: Bytes)
    requires a != b
    ensures BE4(a) + k1 != BE4(b) + k2
  {
    assert (BE4(a) + k1)[..4] == BE4(a);
    assert (BE4(b) + k2)[..4] == BE4(b);
  }

  /** `ShardedDb`: a view of a store in which every key is prefixed with the shard id's 4-byte encoding. */
  class ShardedDb {
    const db: InMemoryDb
    const fullShardId: uint32
    const shardKey: Bytes

    constructor (db: InMemoryDb, fullShardId: uint32)
      ensures this.db == db && this.fullShardId == fullShardId
      ensures shardKey == BE4(fullShardId) && |shardKey| == 4
    {
      this.db := db;
      this.fullShardId := fullShardId;
      this.shardKey := BE4(fullShardId);
    }

    /** `key in db`: exactly the keys `get` finds a value for, that is, whose prefixed key the base store holds. */
    predicate Contains(key: Bytes)
      reads db
      ensures Contains(key) <==> Get(key, None).Some?
      ensures Contains(key) <==> shardKey + key in db.kv
    {
      db.Contains(shardKey + key)
    }

    /** `get(key, default)`: the base store's entry under the prefixed key. */
    function Get(key: Bytes, default: Option<Bytes>): (r: Option<Bytes>)
      reads db
      ensures shardKey + key in db.kv ==> r == Some(db.kv[shardKey + key])
      ensures shardKey + key !in db.kv ==> r == default
    {
      db.Get(shardKey + key, default)
    }

    method Put(key: Bytes, value: Bytes)
      modifies db
      ensures db.kv == old(db.kv)[shardKey + key := value]
      ensures Get(key, None) == Some(value)
    {
      db.Put(shardKey + key, value);
    }

    method Remove(key: Bytes) returns (r: Result<(), DbError>)
      modifies db
      ensures r.Err? <==> shardKey + key !in old(db.kv)
      ensures r.Ok? ==> db.kv == old(db.kv) - {shardKey + key}
      ensures r.Err? ==> db.kv == old(db.kv)
    {
      r := db.Remove(shardKey + key);
    }

    /**
     * `rangeIter(start, end)`: scans the base store between the prefixed bounds
     * and strips the 4-byte prefix from every key.  Every key the scan meets
     * carries this shard's prefix, so the stripped key is the one `put` was given.
     */
    method RangeIter(start: Bytes, end: Bytes) returns (r: seq<(Bytes, Bytes)>)
      requires |shardKey| == 4
      ensures r == StripPrefix(4, RangeSpec(db.kv, shardKey + start, shardKey + end))
      ensures forall i :: 0 <= i < |r| ==>
        shardKey + r[i].0 in db.kv && db.kv[shardKey + r[i].0] == r[i].1
    {
      var inner := db.RangeIter(shardKey + start, shardKey + end);
      r := StripPrefix(4, inner);
      RangeSpecProperties(db.kv, shardKey + start, shardKey + end);
      forall i | 0 <= i < |r|
        ensures shardKey + r[i].0 in db.kv && db.kv[shardKey + r[i].0] == r[i].1
      {
        RangeKeepsPrefix(shardKey, start, end, inner[i].0);
        assert shardKey + r[i].0 == inner[i].0;
      }
    }
  }
}
