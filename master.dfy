/**
 * The master's bookkeeping while it brings a cluster up: the slave list read
 * from the cluster configuration, the slaves it connects to and checks by
 * ping, the table of which slaves run each shard, the full-coverage gate, and
 * the verdict of the slave-to-slave mesh requests.
 *
 * Sockets, retries and the RPC layer are not modelled: the ping reply and the
 * mesh reply of a slave are function parameters, IP parsing is a function
 * parameter.  `shutdown()` stops the event loop, so the bring-up task is left
 * suspended at its next network wait and never resumes; the model records the
 * call in a flag and ends the operation at that wait (`Halted`).
 * `is_shard_in_mask` is an uninterpreted parameter.
 */
module Master {
  import opened Wrappers

  /** An entry of the configuration's slave list, as read from JSON. */
  datatype SlaveEntry = SlaveEntry(id: string, ip: string, port: nat, shardMasks: seq<int>)

  datatype ClusterConfig = ClusterConfig(slaves: seq<SlaveEntry>)

  /** `SlaveInfo`: a slave's id, IPv4/IPv6 address as an integer, port and shard masks. */
  datatype SlaveInfo = SlaveInfo(id: string, ip: nat, port: nat, shardMaskList: seq<int>)

  /** The fields of a `PING` reply the master looks at. */
  datatype PingReply = PingReply(id: string, shardMaskList: seq<int>)

  datatype InitError =
    | BadSlaveIp            // `ipaddress.ip_address` raised ValueError
    | EmptyShardMaskList    // `check(len(shardMaskList) > 0)` failed
    | ReplyLengthMismatch   // `check(len(resp.resultList) == len(slaveInfoList))` failed
    | Halted                // `shutdown()` stopped the event loop; the task never passes its next network wait

  /** How `__initCluster` ended when nothing raised. */
  datatype InitOutcome = MissingShards | MeshRequested

  // ---------------------------------------------------------------------------
  // Configuration

  /** The slave information list that `getSlaveInfoList` returns for a configuration. */
  function SlaveInfoList(config: ClusterConfig, parseIp: string -> Option<nat>): (r: Result<seq<SlaveInfo>, InitError>)
    ensures r.Ok? <==> forall i :: 0 <= i < |config.slaves| ==> parseIp(config.slaves[i].ip).Some?
    ensures r.Err? ==> r.error == BadSlaveIp
    ensures r.Ok? ==> |r.value| == |config.slaves| && forall i :: 0 <= i < |r.value| ==>
      var e := config.slaves[i];
      && r.value[i].id == e.id && r.value[i].port == e.port && r.value[i].shardMaskList == e.shardMasks
      && Some(r.value[i].ip) == parseIp(e.ip)
  {
    if forall i :: 0 <= i < |config.slaves| ==> parseIp(config.slaves[i].ip).Some? then
      Ok(seq(|config.slaves|, i requires 0 <= i < |config.slaves| && parseIp(config.slaves[i].ip).Some? =>
        var e := config.slaves[i];
        SlaveInfo(e.id, parseIp(e.ip).value, e.port, e.shardMasks)))
    else
      Err(BadSlaveIp)
  }

  /** `ClusterConfig.getSlaveInfoList`: one `SlaveInfo` per configured slave, in order. */
  method GetSlaveInfoList(config: ClusterConfig, parseIp: string -> Option<nat>) returns (r: Result<seq<SlaveInfo>, InitError>)
    ensures r == SlaveInfoList(config, parseIp)
  {
    var results: seq<SlaveInfo> := [];
    for i := 0 to |config.slaves|
      invariant forall j :: 0 <= j < i ==> parseIp(config.slaves[j].ip).Some?
      invariant |results| == i
      invariant forall j :: 0 <= j < i ==>
        results[j] == SlaveInfo(config.slaves[j].id, parseIp(config.slaves[j].ip).value, config.slaves[j].port, config.slaves[j].shardMasks)
    {
      var slave := config.slaves[i];
      var ip := parseIp(slave.ip);
      if ip.None? {
        assert !parseIp(config.slaves[i].ip).Some?;
        return Err(BadSlaveIp);
      }
      results := results + [SlaveInfo(slave.id, ip.value, slave.port, slave.shardMasks)];
    }
    assert results == SlaveInfoList(config, parseIp).value;
    r := Ok(results);
  }

  // ---------------------------------------------------------------------------
  // Slave connections

  /** Whether one of `masks` covers the shard: the early-exit scan of `hasShard`. */
  function AnyMaskCovers(isShardInMask: (nat, int) -> bool, shardId: nat, masks: seq<int>): (r: bool)
    ensures r <==> exists i :: 0 <= i < |masks| && isShardInMask(shardId, masks[i])
  {
    if masks == [] then false
    else if isShardInMask(shardId, masks[0]) then true
    else
      var rest := AnyMaskCovers(isShardInMask, shardId, masks[1..]);
      assert forall i :: 1 <= i < |masks| ==> masks[i] == masks[1..][i - 1];
      rest
  }

  /** The master's end of a connection to one slave. */
  class SlaveConnection {
    const id: string
    const shardMaskList: seq<int>

    /** The connection is built only for a non-empty mask list; `check` raises otherwise. */
    constructor(slaveId: string, shardMaskList: seq<int>)
      requires |shardMaskList| > 0
      ensures id == slaveId && this.shardMaskList == shardMaskList
    {
      id := slaveId;
      this.shardMaskList := shardMaskList;
    }

    /** `hasShard`: some mask of the slave covers the shard. */
    function HasShard(isShardInMask: (nat, int) -> bool, shardId: nat): (r: bool)
      ensures r <==> exists m :: m in shardMaskList && isShardInMask(shardId, m)
    {
      var r := AnyMaskCovers(isShardInMask, shardId, shardMaskList);
      assert r ==> exists m :: m in shardMaskList && isShardInMask(shardId, m) by {
        if r {
          var i :| 0 <= i < |shardMaskList| && isShardInMask(shardId, shardMaskList[i]);
          var m := shardMaskList[i];
          assert m in shardMaskList && isShardInMask(shardId, m);
        }
      }
      r
    }
  }

  /** Whether every result string of a connect-to-slaves reply is empty, scanning until the first error. */
  function AllConnected(results: seq<string>): (r: bool)
    ensures r <==> forall i :: 0 <= i < |results| ==> results[i] == ""
  {
    if results == [] then true
    else if |results[0]| > 0 then false
    else
      var rest := AllConnected(results[1..]);
      assert forall i :: 1 <= i < |results| ==> results[i] == results[1..][i - 1];
      rest
  }

  /**
   * `sendConnectToSlaves`' verdict on a reply to a request listing `requested`:
   * a reply of another length raises; otherwise success iff no slave reported an error.
   */
  function ConnectToSlavesVerdict(results: seq<string>, requested: seq<SlaveInfo>): (r: Result<bool, InitError>)
    ensures r.Err? <==> |results| != |requested|
    ensures r.Err? ==> r.error == ReplyLengthMismatch
    ensures r.Ok? ==> (r.value <==> forall i :: 0 <= i < |results| ==> results[i] == "")
  {
    if |results| != |requested| then Err(ReplyLengthMismatch) else Ok(AllConnected(results))
  }

  /** A ping reply that disagrees with the configuration on the id or on the mask list. */
  predicate Mismatch(info: SlaveInfo, reply: PingReply)
  {
    reply.id != info.id || reply.shardMaskList != info.shardMaskList
  }

  /** Some of the first `n` configured slaves answered the ping with a different id or mask list. */
  predicate AnyMismatch(infos: seq<SlaveInfo>, pingReply: SlaveInfo -> PingReply, n: nat)
    requires n <= |infos|
  {
    exists j :: 0 <= j < n && Mismatch(infos[j], pingReply(infos[j]))
  }

  lemma AnyMismatchStep(infos: seq<SlaveInfo>, pingReply: SlaveInfo -> PingReply, n: nat)
    requires n < |infos|
    ensures AnyMismatch(infos, pingReply, n + 1) <==>
      AnyMismatch(infos, pingReply, n) || Mismatch(infos[n], pingReply(infos[n]))
  {
    if Mismatch(infos[n], pingReply(infos[n])) {
      assert 0 <= n < n + 1 && Mismatch(infos[n], pingReply(infos[n]));
    }
  }

  /** A connection carries the configured slave's id and mask list. */
  predicate ConnectionFor(c: SlaveConnection, info: SlaveInfo)
  {
    c.id == info.id && c.shardMaskList == info.shardMaskList
  }

  /** The slaves of `slaves` that run shard `s`, in order. */
  function Covering(slaves: seq<SlaveConnection>, isShardInMask: (nat, int) -> bool, s: nat): (r: seq<SlaveConnection>)
    ensures forall c :: c in r ==> c in slaves && c.HasShard(isShardInMask, s)
    ensures forall c :: c in slaves && c.HasShard(isShardInMask, s) ==> c in r
    ensures |r| <= |slaves|
  {
    if slaves == [] then []
    else
      var last := slaves[|slaves| - 1];
      var init := slaves[..|slaves| - 1];
      assert slaves == init + [last];
      Covering(init, isShardInMask, s) + (if last.HasShard(isShardInMask, s) then [last] else [])
  }

  /** Connecting one more slave extends each shard's covering list and the pool by that slave. */
  lemma CoveringAppend(slaves: seq<SlaveConnection>, c: SlaveConnection, isShardInMask: (nat, int) -> bool)
    ensures forall s: nat ::
      Covering(slaves + [c], isShardInMask, s) ==
      Covering(slaves, isShardInMask, s) + (if c.HasShard(isShardInMask, s) then [c] else [])
    ensures (set x | x in slaves + [c]) == (set x | x in slaves) + {c}
  {
    assert (slaves + [c])[..|slaves|] == slaves;
  }

  /** Each shard's list in `table` is its list in `table0` followed by the slaves of `connected` that run it. */
  ghost predicate Extends(table: seq<seq<SlaveConnection>>, table0: seq<seq<SlaveConnection>>,
                          connected: seq<SlaveConnection>, isShardInMask: (nat, int) -> bool)
  {
    |table| == |table0| &&
    forall s :: 0 <= s < |table| ==> table[s] == table0[s] + Covering(connected, isShardInMask, s)
  }

  lemma ExtendsStep(table0: seq<seq<SlaveConnection>>, before: seq<seq<SlaveConnection>>,
                    after: seq<seq<SlaveConnection>>, connected: seq<SlaveConnection>,
                    c: SlaveConnection, isShardInMask: (nat, int) -> bool)
    requires Extends(before, table0, connected, isShardInMask)
    requires |after| == |before|
    requires forall s :: 0 <= s < |before| ==>
      after[s] == before[s] + (if c.HasShard(isShardInMask, s) then [c] else [])
    ensures Extends(after, table0, connected + [c], isShardInMask)
  {
    CoveringAppend(connected, c, isShardInMask);
    forall s | 0 <= s < |after|
      ensures after[s] == table0[s] + Covering(connected + [c], isShardInMask, s)
    {
      var x := if c.HasShard(isShardInMask, s) then [c] else [];
      assert after[s] == table0[s] + Covering(connected, isShardInMask, s) + x;
    }
  }

  /** The verdict of `sendConnectToSlaves` on the reply of slave `c`. */
  function MeshVerdict(c: SlaveConnection, infos: seq<SlaveInfo>,
                       meshReply: (SlaveConnection, seq<SlaveInfo>) -> seq<string>): Result<bool, InitError>
  {
    ConnectToSlavesVerdict(meshReply(c, infos), infos)
  }

  /** Some slave of `cs` reported a failed mesh connection. */
  ghost predicate AnyFalseVerdict(cs: set<SlaveConnection>, infos: seq<SlaveInfo>,
                                  meshReply: (SlaveConnection, seq<SlaveInfo>) -> seq<string>)
  {
    exists c :: c in cs && MeshVerdict(c, infos, meshReply) == Ok(false)
  }

  /** At most one slave of `cs` reported a failed mesh connection. */
  ghost predicate AtMostOneFalseVerdict(cs: set<SlaveConnection>, infos: seq<SlaveInfo>,
                                        meshReply: (SlaveConnection, seq<SlaveInfo>) -> seq<string>)
  {
    forall c, d ::
      (c in cs && d in cs && MeshVerdict(c, infos, meshReply) == Ok(false) && MeshVerdict(d, infos, meshReply) == Ok(false))
      ==> c == d
  }

  /**
   * The state of the mesh loop after the slaves `done`: each of them answered
   * with a verdict, at most one verdict was false, and `shutdown()` has been
   * called exactly when one was (or before the loop).
   */
  ghost predicate MeshProgress(done: set<SlaveConnection>, infos: seq<SlaveInfo>,
                               meshReply: (SlaveConnection, seq<SlaveInfo>) -> seq<string>,
                               shutdownBefore: bool, shutdownNow: bool)
  {
    && (shutdownNow <==> shutdownBefore || AnyFalseVerdict(done, infos, meshReply))
    && (forall c :: c in done ==> MeshVerdict(c, infos, meshReply).Ok?)
    && AtMostOneFalseVerdict(done, infos, meshReply)
  }

  /** One step of the mesh loop, taken while no shutdown is pending: the slave's verdict joins `done`. */
  lemma MeshProgressStep(done: set<SlaveConnection>, c: SlaveConnection, infos: seq<SlaveInfo>,
                         meshReply: (SlaveConnection, seq<SlaveInfo>) -> seq<string>, shutdownBefore: bool)
    requires MeshProgress(done, infos, meshReply, shutdownBefore, false)
    requires MeshVerdict(c, infos, meshReply).Ok?
    ensures MeshProgress(done + {c}, infos, meshReply, shutdownBefore, !MeshVerdict(c, infos, meshReply).value)
  {
    if !MeshVerdict(c, infos, meshReply).value {
      assert c in done + {c};
    }
  }

  // ---------------------------------------------------------------------------
  // The master

  class MasterServer {
    const isShardInMask: (nat, int) -> bool
    const shardSize: nat
    /** shard id -> the slaves running the shard, in the order they were connected */
    const shardToSlaves: array<seq<SlaveConnection>>
    var slavePool: set<SlaveConnection>
    /** Whether `shutdown()` has been called. */
    var shutdownRequested: bool
    /** The slaves that have been sent a connect-to-slaves request. */
    ghost var meshRequested: set<SlaveConnection>

    /** One list per shard, and a shard's list holds exactly the pooled slaves that run it. */
    ghost predicate Valid()
      reads this`slavePool, shardToSlaves
    {
      && shardToSlaves.Length == shardSize
      && (forall s: nat, c :: s < shardSize && c in shardToSlaves[s] ==>
            c in slavePool && c.HasShard(isShardInMask, s))
      && (forall s: nat, c :: s < shardSize && c in slavePool && c.HasShard(isShardInMask, s) ==>
            c in shardToSlaves[s])
    }

    constructor(isShardInMask: (nat, int) -> bool, shardSize: nat)
      ensures Valid() && fresh(shardToSlaves)
      ensures this.isShardInMask == isShardInMask && this.shardSize == shardSize
      ensures forall s :: 0 <= s < shardSize ==> shardToSlaves[s] == []
      ensures slavePool == {} && !shutdownRequested && meshRequested == {}
    {
      this.isShardInMask := isShardInMask;
      this.shardSize := shardSize;
      shardToSlaves := new seq<SlaveConnection>[shardSize](_ => []);
      slavePool := {};
      shutdownRequested := false;
      meshRequested := {};
    }

    /** Some pooled slave runs shard `s`. */
    ghost predicate ShardCovered(s: nat)
      reads this
    {
      exists c :: c in slavePool && c.HasShard(isShardInMask, s)
    }

    /** A shard's list is non-empty exactly when some pooled slave runs the shard. */
    lemma ListNonEmptyIffCovered(s: nat)
      requires Valid() && s < shardSize
      ensures |shardToSlaves[s]| > 0 <==> ShardCovered(s)
    {
      if ShardCovered(s) {
        var c :| c in slavePool && c.HasShard(isShardInMask, s);
        assert c in shardToSlaves[s];
      }
      if |shardToSlaves[s]| > 0 {
        var c := shardToSlaves[s][0];
        assert c in shardToSlaves[s];
        assert c in slavePool && c.HasShard(isShardInMask, s);
      }
    }

    /** `__hasAllShards`: every shard's list is non-empty, i.e. every shard is run by some pooled slave. */
    function HasAllShards(): (r: bool)
      requires Valid()
      reads this, shardToSlaves
      ensures r <==> forall s: nat :: s < shardSize ==> ShardCovered(s)
    {
      assert (forall s :: 0 <= s < shardToSlaves.Length ==> |shardToSlaves[s]| > 0)
         <==> (forall s: nat :: s < shardSize ==> ShardCovered(s)) by {
        forall s: nat | s < shardSize {
          ListNonEmptyIffCovered(s);
        }
      }
      forall s :: 0 <= s < shardToSlaves.Length ==> |shardToSlaves[s]| > 0
    }

    /** The registration half of `__connectToSlaves`' loop body: pool the slave and append it to its shards' lists. */
    method RegisterSlave(slave: SlaveConnection)
      requires Valid()
      modifies this, shardToSlaves
      ensures Valid()
      ensures slavePool == old(slavePool) + {slave}
      ensures forall s :: 0 <= s < shardSize ==>
        shardToSlaves[s] == old(shardToSlaves[s]) + (if slave.HasShard(isShardInMask, s) then [slave] else [])
      ensures shutdownRequested == old(shutdownRequested) && meshRequested == old(meshRequested)
    {
      for shardId := 0 to shardSize
        modifies shardToSlaves
        invariant forall s :: 0 <= s < shardId ==>
          shardToSlaves[s] == old(shardToSlaves[s]) + (if slave.HasShard(isShardInMask, s) then [slave] else [])
        invariant forall s :: shardId <= s < shardSize ==> shardToSlaves[s] == old(shardToSlaves[s])
      {
        if slave.HasShard(isShardInMask, shardId) {
          shardToSlaves[shardId] := shardToSlaves[shardId] + [slave];
        }
      }
      slavePool := slavePool + {slave};
    }

    /** The identity check after `PING`: a mismatch calls `shutdown()`, and nothing else happens. */
    method CheckPingReply(info: SlaveInfo, reply: PingReply)
      modifies this
      ensures shutdownRequested == (old(shutdownRequested) || Mismatch(info, reply))
      ensures slavePool == old(slavePool) && meshRequested == old(meshRequested)
    {
      if reply.id != info.id {
        shutdownRequested := true;
      }
      if reply.shardMaskList != info.shardMaskList {
        shutdownRequested := true;
      }
    }

    /**
     * One iteration of `__connectToSlaves`: open a connection for the
     * configured slave, check its ping reply, and register it whatever the
     * check found.
     */
    method ConnectSlave(info: SlaveInfo, reply: PingReply) returns (slave: SlaveConnection)
      requires Valid() && |info.shardMaskList| > 0
      modifies this, shardToSlaves
      ensures Valid() && fresh(slave)
      ensures ConnectionFor(slave, info)
      ensures slavePool == old(slavePool) + {slave}
      ensures forall s :: 0 <= s < shardSize ==>
        shardToSlaves[s] == old(shardToSlaves[s]) + (if slave.HasShard(isShardInMask, s) then [slave] else [])
      ensures shutdownRequested == (old(shutdownRequested) || Mismatch(info, reply))
      ensures meshRequested == old(meshRequested)
    {
      slave := new SlaveConnection(info.id, info.shardMaskList);
      CheckPingReply(info, reply);
      RegisterSlave(slave);
    }

    /**
     * The loop of `__connectToSlaves` over the slave information list: for
     * each slave in order, open a connection, check the ping reply, and
     * register the slave, even after a mismatch, since the check does not
     * return early.  After a mismatch has called `shutdown()`, the next
     * connection attempt never resumes, so no later slave is registered.  A
     * slave with no masks stops the loop with the earlier slaves registered.
     */
    method ConnectAll(infos: seq<SlaveInfo>, pingReply: SlaveInfo -> PingReply)
      returns (connected: seq<SlaveConnection>, r: Result<(), InitError>)
      requires Valid()
      modifies this, shardToSlaves
      ensures Valid()
      ensures meshRequested == old(meshRequested)
      ensures forall c :: c in connected ==> fresh(c)
      ensures |connected| <= |infos|
      ensures r.Ok? <==> |connected| == |infos|
      ensures r.Err? ==> r.error in {Halted, EmptyShardMaskList}
      ensures r == Err(Halted) ==> shutdownRequested
      ensures r == Err(EmptyShardMaskList) ==> infos[|connected|].shardMaskList == [] && !shutdownRequested
      ensures |connected| > 0 ==> !old(shutdownRequested) && !AnyMismatch(infos, pingReply, |connected| - 1)
      ensures forall i :: 0 <= i < |connected| ==> ConnectionFor(connected[i], infos[i])
      ensures slavePool == old(slavePool) + (set c | c in connected)
      ensures Extends(shardToSlaves[..], old(shardToSlaves[..]), connected, isShardInMask)
      ensures shutdownRequested <==> (old(shutdownRequested) || AnyMismatch(infos, pingReply, |connected|))
    {
      ghost var table0 := shardToSlaves[..];
      connected := [];
      for i := 0 to |infos|
        invariant Valid()
        invariant meshRequested == old(meshRequested)
        invariant |connected| == i
        invariant forall c :: c in connected ==> fresh(c)
        invariant forall j :: 0 <= j < i ==> ConnectionFor(connected[j], infos[j])
        invariant slavePool == old(slavePool) + (set c | c in connected)
        invariant Extends(shardToSlaves[..], table0, connected, isShardInMask)
        invariant shutdownRequested <==> (old(shutdownRequested) || AnyMismatch(infos, pingReply, i))
        invariant i > 0 ==> !old(shutdownRequested) && !AnyMismatch(infos, pingReply, i - 1)
      {
        var info := infos[i];
        if shutdownRequested {
          // `await self.__connect(...)` waits on the network and the stopped loop never resumes it
          return connected, Err(Halted);
        }
        if |info.shardMaskList| == 0 {
          return connected, Err(EmptyShardMaskList);
        }
        ghost var before := shardToSlaves[..];
        var slave := ConnectSlave(info, pingReply(info));
        ExtendsStep(table0, before, shardToSlaves[..], connected, slave, isShardInMask);
        CoveringAppend(connected, slave, isShardInMask);
        AnyMismatchStep(infos, pingReply, i);
        connected := connected + [slave];
      }
      r := Ok(());
    }

    /** `__connectToSlaves`: read the slave information list, then connect to each slave. */
    method ConnectToSlaves(config: ClusterConfig, parseIp: string -> Option<nat>, pingReply: SlaveInfo -> PingReply)
      returns (connected: seq<SlaveConnection>, r: Result<(), InitError>)
      requires Valid()
      modifies this, shardToSlaves
      ensures Valid()
      ensures meshRequested == old(meshRequested)
      ensures SlaveInfoList(config, parseIp).Err? ==>
        r == Err(BadSlaveIp) && connected == [] && unchanged(this) && unchanged(shardToSlaves)
      ensures SlaveInfoList(config, parseIp).Ok? ==>
        var infos := SlaveInfoList(config, parseIp).value;
        && |connected| <= |infos|
        && (r.Ok? <==> |connected| == |infos|)
        && (r.Err? ==> r.error in {Halted, EmptyShardMaskList})
        && (r == Err(Halted) ==> shutdownRequested)
        && (r == Err(EmptyShardMaskList) ==> infos[|connected|].shardMaskList == [] && !shutdownRequested)
        && (|connected| > 0 ==> !old(shutdownRequested) && !AnyMismatch(infos, pingReply, |connected| - 1))
        && (forall i :: 0 <= i < |connected| ==> ConnectionFor(connected[i], infos[i]))
        && slavePool == old(slavePool) + (set c | c in connected)
        && Extends(shardToSlaves[..], old(shardToSlaves[..]), connected, isShardInMask)
        && (shutdownRequested <==> (old(shutdownRequested) || AnyMismatch(infos, pingReply, |connected|)))
    {
      var infoList := GetSlaveInfoList(config, parseIp);
      if infoList.Err? {
        return [], Err(infoList.error);
      }
      connected, r := ConnectAll(infoList.value, pingReply);
    }

    /**
     * `__setupSlaveToSlaveConnections`: every pooled slave, in the set's
     * iteration order, is sent the configured slave list, which is read again
     * for each slave.  A failed verdict calls `shutdown()`, after which the
     * next slave's wait never resumes; a reply of the wrong length raises.
     */
    method SetupSlaveToSlaveConnections(config: ClusterConfig, parseIp: string -> Option<nat>,
                                        meshReply: (SlaveConnection, seq<SlaveInfo>) -> seq<string>)
      returns (r: Result<(), InitError>)
      requires Valid()
      modifies this
      ensures Valid()
      ensures slavePool == old(slavePool)
      ensures slavePool == {} ==> r == Ok(()) && unchanged(this)
      ensures slavePool != {} && old(shutdownRequested) ==> r == Err(Halted) && unchanged(this)
      ensures slavePool != {} && !old(shutdownRequested) && SlaveInfoList(config, parseIp).Err? ==>
        r == Err(BadSlaveIp) && unchanged(this)
      ensures SlaveInfoList(config, parseIp).Ok? ==>
        var infos := SlaveInfoList(config, parseIp).value;
        && old(meshRequested) <= meshRequested <= old(meshRequested) + slavePool
        && (r.Err? ==> r.error in {Halted, ReplyLengthMismatch})
        && (r == Err(ReplyLengthMismatch) ==> exists c :: c in slavePool && MeshVerdict(c, infos, meshReply).Err?)
        && (r == Err(Halted) ==> shutdownRequested)
        && (shutdownRequested ==> old(shutdownRequested) || AnyFalseVerdict(slavePool, infos, meshReply))
        && (r.Ok? ==> meshRequested == old(meshRequested) + slavePool)
        && (r.Ok? ==> forall c :: c in slavePool ==> MeshVerdict(c, infos, meshReply).Ok?)
        && (r.Ok? ==> AtMostOneFalseVerdict(slavePool, infos, meshReply))
        && (r.Ok? ==> (shutdownRequested <==> old(shutdownRequested) || AnyFalseVerdict(slavePool, infos, meshReply)))
        && ((!old(shutdownRequested) && forall c :: c in slavePool ==> MeshVerdict(c, infos, meshReply) == Ok(true)) ==>
              r == Ok(()) && !shutdownRequested)
    {
      ghost var parsed := SlaveInfoList(config, parseIp);
      var todo := slavePool;
      ghost var done: set<SlaveConnection> := {};
      while todo != {}
        invariant todo <= slavePool == old(slavePool)
        invariant done == slavePool - todo
        invariant todo == slavePool ==> unchanged(this)
        invariant todo != slavePool ==> !old(shutdownRequested) && parsed.Ok?
        invariant parsed.Ok? ==>
          MeshProgress(done, parsed.value, meshReply, old(shutdownRequested), shutdownRequested)
        invariant meshRequested == old(meshRequested) + done
        decreases todo
      {
        var slave :| slave in todo;
        if shutdownRequested {
          // `await slave.waitUntilActive()` never resumes once the loop has stopped
          return Err(Halted);
        }
        var infoList := GetSlaveInfoList(config, parseIp);
        if infoList.Err? {
          return Err(infoList.error);
        }
        var infos := infoList.value;
        meshRequested := meshRequested + {slave};
        var verdict := ConnectToSlavesVerdict(meshReply(slave, infos), infos);
        if verdict.Err? {
          return Err(verdict.error);
        }
        MeshProgressStep(done, slave, infos, meshReply, old(shutdownRequested));
        if !verdict.value {
          shutdownRequested := true;
        }
        todo := todo - {slave};
        done := done + {slave};
      }
      r := Ok(());
    }

    /**
     * `__initCluster`: connect to the slaves; when some shard has no slave,
     * stop before the mesh phase; otherwise run it.  Once `shutdown()` has been
     * called the task halts at its next network wait, so no mesh request
     * follows a failed ping check.
     */
    method InitCluster(config: ClusterConfig, parseIp: string -> Option<nat>, pingReply: SlaveInfo -> PingReply,
                       meshReply: (SlaveConnection, seq<SlaveInfo>) -> seq<string>)
      returns (r: Result<InitOutcome, InitError>)
      requires Valid()
      modifies this, shardToSlaves
      ensures Valid()
      ensures r.Ok? ==> (r.value == MissingShards <==> !HasAllShards())
      ensures r == Ok(MissingShards) ==> meshRequested == old(meshRequested)
      ensures !HasAllShards() ==> meshRequested == old(meshRequested)
      ensures r == Err(BadSlaveIp) || r == Err(EmptyShardMaskList) ==> meshRequested == old(meshRequested)
      ensures r == Ok(MeshRequested) ==> meshRequested == old(meshRequested) + slavePool
      ensures r == Err(Halted) ==> shutdownRequested
      ensures old(shutdownRequested) ==> meshRequested == old(meshRequested)
      ensures SlaveInfoList(config, parseIp).Ok? ==>
        var infos := SlaveInfoList(config, parseIp).value;
        AnyMismatch(infos, pingReply, |infos|) ==> meshRequested == old(meshRequested)
    {
      var connected, connectResult := ConnectToSlaves(config, parseIp, pingReply);
      if connectResult.Err? {
        return Err(connectResult.error);
      }
      if !HasAllShards() {
        return Ok(MissingShards);
      }
      var setup := SetupSlaveToSlaveConnections(config, parseIp, meshReply);
      if setup.Err? {
        return Err(setup.error);
      }
      r := Ok(MeshRequested);
    }
  }
}
