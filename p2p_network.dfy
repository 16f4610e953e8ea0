/**
 * The connection-management decisions of the P2P network: which active peers
 * to drop and which discovered addresses to dial when the discovery layer
 * reports its peer list, the "lesser address initiates" tie-break, the
 * cluster peer id counter, shutting down the active peers, and the
 * discovery service's list of connected peers.
 *
 * Sockets are not modelled: the methods return the peers to close and the
 * addresses to dial instead of closing or dialing them.
 */
module P2P {
  import opened Wrappers
  import Lex

  type PeerId = seq<int>

  /** A connected peer, as far as connection management looks at it. */
  datatype Peer = Peer(ip: string, port: nat)

  /** The dial target `ip_port.split(':')` yields: host and port text. */
  datatype DialTarget = DialTarget(host: string, port: string)

  datatype RefreshError = SplitError  // `ip, port = ip_port.split(':')` raised ValueError

  // ---------------------------------------------------------------------------
  // Address strings

  function DigitChar(d: nat): (c: char)
    requires d < 10
    ensures '0' <= c <= '9'
  {
    ['0', '1', '2', '3', '4', '5', '6', '7', '8', '9'][d]
  }

  /** Python's decimal formatting of a non-negative integer. */
  function Decimal(n: nat): (s: string)
    ensures |s| > 0 && forall i :: 0 <= i < |s| ==> '0' <= s[i] <= '9'
  {
    if n < 10 then [DigitChar(n)] else Decimal(n / 10) + [DigitChar(n % 10)]
  }

  /** `'{}:{}'.format(ip, port)` */
  function IpPort(ip: string, port: nat): string
  {
    ip + ":" + Decimal(port)
  }

  function PeerAddress(p: Peer): string
  {
    IpPort(p.ip, p.port)
  }

  /** The index of the first ':' at or after `from`, if any. */
  function FindColon(s: string, from: nat): (r: Option<nat>)
    requires from <= |s|
    ensures r.Some? ==>
      && from <= r.value < |s| && s[r.value] == ':'
      && (forall i :: from <= i < r.value ==> s[i] != ':')
    ensures r.None? ==> forall i :: from <= i < |s| ==> s[i] != ':'
    decreases |s| - from
  {
    if from == |s| then None
    else if s[from] == ':' then Some(from)
    else FindColon(s, from + 1)
  }

  /** Position `k` holds the one ':' of `s`. */
  predicate OnlyColonAt(s: string, k: int)
  {
    0 <= k < |s| && s[k] == ':' && forall i :: 0 <= i < |s| && i != k ==> s[i] != ':'
  }

  /** `ip, port = ip_port.split(':')`: defined when the text holds exactly one ':'. */
  function SplitIpPort(s: string): (r: Option<DialTarget>)
    ensures r.Some? <==> exists k :: OnlyColonAt(s, k)
    ensures r.Some? ==> s == r.value.host + ":" + r.value.port
  {
    match FindColon(s, 0)
    case None => None
    case Some(k) =>
      if FindColon(s, k + 1).Some? then None
      else
        assert s == s[..k] + ":" + s[k + 1..];
        assert OnlyColonAt(s, k);
        Some(DialTarget(s[..k], s[k + 1..]))
  }

  /** The code points of a string, the units Python compares strings by. */
  function CodePoints(s: string): (r: seq<int>)
    ensures |r| == |s| && forall i :: 0 <= i < |s| ==> r[i] == s[i] as int
  {
    seq(|s|, i requires 0 <= i < |s| => s[i] as int)
  }

  /** Python's `a < b` on strings. */
  predicate StrLess(a: string, b: string)
  {
    Lex.Less(CodePoints(a), CodePoints(b))
  }

  // ---------------------------------------------------------------------------
  // The decisions of `refreshConnections`

  /** The active peers whose address the discovery list does not hold. */
  function ToDisconnect(pool: map<PeerId, Peer>, peers: seq<string>): set<PeerId>
  {
    set id | id in pool && PeerAddress(pool[id]) !in peers
  }

  function ActiveAddresses(pool: map<PeerId, Peer>): set<string>
  {
    set id | id in pool :: PeerAddress(pool[id])
  }

  /** `set(peers) - set(active)` */
  function ToBeConnected(pool: map<PeerId, Peer>, peers: seq<string>): set<string>
  {
    (set p | p in peers) - ActiveAddresses(pool)
  }

  /** The targets dialed from `candidates`: those above the node's own address that split. */
  function DialTargets(selfIpPort: string, candidates: set<string>): set<DialTarget>
  {
    set x | x in candidates && StrLess(selfIpPort, x) && SplitIpPort(x).Some? :: SplitIpPort(x).value
  }

  // ---------------------------------------------------------------------------
  // getConnectedPeers

  /**
   * A peer's `remote_client_version`: the empty text it starts with, or the
   * bytes its hello announced (bytes never compare equal to the text '').
   */
  datatype ClientVersion = NotReady | Announced(raw: seq<int>)

  datatype DevPeer = DevPeer(isStopped: bool, remoteClientVersion: ClientVersion)

  /** Whether `getConnectedPeers` reports this slot: present, running, and announced. */
  predicate Reported(slot: Option<DevPeer>)
  {
    slot.Some? && !slot.value.isStopped && slot.value.remoteClientVersion.Announced?
  }

  /**
   * `getConnectedPeers`: the decoded versions of the reported peers, in pool
   * order; `None` when a decoding raises.
   */
  function ConnectedPeers(slots: seq<Option<DevPeer>>, decode: seq<int> -> Option<string>): (r: Option<seq<string>>)
    ensures r.Some? <==> forall i :: 0 <= i < |slots| && Reported(slots[i]) ==>
      decode(slots[i].value.remoteClientVersion.raw).Some?
    ensures r.Some? ==> |r.value| <= |slots|
  {
    if slots == [] then Some([])
    else
      var rest := ConnectedPeers(slots[1..], decode);
      assert forall i :: 1 <= i < |slots| ==> slots[i] == slots[1..][i - 1];
      if !Reported(slots[0]) then rest
      else
        var version := decode(slots[0].value.remoteClientVersion.raw);
        if version.None? || rest.None? then None
        else Some([version.value] + rest.value)
  }

  /** The list for a concatenated pool is the concatenation of the lists, so the pool order is kept. */
  lemma {:induction false} ConnectedPeersAppend(a: seq<Option<DevPeer>>, b: seq<Option<DevPeer>>, decode: seq<int> -> Option<string>)
    requires ConnectedPeers(a, decode).Some? && ConnectedPeers(b, decode).Some?
    ensures ConnectedPeers(a + b, decode) == Some(ConnectedPeers(a, decode).value + ConnectedPeers(b, decode).value)
    decreases |a|
  {
    if a == [] {
      assert a + b == b;
      assert ConnectedPeers(a, decode).value + ConnectedPeers(b, decode).value == ConnectedPeers(b, decode).value;
    } else {
      assert (a + b)[0] == a[0] && (a + b)[1..] == a[1..] + b;
      ConnectedPeersAppend(a[1..], b, decode);
      var tail := ConnectedPeers(a[1..], decode).value;
      if Reported(a[0]) {
        var v := decode(a[0].value.remoteClientVersion.raw).value;
        assert ConnectedPeers(a, decode).value == [v] + tail;
        assert ConnectedPeers(a + b, decode).value == [v] + (tail + ConnectedPeers(b, decode).value);
        assert [v] + (tail + ConnectedPeers(b, decode).value) == ([v] + tail) + ConnectedPeers(b, decode).value;
      }
    }
  }

  /** A version is listed exactly when some reported peer announced bytes that decode to it. */
  lemma {:induction false} ConnectedPeersMembership(slots: seq<Option<DevPeer>>, decode: seq<int> -> Option<string>, v: string)
    requires ConnectedPeers(slots, decode).Some?
    ensures v in ConnectedPeers(slots, decode).value <==>
      exists i :: 0 <= i < |slots| && Reported(slots[i]) && decode(slots[i].value.remoteClientVersion.raw) == Some(v)
    decreases |slots|
  {
    if slots != [] {
      ConnectedPeersMembership(slots[1..], decode, v);
      assert forall i :: 1 <= i < |slots| ==> slots[i] == slots[1..][i - 1];
      if v in ConnectedPeers(slots, decode).value && !(v in ConnectedPeers(slots[1..], decode).value) {
        assert Reported(slots[0]) && decode(slots[0].value.remoteClientVersion.raw) == Some(v);
      }
      if exists i :: 0 <= i < |slots| && Reported(slots[i]) && decode(slots[i].value.remoteClientVersion.raw) == Some(v) {
        var i :| 0 <= i < |slots| && Reported(slots[i]) && decode(slots[i].value.remoteClientVersion.raw) == Some(v);
        if i > 0 {
          assert slots[1..][i - 1] == slots[i];
        }
      }
    }
  }

  // ---------------------------------------------------------------------------
  // The network

  class P2PNetwork {
    const ip: string
    const port: nat
    /** peer id -> active peer */
    var activePeerPool: map<PeerId, Peer>
    /** The last cluster peer id handed out; 0 is reserved for the master. */
    var nextClusterPeerId: nat
    /** cluster peer id -> peer */
    var clusterPeerPool: map<nat, Peer>
    /** The cluster peer ids handed out so far. */
    ghost var issued: set<nat>

    /** Every id handed out is positive and no larger than the counter. */
    ghost predicate Valid()
      reads this
    {
      forall id :: id in issued ==> 1 <= id <= nextClusterPeerId
    }

    constructor(ip: string, port: nat)
      ensures Valid() && this.ip == ip && this.port == port
      ensures activePeerPool == map[] && clusterPeerPool == map[]
      ensures nextClusterPeerId == 0 && issued == {}
    {
      this.ip := ip;
      this.port := port;
      activePeerPool := map[];
      nextClusterPeerId := 0;
      clusterPeerPool := map[];
      issued := {};
    }

    function SelfIpPort(): string
    {
      IpPort(ip, port)
    }

    /**
     * `refreshConnections(peers)`: the active peers to close, the addresses
     * to consider, and the targets dialed.  Splitting a considered address
     * that does not hold exactly one ':' raises, after which no further
     * target is dialed; the set is iterated in no particular order.
     */
    method RefreshConnections(peers: seq<string>)
      returns (disconnect: set<PeerId>, toBeConnected: set<string>, dial: set<DialTarget>, r: Result<(), RefreshError>)
      ensures disconnect == ToDisconnect(activePeerPool, peers)
      ensures toBeConnected == ToBeConnected(activePeerPool, peers)
      ensures dial <= DialTargets(SelfIpPort(), toBeConnected)
      ensures r.Ok? <==> forall x :: x in toBeConnected && StrLess(SelfIpPort(), x) ==> SplitIpPort(x).Some?
      ensures r.Ok? ==> dial == DialTargets(SelfIpPort(), toBeConnected)
    {
      // 1. disconnect peers that are not in the discovery list
      disconnect := {};
      var unseen := activePeerPool.Keys;
      while unseen != {}
        invariant unseen <= activePeerPool.Keys
        invariant disconnect == ToDisconnect(activePeerPool, peers) - unseen
        decreases unseen
      {
        var peerId :| peerId in unseen;
        if PeerAddress(activePeerPool[peerId]) !in peers {
          disconnect := disconnect + {peerId};
        }
        unseen := unseen - {peerId};
      }
      // 2. connect to listed peers, initiating only from the lesser address
      var active := set id | id in activePeerPool :: PeerAddress(activePeerPool[id]);
      toBeConnected := (set p | p in peers) - active;
      var selfIpPort := SelfIpPort();
      dial := {};
      var todo := toBeConnected;
      while todo != {}
        invariant todo <= toBeConnected
        invariant forall x :: x in toBeConnected - todo && StrLess(selfIpPort, x) ==> SplitIpPort(x).Some?
        invariant dial == DialTargets(selfIpPort, toBeConnected - todo)
        decreases todo
      {
        var ipPort :| ipPort in todo;
        if StrLess(selfIpPort, ipPort) {
          var target := SplitIpPort(ipPort);
          if target.None? {
            DialTargetsMono(selfIpPort, toBeConnected - todo, toBeConnected);
            return disconnect, toBeConnected, dial, Err(SplitError);
          }
          dial := dial + {target.value};
        }
        assert toBeConnected - (todo - {ipPort}) == (toBeConnected - todo) + {ipPort};
        todo := todo - {ipPort};
      }
      r := Ok(());
    }

    /** `__getNextClusterPeerId`: advance the counter and hand out its new value. */
    method GetNextClusterPeerId() returns (id: nat)
      requires Valid()
      modifies this
      ensures Valid()
      ensures id == old(nextClusterPeerId) + 1 == nextClusterPeerId
      ensures id >= 1 && id !in old(issued) && issued == old(issued) + {id}
      ensures forall x :: x in old(issued) ==> x < id
      ensures activePeerPool == old(activePeerPool) && clusterPeerPool == old(clusterPeerPool)
    {
      nextClusterPeerId := nextClusterPeerId + 1;
      id := nextClusterPeerId;
      issued := issued + {id};
    }

    /** `shutdownPeers`: empty the active pool and close each peer that was in it, once. */
    method ShutdownPeers() returns (closed: seq<PeerId>)
      modifies this
      ensures activePeerPool == map[]
      ensures (set id | id in closed) == old(activePeerPool).Keys
      ensures forall i, j :: 0 <= i < j < |closed| ==> closed[i] != closed[j]
      ensures nextClusterPeerId == old(nextClusterPeerId) && clusterPeerPool == old(clusterPeerPool)
      ensures issued == old(issued)
    {
      var pool := activePeerPool;
      activePeerPool := map[];
      closed := [];
      var todo := pool.Keys;
      while todo != {}
        invariant todo <= pool.Keys
        invariant (set id | id in closed) == pool.Keys - todo
        invariant forall i, j :: 0 <= i < j < |closed| ==> closed[i] != closed[j]
        decreases todo
      {
        var peerId :| peerId in todo;
        assert forall i :: 0 <= i < |closed| ==> closed[i] in pool.Keys - todo;
        assert (set id | id in closed + [peerId]) == (set id | id in closed) + {peerId};
        closed := closed + [peerId];
        todo := todo - {peerId};
      }
    }

    /** `getPeerByClusterPeerId`: the peer registered under the id, or `None`. */
    function GetPeerByClusterPeerId(clusterPeerId: nat): (r: Option<Peer>)
      reads this
      ensures r.Some? <==> clusterPeerId in clusterPeerPool
      ensures r.Some? ==> r.value == clusterPeerPool[clusterPeerId]
    {
      if clusterPeerId in clusterPeerPool then Some(clusterPeerPool[clusterPeerId]) else None
    }
  }

  // ---------------------------------------------------------------------------
  // Lemmas

  lemma DialTargetsMono(selfIpPort: string, a: set<string>, b: set<string>)
    requires a <= b
    ensures DialTargets(selfIpPort, a) <= DialTargets(selfIpPort, b)
  {
  }

  lemma CodePointsInjective(a: string, b: string)
    requires CodePoints(a) == CodePoints(b)
    ensures a == b
  {
    assert |a| == |b|;
    assert forall i :: 0 <= i < |a| ==> a[i] as int == CodePoints(a)[i] == CodePoints(b)[i] == b[i] as int;
  }

  /** The tie-break's order: of two distinct node addresses exactly one is the lesser, and none is less than itself. */
  lemma OneOfTwoIsLesser(a: string, b: string)
    ensures a != b ==> (StrLess(a, b) <==> !StrLess(b, a))
    ensures !StrLess(a, a)
  {
    Lex.Irreflexive(CodePoints(a));
    Lex.Asymmetric(CodePoints(a), CodePoints(b));
    if a != b {
      if CodePoints(a) == CodePoints(b) {
        CodePointsInjective(a, b);
      }
      Lex.Total(CodePoints(a), CodePoints(b));
    }
  }

  /** An active peer that discovery still lists is neither closed nor dialed again. */
  lemma ListedActivePeerKept(pool: map<PeerId, Peer>, peers: seq<string>, id: PeerId)
    requires id in pool && PeerAddress(pool[id]) in peers
    ensures id !in ToDisconnect(pool, peers)
    ensures PeerAddress(pool[id]) !in ToBeConnected(pool, peers)
  {
    assert PeerAddress(pool[id]) in ActiveAddresses(pool);
  }

  /** A dial target is a listed address that no active peer has, above the node's own. */
  lemma DialTargetIsNewListedAndGreater(selfIpPort: string, pool: map<PeerId, Peer>, peers: seq<string>, t: DialTarget)
    requires t in DialTargets(selfIpPort, ToBeConnected(pool, peers))
    ensures var x := t.host + ":" + t.port;
      x in peers && x !in ActiveAddresses(pool) && StrLess(selfIpPort, x)
  {
    var x :| x in ToBeConnected(pool, peers) && StrLess(selfIpPort, x) && SplitIpPort(x).Some? && SplitIpPort(x).value == t;
  }

  /** Conversely, a listed address that no active peer has and that lies above the node's own is dialed. */
  lemma NewListedAndGreaterIsDialed(selfIpPort: string, pool: map<PeerId, Peer>, peers: seq<string>, x: string)
    requires x in peers && x !in ActiveAddresses(pool) && StrLess(selfIpPort, x) && SplitIpPort(x).Some?
    ensures SplitIpPort(x).value in DialTargets(selfIpPort, ToBeConnected(pool, peers))
  {
    assert x in ToBeConnected(pool, peers);
  }

  /**
   * Of two nodes `a` and `b`, at most one dials the other, whatever their pools
   * and discovery lists; and no node dials its own address.  (Neither dials
   * when the lesser already has the greater in its pool.)
   */
  lemma AtMostOneDials(a: string, poolA: map<PeerId, Peer>, peersA: seq<string>, tA: DialTarget,
                       b: string, poolB: map<PeerId, Peer>, peersB: seq<string>, tB: DialTarget)
    requires tA in DialTargets(a, ToBeConnected(poolA, peersA))
    requires tB in DialTargets(b, ToBeConnected(poolB, peersB))
    ensures !(tA.host + ":" + tA.port == b && tB.host + ":" + tB.port == a)
    ensures tA.host + ":" + tA.port != a
  {
    DialTargetIsNewListedAndGreater(a, poolA, peersA, tA);
    DialTargetIsNewListedAndGreater(b, poolB, peersB, tB);
    OneOfTwoIsLesser(a, b);
  }

  /** An address formatted from a host without ':' splits back into the host and the port's digits. */
  lemma SplitIpPortRoundTrip(ip: string, port: nat)
    requires forall i :: 0 <= i < |ip| ==> ip[i] != ':'
    ensures SplitIpPort(IpPort(ip, port)) == Some(DialTarget(ip, Decimal(port)))
  {
    var s := IpPort(ip, port);
    var k := |ip|;
    assert s[k] == ':';
    assert OnlyColonAt(s, k) by {
      forall i | 0 <= i < |s| && i != k ensures s[i] != ':' {
        if i > k {
          assert s[i] == Decimal(port)[i - k - 1];
        }
      }
    }
    var r := SplitIpPort(s);
    var h, p := r.value.host, r.value.port;
    assert s == h + ":" + p;
    assert s[|h|] == ':';
    assert |h| == k;
    assert h == s[..k] == ip;
    assert p == s[k + 1..] == Decimal(port);
  }
}
