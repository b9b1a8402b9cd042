/**
 * OverlayManagerImpl's bookkeeping of connections: the pending list, the
 * authenticated map and the shutdown flag, updated in place by the methods
 * below and specified by the functions of PeerSets.
 */
module Overlay {
  import opened Wrappers
  import opened Bytes
  import opened PeerSets

  /** A C++ int. */
  newtype Int32 = x: int | -0x8000_0000 <= x < 0x8000_0000

  /** The usual arithmetic conversion of an int to size_t (modulo 2^64). */
  function ToSizeT(x: Int32): int
  {
    if x >= 0 then x as int else x as int + UINT64_MODULUS
  }

  /**
   * The loading callback's answer `peers.size() < max`: `max` is converted to
   * size_t, so a negative bound never stops the loading.
   */
  function KeepLoading(size: nat, max: Int32): (r: bool)
    requires size < UINT64_MODULUS
    ensures 0 <= max ==> (r <==> size < max as int)
    ensures max < 0 && size < UINT64_MODULUS / 2 ==> r
  {
    size < ToSizeT(max)
  }

  /**
   * The peers connectToMorePeers collects from the database's records: each
   * record not already connected is appended to `acc`, and the records stop
   * coming once the callback answers false.
   */
  function LoadCandidates(st: Peers, records: seq<PeerRecord>, acc: seq<PeerRecord>, max: Int32): seq<PeerRecord>
    requires |acc| + |records| < UINT64_MODULUS
    decreases |records|
  {
    if records == [] then acc
    else
      var pr := records[0];
      var acc' := if ConnectedPeer(st, pr.ip, pr.port).None? then acc + [pr] else acc;
      if KeepLoading(|acc'|, max) then LoadCandidates(st, records[1..], acc', max) else acc'
  }

  /**
   * The collected list extends the one so far with offered records that have
   * no peer connected at their address, and never holds more than `max`.
   */
  lemma {:induction false} LoadCandidatesKeepsUnconnected(st: Peers, records: seq<PeerRecord>, acc: seq<PeerRecord>, max: Int32)
    requires |acc| + |records| < UINT64_MODULUS
    ensures var r := LoadCandidates(st, records, acc, max);
      && acc <= r && |r| <= |acc| + |records|
      && (forall x :: x in r[|acc|..] ==> x in records && ConnectedPeer(st, x.ip, x.port).None?)
      && (0 <= max && |acc| < max as int ==> |r| <= max as int)
    decreases |records|
  {
    if records != [] {
      var pr := records[0];
      var acc' := if ConnectedPeer(st, pr.ip, pr.port).None? then acc + [pr] else acc;
      if KeepLoading(|acc'|, max) {
        LoadCandidatesKeepsUnconnected(st, records[1..], acc', max);
        var r := LoadCandidates(st, records[1..], acc', max);
        assert r[|acc|..] == acc'[|acc|..] + r[|acc'|..];
      }
    }
  }

  /** The records of `records` with no peer connected at their address, in their order. */
  function Unconnected(st: Peers, records: seq<PeerRecord>): seq<PeerRecord>
  {
    if records == [] then []
    else
      var head := if ConnectedPeer(st, records[0].ip, records[0].port).None? then [records[0]] else [];
      head + Unconnected(st, records[1..])
  }

  lemma ConcatAssociative<T>(a: seq<T>, b: seq<T>, c: seq<T>)
    ensures (a + b) + c == a + (b + c)
  {
  }

  /** Splitting off the first record of a prefix. */
  lemma UnconnectedPrefix(st: Peers, records: seq<PeerRecord>, n: nat)
    requires 0 < n <= |records|
    ensures Unconnected(st, records[..n]) == Unconnected(st, records[..1]) + Unconnected(st, records[1..][..n - 1])
  {
    assert records[..n][1..] == records[1..][..n - 1];
    assert records[..1][1..] == [];
  }

  /**
   * The loading run over `records` from `acc` ends with `r` after the n-th
   * record: `r` is `acc` followed by the unconnected records among the first
   * `n`, the callback answered true after each earlier record, and unless the
   * records ran out it answered false after the n-th.
   */
  ghost predicate StopsAt(st: Peers, records: seq<PeerRecord>, acc: seq<PeerRecord>, max: Int32, r: seq<PeerRecord>, n: nat)
  {
    && 0 < n <= |records|
    && r == acc + Unconnected(st, records[..n])
    && (n < |records| ==> |r| >= ToSizeT(max))
    && (forall m :: 0 < m < n ==> |acc| + |Unconnected(st, records[..m])| < ToSizeT(max))
  }

  /**
   * The loading callback keeps every unconnected record offered to it, in
   * order, up to the record after which it answers false.
   */
  lemma {:induction false} LoadCandidatesKeepsEveryUnconnected(st: Peers, records: seq<PeerRecord>, acc: seq<PeerRecord>, max: Int32)
    requires records != [] && |acc| + |records| < UINT64_MODULUS
    ensures exists n :: StopsAt(st, records, acc, max, LoadCandidates(st, records, acc, max), n)
    decreases |records|
  {
    var pr := records[0];
    var acc' := if ConnectedPeer(st, pr.ip, pr.port).None? then acc + [pr] else acc;
    var r := LoadCandidates(st, records, acc, max);
    LoadCandidatesStep(st, records, acc, acc', max);
    FirstRecordKept(st, records, acc);
    if !KeepLoading(|acc'|, max) || |records| == 1 {
      assert StopsAt(st, records, acc, max, r, 1);
    } else {
      LoadCandidatesKeepsEveryUnconnected(st, records[1..], acc', max);
      var n' :| StopsAt(st, records[1..], acc', max, r, n');
      StopPointShifts(st, records, acc, acc', max, r, n');
    }
  }

  /** The first record is kept exactly when it is unconnected. */
  lemma FirstRecordKept(st: Peers, records: seq<PeerRecord>, acc: seq<PeerRecord>)
    requires records != []
    ensures (if ConnectedPeer(st, records[0].ip, records[0].port).None? then acc + [records[0]] else acc)
      == acc + Unconnected(st, records[..1])
  {
    assert records[..1][1..] == [];
  }

  /**
   * The step of LoadCandidatesKeepsEveryUnconnected: a stop point `n'` for the
   * records after the first, reached from `acc'`, is the stop point `n' + 1`
   * for all of them, reached from `acc`.
   */
  lemma StopPointShifts(st: Peers, records: seq<PeerRecord>, acc: seq<PeerRecord>, acc': seq<PeerRecord>, max: Int32,
                        r: seq<PeerRecord>, n': nat)
    requires |records| > 1
    requires acc' == acc + Unconnected(st, records[..1]) && |acc'| < ToSizeT(max)
    requires StopsAt(st, records[1..], acc', max, r, n')
    ensures StopsAt(st, records, acc, max, r, n' + 1)
  {
    var n := n' + 1;
    UnconnectedPrefix(st, records, n);
    assert records[1..][..n - 1] == records[1..][..n'];
    var head, tail := Unconnected(st, records[..1]), Unconnected(st, records[1..][..n']);
    ConcatAssociative(acc, head, tail);
    forall m | 0 < m < n
      ensures |acc| + |Unconnected(st, records[..m])| < ToSizeT(max)
    {
      UnconnectedPrefix(st, records, m);
    }
  }

  /** One record offered to the loading callback: kept if unconnected, and then the answer decides whether more come. */
  lemma LoadCandidatesStep(st: Peers, records: seq<PeerRecord>, acc: seq<PeerRecord>, acc': seq<PeerRecord>, max: Int32)
    requires records != [] && |acc| + |records| < UINT64_MODULUS
    requires acc' == if ConnectedPeer(st, records[0].ip, records[0].port).None? then acc + [records[0]] else acc
    ensures LoadCandidates(st, records, acc, max) ==
      if KeepLoading(|acc'|, max) then LoadCandidates(st, records[1..], acc', max) else acc'
  {
  }

  /** A peer initiated by connectTo for one of the first `count` records, one whose next attempt was due. */
  ghost predicate InitiatedFrom(peer: Peer, records: seq<PeerRecord>, count: nat, now: int)
    requires count <= |records|
  {
    && peer.peerID == UNSET_NODE_ID && !peer.authenticated
    && exists m :: 0 <= m < count && records[m].nextAttempt <= now && AtAddress(peer, records[m].ip, records[m].port)
  }

  class OverlayManager {
    const config: Config
    var pending: seq<Peer>
    var authenticated: map<NodeID, Peer>
    var shuttingDown: bool

    ghost predicate Valid()
      reads this
    {
      KeyedByID(authenticated)
    }

    function State(): Peers
      reads this
    {
      Peers(pending, authenticated)
    }

    constructor (config: Config)
      ensures Valid() && this.config == config
      ensures pending == [] && authenticated == map[] && !shuttingDown
    {
      this.config := config;
      pending, authenticated, shuttingDown := [], map[], false;
    }

    /** dropPeer; Peer::drop ends in this call too. */
    method DropPeer(peer: Peer)
      requires Valid()
      modifies this
      ensures Valid() && shuttingDown == old(shuttingDown)
      ensures State() == DroppedPeer(old(State()), peer)
    {
      match FindPeer(pending, peer) {
        case Some(i) =>
          pending := RemoveAt(pending, i);
        case None =>
          if peer.peerID in authenticated {
            authenticated := authenticated - {peer.peerID};
          }
      }
    }

    /** addPendingPeer: refused (and dropped) while shutting down or with MAX_PENDING_CONNECTIONS pending. */
    method AddPendingPeer(peer: Peer)
      requires Valid()
      modifies this
      ensures Valid() && shuttingDown == old(shuttingDown)
      ensures old(shuttingDown) || old(|pending|) >= config.maxPendingConnections ==>
        State() == DroppedPeer(old(State()), peer)
      ensures !(old(shuttingDown) || old(|pending|) >= config.maxPendingConnections) ==>
        pending == old(pending) + [peer] && authenticated == old(authenticated)
      ensures old(|pending|) <= config.maxPendingConnections ==> |pending| <= config.maxPendingConnections
    {
      if shuttingDown || |pending| >= config.maxPendingConnections {
        DropPeer(peer);
        return;
      }
      pending := pending + [peer];
    }

    /** moveToAuthenticated */
    method MoveToAuthenticated(peer: Peer) returns (moved: bool)
      requires Valid()
      modifies this
      ensures Valid() && shuttingDown == old(shuttingDown)
      ensures (State(), moved) == MovedToAuthenticated(old(State()), peer)
    {
      match FindPeer(pending, peer) {
        case None =>
          return false;
        case Some(i) =>
          if peer.peerID in authenticated {
            return false;
          }
          pending := RemoveAt(pending, i);
          authenticated := authenticated[peer.peerID := peer];
          return true;
      }
    }

    /**
     * acceptAuthenticatedPeer: a preferred peer takes a free slot or evicts the
     * first non-preferred authenticated peer; any other peer needs a free slot
     * and PREFERRED_PEERS_ONLY off.
     */
    method AcceptAuthenticatedPeer(peer: Peer) returns (accepted: bool)
      requires Valid()
      modifies this
      ensures Valid() && shuttingDown == old(shuttingDown)
      ensures (State(), accepted) == Accepted(config, old(State()), peer)
    {
      if IsPreferred(config, peer) {
        if |authenticated| < config.maxPeerConnections {
          accepted := MoveToAuthenticated(peer);
          return;
        }
        // the authenticated map in node-id order, looking for a victim
        var remaining := authenticated.Keys;
        while remaining != {}
          invariant remaining <= authenticated.Keys
          invariant forall k :: k in authenticated && k !in remaining ==>
            IsPreferred(config, authenticated[k]) && forall j :: j in remaining ==> k < j
          decreases |remaining|
        {
          var k := MinKey(remaining);
          if !IsPreferred(config, authenticated[k]) {
            assert FirstNonPreferred(config, authenticated) == Some(k);
            DropPeer(authenticated[k]);
            accepted := MoveToAuthenticated(peer);
            return;
          }
          remaining := remaining - {k};
        }
      }
      if !config.preferredPeersOnly && |authenticated| < config.maxPeerConnections {
        accepted := MoveToAuthenticated(peer);
        return;
      }
      accepted := false;
    }

    /**
     * connectTo: unless a peer at the record's address is already connected, a
     * new outbound peer is initiated (its node id not yet known) and offered to
     * addPendingPeer; its rejection drops it, which can only remove an
     * authenticated entry under the unset node id.
     */
    method ConnectTo(record: PeerRecord) returns (ghost initiated: Peer?)
      requires Valid()
      modifies this
      ensures Valid() && shuttingDown == old(shuttingDown)
      ensures old(ConnectedPeer(State(), record.ip, record.port)).Some? ==>
        initiated == null && State() == old(State())
      ensures old(ConnectedPeer(State(), record.ip, record.port)).None? ==>
        && initiated != null && fresh(initiated)
        && AtAddress(initiated, record.ip, record.port)
        && initiated.peerID == UNSET_NODE_ID && !initiated.authenticated
        && (if old(shuttingDown) || old(|pending|) >= config.maxPendingConnections
            then pending == old(pending) && authenticated == old(authenticated) - {UNSET_NODE_ID}
            else pending == old(pending) + [initiated] && authenticated == old(authenticated))
    {
      initiated := null;
      if ConnectedPeer(State(), record.ip, record.port).None? {
        var peer := new Peer(record.ip, record.port, UNSET_NODE_ID, false);
        assert peer !in pending;
        AddPendingPeer(peer);
        initiated := peer;
      }
    }

    /**
     * The loading phase of connectToMorePeers: the database offers `records` in
     * turn to a callback that keeps the ones not connected and asks for more
     * while fewer than `max` are kept.
     */
    method LoadPeers(max: Int32, records: seq<PeerRecord>) returns (peers: seq<PeerRecord>)
      requires |records| < UINT64_MODULUS
      ensures peers == LoadCandidates(State(), records, [], max)
    {
      peers := [];
      ghost var st := State();
      var i := 0;
      var more := true;
      while more && i < |records|
        invariant 0 <= i <= |records| && |peers| <= i
        invariant more ==> LoadCandidates(st, records, [], max) == LoadCandidates(st, records[i..], peers, max)
        invariant !more ==> LoadCandidates(st, records, [], max) == peers
      {
        var pr := records[i];
        ghost var before := peers;
        if ConnectedPeer(State(), pr.ip, pr.port).None? {
          peers := peers + [pr];
        }
        more := KeepLoading(|peers|, max);
        LoadCandidatesStep(st, records[i..], before, peers, max);
        assert records[i..][1..] == records[i + 1..];
        i := i + 1;
      }
    }

    /**
     * connectToMorePeers: collect the offered records that are not connected
     * (LoadPeers), put the preferred ones first, then connect to each whose next
     * attempt is due, stopping once TARGET_PEER_CONNECTIONS peers are
     * authenticated. `records` are the database's best candidates and `now`
     * the clock's time.
     */
    method ConnectToMorePeers(max: Int32, records: seq<PeerRecord>, now: int)
      requires Valid()
      requires |records| < UINT64_MODULUS
      modifies this
      ensures Valid() && shuttingDown == old(shuttingDown)
      ensures old(pending) <= pending
      ensures old(shuttingDown) ==> pending == old(pending)
      ensures forall k :: k in authenticated ==> k in old(authenticated) && authenticated[k] == old(authenticated)[k]
      ensures |pending| <= if old(|pending|) > config.maxPendingConnections then old(|pending|) else config.maxPendingConnections
      ensures var ordered := OrderByPreferredPeers(config, LoadCandidates(old(State()), records, [], max));
        forall n :: old(|pending|) <= n < |pending| ==>
          fresh(pending[n]) && InitiatedFrom(pending[n], ordered, |ordered|, now)
    {
      var peers := LoadPeers(max, records);
      peers := OrderByPreferredPeers(config, peers);

      var j := 0;
      while j < |peers|
        invariant 0 <= j <= |peers|
        invariant Valid() && shuttingDown == old(shuttingDown)
        invariant old(pending) <= pending
        invariant old(shuttingDown) ==> pending == old(pending)
        invariant forall k :: k in authenticated ==> k in old(authenticated) && authenticated[k] == old(authenticated)[k]
        invariant |pending| <= if old(|pending|) > config.maxPendingConnections then old(|pending|) else config.maxPendingConnections
        invariant forall n :: old(|pending|) <= n < |pending| ==>
          fresh(pending[n]) && InitiatedFrom(pending[n], peers, j, now)
      {
        var pr := peers[j];
        if pr.nextAttempt <= now {
          if |authenticated| >= config.targetPeerConnections {
            break;
          }
          ghost var before := pending;
          ghost var initiated := ConnectTo(pr);
          if initiated != null && pending != before {
            assert pending[|pending| - 1] == initiated;
            assert InitiatedFrom(initiated, peers, j + 1, now);
          }
        }
        j := j + 1;
      }
    }

    /**
     * shutdown: the first call marks the manager as shutting down and drops
     * every pending peer, then every authenticated peer in node-id order
     * (each from a copy of its collection); later calls do nothing.
     */
    method Shutdown()
      requires Valid()
      modifies this
      ensures Valid() && shuttingDown
      ensures old(shuttingDown) ==> State() == old(State())
      ensures !old(shuttingDown) ==> pending == [] && authenticated == map[]
    {
      if shuttingDown {
        return;
      }
      shuttingDown := true;
      var pendingToStop := pending;
      var i := 0;
      while i < |pendingToStop|
        invariant 0 <= i <= |pendingToStop|
        invariant Valid() && shuttingDown
        invariant pending == pendingToStop[i..] && authenticated == old(authenticated)
      {
        assert pendingToStop[i..][..0] + pendingToStop[i..][1..] == pendingToStop[i + 1..];
        DropPeer(pendingToStop[i]);
        i := i + 1;
      }
      var authenticatedToStop := authenticated;
      var remaining := authenticatedToStop.Keys;
      while remaining != {}
        invariant Valid() && shuttingDown && pending == []
        invariant KeyedByID(authenticatedToStop) && remaining <= authenticatedToStop.Keys
        invariant authenticated == map k | k in remaining :: authenticatedToStop[k]
        decreases |remaining|
      {
        var k := MinKey(remaining);
        DropPeer(authenticatedToStop[k]);
        remaining := remaining - {k};
        assert authenticated == map k | k in remaining :: authenticatedToStop[k];
      }
      assert authenticated.Keys == {};
    }
  }

  /**
   * Once a running manager is shut down, it refuses every new connection, and
   * shutting down again changes nothing: both collections stay empty.
   */
  method ShutdownRefusesNewPeers(manager: OverlayManager, ip: string, port: nat)
    requires manager.Valid() && !manager.shuttingDown
    modifies manager
    ensures manager.Valid() && manager.shuttingDown
    ensures manager.pending == [] && manager.authenticated == map[]
  {
    manager.Shutdown();
    var peer := new Peer(ip, port, UNSET_NODE_ID, false);
    manager.AddPendingPeer(peer);
    assert manager.State() == DroppedPeer(Peers([], map[]), peer);
    manager.Shutdown();
  }
}
