/**
 * The overlay manager's peer collections as values: the pending list, the
 * authenticated map keyed by node id, and the operations that move peers
 * between them, stated as functions of the old collections.
 */
module PeerSets {
  import opened Wrappers

  /**
   * A node id. NodeID is a public key, and the authenticated map iterates in its
   * order; the model stands for it by a number ordered the same way.
   */
  type NodeID = nat

  /** The node id of a peer whose handshake has not told it yet (a zero key). */
  const UNSET_NODE_ID: NodeID := 0

  /** A remote address: what Peer::toString and PeerRecord::toString render as "ip:port". */
  datatype Address = Address(ip: string, port: nat)

  /**
   * A connected peer. Object identity stands for Peer::pointer identity. The
   * handshake that sets the node id and the authenticated flag happens outside
   * this model, so no operation here changes them.
   */
  class Peer {
    const ip: string
    const port: nat
    const peerID: NodeID
    const authenticated: bool

    constructor (ip: string, port: nat, peerID: NodeID, authenticated: bool)
      ensures this.ip == ip && this.port == port
      ensures this.peerID == peerID && this.authenticated == authenticated
    {
      this.ip, this.port := ip, port;
      this.peerID, this.authenticated := peerID, authenticated;
    }
  }

  /** A peer as stored in the peer database: its address and when it may next be tried. */
  datatype PeerRecord = PeerRecord(ip: string, port: nat, nextAttempt: int)

  /**
   * The configuration the operations read: MAX_PENDING_CONNECTIONS,
   * MAX_PEER_CONNECTIONS, TARGET_PEER_CONNECTIONS, PREFERRED_PEERS_ONLY, the
   * normalised PREFERRED_PEERS (mPreferredPeers) and the node ids whose psrKey
   * text is listed in PREFERRED_PEER_KEYS.
   */
  datatype Config = Config(
    maxPendingConnections: nat,
    maxPeerConnections: nat,
    targetPeerConnections: nat,
    preferredPeersOnly: bool,
    preferredPeers: set<Address>,
    preferredPeerKeys: set<NodeID>)

  /** mPendingPeers and mAuthenticatedPeers. */
  datatype Peers = Peers(pending: seq<Peer>, authenticated: map<NodeID, Peer>)

  /** OverlayManagerImpl::isPreferred: a preferred address, or an authenticated peer with a preferred key. */
  predicate IsPreferred(config: Config, peer: Peer)
  {
    Address(peer.ip, peer.port) in config.preferredPeers
    || (peer.authenticated && peer.peerID in config.preferredPeerKeys)
  }

  /** Every authenticated peer is stored under its own node id. */
  predicate KeyedByID(authenticated: map<NodeID, Peer>)
  {
    forall k :: k in authenticated ==> authenticated[k].peerID == k
  }

  /** No peer is pending twice, and no pending peer is also authenticated. */
  predicate Disjoint(st: Peers)
  {
    && (forall i, j :: 0 <= i < j < |st.pending| ==> st.pending[i] != st.pending[j])
    && (forall i :: 0 <= i < |st.pending| ==> st.pending[i] !in st.authenticated.Values)
  }

  // ---------------------------------------------------------------- searching

  /** The position of the first pending entry that is `peer` (std::find by pointer). */
  function FindPeer(s: seq<Peer>, peer: Peer): (r: Option<nat>)
    ensures r.None? <==> peer !in s
    ensures r.Some? ==> r.value < |s| && s[r.value] == peer && peer !in s[..r.value]
  {
    if s == [] then None
    else if s[0] == peer then Some(0)
    else
      match FindPeer(s[1..], peer)
      case None => None
      case Some(i) => assert s[1..][..i] == s[1..i + 1]; Some(i + 1)
  }

  /** `s` without the entry at `i` (vector::erase). */
  function RemoveAt(s: seq<Peer>, i: nat): (r: seq<Peer>)
    requires i < |s|
    ensures |r| == |s| - 1
    ensures multiset(r) == multiset(s) - multiset{s[i]}
    ensures forall j :: 0 <= j < |r| ==> r[j] == (if j < i then s[j] else s[j + 1])
  {
    assert s == s[..i] + [s[i]] + s[i + 1..];
    s[..i] + s[i + 1..]
  }

  /** The least key of a non-empty set of node ids: the first a std::map iteration reaches. */
  function MinKey(s: set<NodeID>): (m: NodeID)
    requires s != {}
    ensures m in s && forall x :: x in s ==> m <= x
  {
    MinKeyExists(s);
    var m :| m in s && forall x :: x in s ==> m <= x;
    m
  }

  lemma MinKeyExists(s: set<NodeID>)
    requires s != {}
    ensures exists m :: m in s && forall x :: x in s ==> m <= x
  {
    var y :| y in s;
    LeastAtMost(s, y);
  }

  /** Some element of `s` no larger than `y` is below every element of `s`. */
  lemma LeastAtMost(s: set<NodeID>, y: NodeID)
    requires y in s
    ensures exists m :: m in s && forall x :: x in s ==> m <= x
    decreases y
  {
    if exists z :: z in s && z < y {
      var z :| z in s && z < y;
      LeastAtMost(s, z);
    } else {
      assert forall x :: x in s ==> y <= x;
    }
  }

  /** Whether `peer` is connected at this address (getIP and getRemoteListeningPort). */
  predicate AtAddress(peer: Peer, ip: string, port: nat)
  {
    peer.ip == ip && peer.port == port
  }

  /** The position of the first pending peer at this address (std::find_if). */
  function FindAtAddress(s: seq<Peer>, ip: string, port: nat): (r: Option<nat>)
    ensures r.None? <==> forall i :: 0 <= i < |s| ==> !AtAddress(s[i], ip, port)
    ensures r.Some? ==>
      && r.value < |s| && AtAddress(s[r.value], ip, port)
      && forall i :: 0 <= i < r.value ==> !AtAddress(s[i], ip, port)
  {
    if s == [] then None
    else if AtAddress(s[0], ip, port) then Some(0)
    else
      match FindAtAddress(s[1..], ip, port)
      case None => None
      case Some(i) => Some(i + 1)
  }

  /**
   * getConnectedPeer: the first pending peer at the address if there is one,
   * otherwise the authenticated peer at the address met first in node-id order,
   * otherwise none (a null pointer).
   */
  function ConnectedPeer(st: Peers, ip: string, port: nat): Option<Peer>
  {
    match FindAtAddress(st.pending, ip, port)
    case Some(i) => Some(st.pending[i])
    case None =>
      var matching := set k | k in st.authenticated && AtAddress(st.authenticated[k], ip, port);
      if matching == {} then None else Some(st.authenticated[MinKey(matching)])
  }

  /**
   * getConnectedPeer finds a peer at the address, preferring a pending one,
   * and finds none exactly when no peer in either collection is there.
   */
  lemma ConnectedPeerCases(st: Peers, ip: string, port: nat)
    ensures var r := ConnectedPeer(st, ip, port);
      && (r.Some? ==> AtAddress(r.value, ip, port))
      && (r.Some? ==> r.value in st.pending || r.value in st.authenticated.Values)
      && ((exists i :: 0 <= i < |st.pending| && AtAddress(st.pending[i], ip, port)) ==>
            r.Some? && r.value in st.pending)
      && (r.None? <==>
            (forall i :: 0 <= i < |st.pending| ==> !AtAddress(st.pending[i], ip, port))
            && (forall k :: k in st.authenticated ==> !AtAddress(st.authenticated[k], ip, port)))
  {
    match FindAtAddress(st.pending, ip, port)
    case Some(i) =>
    case None =>
      var matching := set k | k in st.authenticated && AtAddress(st.authenticated[k], ip, port);
      assert forall k :: k in st.authenticated && AtAddress(st.authenticated[k], ip, port) ==> k in matching;
      if matching != {} {
        assert MinKey(matching) in matching;
      }
  }

  // ------------------------------------------------------- moving peers around

  /**
   * dropPeer: erase the peer's pending entry if it has one; otherwise erase
   * whatever the authenticated map holds under the peer's node id.
   */
  function DroppedPeer(st: Peers, peer: Peer): Peers
  {
    match FindPeer(st.pending, peer)
    case Some(i) => Peers(RemoveAt(st.pending, i), st.authenticated)
    case None => Peers(st.pending, st.authenticated - {peer.peerID})
  }

  /** moveToAuthenticated: the new collections and the returned flag. */
  function MovedToAuthenticated(st: Peers, peer: Peer): (Peers, bool)
  {
    match FindPeer(st.pending, peer)
    case None => (st, false)
    case Some(i) =>
      if peer.peerID in st.authenticated then (st, false)
      else (Peers(RemoveAt(st.pending, i), st.authenticated[peer.peerID := peer]), true)
  }

  /** The victim of a preferred peer's eviction: the first non-preferred authenticated peer in node-id order. */
  function FirstNonPreferred(config: Config, authenticated: map<NodeID, Peer>): (r: Option<NodeID>)
    ensures r.Some? ==> r.value in authenticated && !IsPreferred(config, authenticated[r.value])
    ensures r.Some? ==> forall k :: k in authenticated && k < r.value ==> IsPreferred(config, authenticated[k])
    ensures r.None? <==> forall k :: k in authenticated ==> IsPreferred(config, authenticated[k])
  {
    var candidates := set k | k in authenticated && !IsPreferred(config, authenticated[k]);
    assert forall k :: k in authenticated && !IsPreferred(config, authenticated[k]) ==> k in candidates;
    if candidates == {} then None else Some(MinKey(candidates))
  }

  /** acceptAuthenticatedPeer: the new collections and the returned flag. */
  function Accepted(config: Config, st: Peers, peer: Peer): (Peers, bool)
  {
    var preferredOutcome :=
      if !IsPreferred(config, peer) then None
      else if |st.authenticated| < config.maxPeerConnections then Some(MovedToAuthenticated(st, peer))
      else
        match FirstNonPreferred(config, st.authenticated)
        case Some(victim) => Some(MovedToAuthenticated(DroppedPeer(st, st.authenticated[victim]), peer))
        case None => None;
    if preferredOutcome.Some? then preferredOutcome.value
    else if !config.preferredPeersOnly && |st.authenticated| < config.maxPeerConnections then
      MovedToAuthenticated(st, peer)
    else (st, false)
  }

  // ------------------------------------------------------------------ lemmas

  /** A peer in neither collection is dropped without effect; a listed one leaves exactly one entry. */
  lemma DropPeerEffect(st: Peers, peer: Peer)
    ensures var st' := DroppedPeer(st, peer);
      && (peer !in st.pending && peer.peerID !in st.authenticated ==> st' == st)
      && (peer in st.pending ==>
            st'.authenticated == st.authenticated && multiset(st'.pending) == multiset(st.pending) - multiset{peer})
      && (peer in st.pending ==>
            exists i :: 0 <= i < |st.pending| && st.pending[i] == peer && peer !in st.pending[..i]
              && st'.pending == st.pending[..i] + st.pending[i + 1..])
      && (peer !in st.pending ==>
            st'.pending == st.pending && st'.authenticated == st.authenticated - {peer.peerID})
  {
    if peer in st.pending {
      var i := FindPeer(st.pending, peer).value;
      assert DroppedPeer(st, peer).pending == st.pending[..i] + st.pending[i + 1..];
    }
  }

  /**
   * moveToAuthenticated fails, changing nothing, exactly when the peer is not
   * pending or its id is already authenticated; otherwise one pending entry
   * becomes the authenticated entry under the peer's id.
   */
  lemma MoveToAuthenticatedEffect(st: Peers, peer: Peer)
    ensures var (st', moved) := MovedToAuthenticated(st, peer);
      && (moved <==> peer in st.pending && peer.peerID !in st.authenticated)
      && (!moved ==> st' == st)
      && (moved ==>
            && |st'.pending| == |st.pending| - 1
            && multiset(st'.pending) == multiset(st.pending) - multiset{peer}
            && (exists i :: 0 <= i < |st.pending| && st.pending[i] == peer && peer !in st.pending[..i]
                  && st'.pending == st.pending[..i] + st.pending[i + 1..])
            && st'.authenticated == st.authenticated[peer.peerID := peer]
            && |st'.authenticated| == |st.authenticated| + 1)
  {
    if MovedToAuthenticated(st, peer).1 {
      var i := FindPeer(st.pending, peer).value;
      assert MovedToAuthenticated(st, peer).0.pending == st.pending[..i] + st.pending[i + 1..];
    }
  }

  /** Removing one entry of a list without repeats leaves a list without repeats, missing that entry. */
  lemma RemoveAtKeepsDistinct(s: seq<Peer>, i: nat)
    requires i < |s|
    requires forall a, b :: 0 <= a < b < |s| ==> s[a] != s[b]
    ensures var r := RemoveAt(s, i);
      (forall a, b :: 0 <= a < b < |r| ==> r[a] != r[b]) && s[i] !in r
      && forall x :: x in r ==> x in s
  {
    var r := RemoveAt(s, i);
    assert r == s[..i] + s[i + 1..];
    forall a, b | 0 <= a < b < |r| ensures r[a] != r[b] {
      var a' := if a < i then a else a + 1;
      var b' := if b < i then b else b + 1;
      assert r[a] == s[a'] && r[b] == s[b'];
    }
    forall x | x in r ensures x in s && x != s[i] {
      var j :| 0 <= j < |r| && r[j] == x;
      var j' := if j < i then j else j + 1;
      assert r[j] == s[j'];
    }
  }

  /** moveToAuthenticated keeps the collections well formed. */
  lemma MoveKeepsWellFormed(st: Peers, peer: Peer)
    requires KeyedByID(st.authenticated) && Disjoint(st)
    ensures var st' := MovedToAuthenticated(st, peer).0;
      KeyedByID(st'.authenticated) && Disjoint(st')
  {
    match FindPeer(st.pending, peer)
    case None =>
    case Some(i) =>
      if peer.peerID !in st.authenticated {
        RemoveAtKeepsDistinct(st.pending, i);
        var st' := MovedToAuthenticated(st, peer).0;
        forall j | 0 <= j < |st'.pending| ensures st'.pending[j] !in st'.authenticated.Values {
          var p := st'.pending[j];
          assert p in st'.pending;
          assert p in st.pending && p != peer;
        }
      }
  }

  /** Dropping an authenticated peer keeps the collections well formed. */
  lemma DropKeepsWellFormed(st: Peers, peer: Peer)
    requires KeyedByID(st.authenticated) && Disjoint(st)
    ensures var st' := DroppedPeer(st, peer);
      KeyedByID(st'.authenticated) && Disjoint(st')
  {
    match FindPeer(st.pending, peer)
    case None =>
      var st' := DroppedPeer(st, peer);
      assert st'.authenticated.Values <= st.authenticated.Values;
    case Some(i) =>
      RemoveAtKeepsDistinct(st.pending, i);
  }

  /**
   * The authenticated-peer bound is kept by acceptAuthenticatedPeer: with well
   * formed collections and at most MAX_PEER_CONNECTIONS authenticated peers
   * before, both still hold after.
   */
  lemma AcceptKeepsCapacity(config: Config, st: Peers, peer: Peer)
    requires KeyedByID(st.authenticated) && Disjoint(st)
    requires |st.authenticated| <= config.maxPeerConnections
    ensures var st' := Accepted(config, st, peer).0;
      KeyedByID(st'.authenticated) && Disjoint(st')
      && |st'.authenticated| <= config.maxPeerConnections
  {
    var victim := FirstNonPreferred(config, st.authenticated);
    if IsPreferred(config, peer) && |st.authenticated| >= config.maxPeerConnections && victim.Some? {
      EvictionKeepsCapacity(config, st, peer, victim.value);
    } else {
      MoveToAuthenticatedEffect(st, peer);
      MoveKeepsWellFormed(st, peer);
    }
  }

  /** The eviction case of AcceptKeepsCapacity: dropping the victim makes room for the move. */
  lemma EvictionKeepsCapacity(config: Config, st: Peers, peer: Peer, victim: NodeID)
    requires KeyedByID(st.authenticated) && Disjoint(st)
    requires |st.authenticated| <= config.maxPeerConnections
    requires victim in st.authenticated
    ensures var st' := MovedToAuthenticated(DroppedPeer(st, st.authenticated[victim]), peer).0;
      KeyedByID(st'.authenticated) && Disjoint(st')
      && |st'.authenticated| <= config.maxPeerConnections
  {
    var v := st.authenticated[victim];
    assert v in st.authenticated.Values;
    assert v !in st.pending;
    var dropped := DroppedPeer(st, v);
    assert dropped.authenticated == st.authenticated - {victim};
    DropKeepsWellFormed(st, v);
    MoveToAuthenticatedEffect(dropped, peer);
    MoveKeepsWellFormed(dropped, peer);
  }

  /**
   * A preferred peer arriving at capacity evicts exactly the first non-preferred
   * authenticated peer, and then is moved in as moveToAuthenticated decides.
   */
  lemma AcceptEvictsOneNonPreferred(config: Config, st: Peers, peer: Peer, victim: NodeID)
    requires KeyedByID(st.authenticated) && Disjoint(st)
    requires IsPreferred(config, peer) && |st.authenticated| >= config.maxPeerConnections
    requires FirstNonPreferred(config, st.authenticated) == Some(victim)
    ensures victim in st.authenticated && !IsPreferred(config, st.authenticated[victim])
    ensures Accepted(config, st, peer) ==
      MovedToAuthenticated(Peers(st.pending, st.authenticated - {victim}), peer)
  {
    var v := st.authenticated[victim];
    assert v in st.authenticated.Values;
    assert v !in st.pending;
  }

  /** A preferred peer arriving at capacity when every authenticated peer is preferred evicts no one and is refused. */
  lemma AcceptAllPreferredRefuses(config: Config, st: Peers, peer: Peer)
    requires |st.authenticated| >= config.maxPeerConnections
    requires forall k :: k in st.authenticated ==> IsPreferred(config, st.authenticated[k])
    ensures Accepted(config, st, peer) == (st, false)
  {
  }

  /**
   * A non-preferred peer is accepted only when PREFERRED_PEERS_ONLY is off and
   * there is room, and then exactly as moveToAuthenticated decides.
   */
  lemma AcceptNonPreferred(config: Config, st: Peers, peer: Peer)
    requires !IsPreferred(config, peer)
    ensures Accepted(config, st, peer).1 ==>
      !config.preferredPeersOnly && |st.authenticated| < config.maxPeerConnections
    ensures !config.preferredPeersOnly && |st.authenticated| < config.maxPeerConnections ==>
      Accepted(config, st, peer) == MovedToAuthenticated(st, peer)
    ensures !(!config.preferredPeersOnly && |st.authenticated| < config.maxPeerConnections) ==>
      Accepted(config, st, peer) == (st, false)
  {
  }

  // -------------------------------------------------- ordering by preference

  /** The entries `x` of `s` with `f(x) == keep`, in their order. */
  function Filter<T>(s: seq<T>, f: T -> bool, keep: bool): (r: seq<T>)
    ensures |r| <= |s|
    ensures forall x :: x in r ==> x in s && f(x) == keep
  {
    if s == [] then []
    else (if f(s[0]) == keep then [s[0]] else []) + Filter(s[1..], f, keep)
  }

  /** std::stable_partition: the entries satisfying `f`, then the others, each in their order. */
  function StablePartition<T>(s: seq<T>, f: T -> bool): seq<T>
  {
    Filter(s, f, true) + Filter(s, f, false)
  }

  lemma {:induction false} FilterAppend<T>(a: seq<T>, b: seq<T>, f: T -> bool, keep: bool)
    ensures Filter(a + b, f, keep) == Filter(a, f, keep) + Filter(b, f, keep)
  {
    if a == [] {
      assert a + b == b;
    } else {
      assert (a + b)[1..] == a[1..] + b;
      FilterAppend(a[1..], b, f, keep);
    }
  }

  lemma {:induction false} FilterOfFilter<T>(s: seq<T>, f: T -> bool, keep: bool, keep': bool)
    ensures Filter(Filter(s, f, keep), f, keep') == if keep == keep' then Filter(s, f, keep) else []
  {
    if s != [] {
      var head := if f(s[0]) == keep then [s[0]] else [];
      FilterAppend(head, Filter(s[1..], f, keep), f, keep');
      FilterOfFilter(s[1..], f, keep, keep');
      if head != [] {
        assert head[1..] == [];
      }
    }
  }

  lemma {:induction false} PartitionIsPermutation<T>(s: seq<T>, f: T -> bool)
    ensures multiset(Filter(s, f, true)) + multiset(Filter(s, f, false)) == multiset(s)
  {
    if s != [] {
      var kept, dropped := Filter(s[1..], f, true), Filter(s[1..], f, false);
      PartitionIsPermutation(s[1..], f);
      assert multiset(s) == multiset{s[0]} + multiset(s[1..]) by {
        assert s == [s[0]] + s[1..];
      }
      if f(s[0]) {
        assert multiset(Filter(s, f, true)) == multiset{s[0]} + multiset(kept) by {
          assert Filter(s, f, true) == [s[0]] + kept;
        }
        assert Filter(s, f, false) == dropped;
      } else {
        assert multiset(Filter(s, f, false)) == multiset{s[0]} + multiset(dropped) by {
          assert Filter(s, f, false) == [s[0]] + dropped;
        }
        assert Filter(s, f, true) == kept;
      }
    }
  }

  /** Whether a stored peer's address is a preferred one (the isPreferredPredicate of orderByPreferredPeers). */
  predicate RecordIsPreferred(config: Config, record: PeerRecord)
  {
    Address(record.ip, record.port) in config.preferredPeers
  }

  /** orderByPreferredPeers */
  function OrderByPreferredPeers(config: Config, peers: seq<PeerRecord>): seq<PeerRecord>
  {
    StablePartition(peers, r => RecordIsPreferred(config, r))
  }

  /**
   * orderByPreferredPeers gives a permutation of its input with every preferred
   * record before every other, each group in its original order.
   */
  lemma OrderByPreferredPeersIsStablePartition(config: Config, peers: seq<PeerRecord>)
    ensures var r := OrderByPreferredPeers(config, peers);
      var pref := (x: PeerRecord) => RecordIsPreferred(config, x);
      && multiset(r) == multiset(peers)
      && (forall i, j :: 0 <= i < j < |r| && RecordIsPreferred(config, r[j]) ==> RecordIsPreferred(config, r[i]))
      && Filter(r, pref, true) == Filter(peers, pref, true)
      && Filter(r, pref, false) == Filter(peers, pref, false)
  {
    var pref := (x: PeerRecord) => RecordIsPreferred(config, x);
    var a, b := Filter(peers, pref, true), Filter(peers, pref, false);
    var r := OrderByPreferredPeers(config, peers);
    assert r == a + b;
    PartitionIsPermutation(peers, pref);
    forall i | 0 <= i < |a| ensures RecordIsPreferred(config, r[i]) {
      assert r[i] == a[i] && a[i] in a;
    }
    forall j | |a| <= j < |r| ensures !RecordIsPreferred(config, r[j]) {
      assert r[j] == b[j - |a|] && b[j - |a|] in b;
    }
    FilterAppend(a, b, pref, true);
    FilterAppend(a, b, pref, false);
    FilterOfFilter(peers, pref, true, true);
    FilterOfFilter(peers, pref, false, true);
    FilterOfFilter(peers, pref, true, false);
    FilterOfFilter(peers, pref, false, false);
  }
}
