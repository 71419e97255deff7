/**
 * The cluster membership model (tribe::PeersModel) and its reducer
 * `update`, which applies one Action to a model and returns the new model.
 * Each peer carries a liveness estimate (probability of being alive, a
 * time-to-live counter and a state Alive / Suspected / Dead) that decays as
 * time passes; expired peers are dropped.
 */
module Membership {
  import opened Ints
  import opened Wrappers
  import opened NodeIdentity
  import opened NetworkAddress

  /** Peer::kCertainlyAlive, kMaybeNotAlive and kCertainlyNotAlive. */
  const CertainlyAlive: real := 0.97
  const MaybeNotAlive: real := 0.65
  const CertainlyNotAlive: real := 0.20

  datatype State = Alive | Suspected | Dead

  /** Peer::Liveness. The probability is modelled as an exact real. */
  datatype Liveness = Liveness(ttl: uint16, probability: real, state: State)

  /** Peer: what this node knows about another member. */
  datatype Peer = Peer(
    generation: uint32,
    address: Address,
    liveness: Liveness,
    comSequance: uint64,
    capacity: uint32,
    peerCount: uint32)

  /** The Peer constructor: a fresh Alive record with zeroed counters. */
  function NewPeer(gen: uint32, rsvpAddress: Address, baseTtl: uint16, aliveness: real): (p: Peer)
    ensures p.generation == gen && p.address == rsvpAddress
    ensures p.liveness == Liveness(baseTtl, aliveness, Alive)
    ensures p.comSequance == 0 && p.capacity == 0 && p.peerCount == 0
  {
    Peer(gen, rsvpAddress, Liveness(baseTtl, aliveness, Alive), 0, 0, 0)
  }

  /** MembershipSettings; the two flags are value-initialised to false. */
  datatype MembershipSettings = MembershipSettings(
    peerInfoDecayTimeMs: uint32,
    peerInfoDecayRate: real,
    ttl: uint16,
    allowedToJoin: bool,
    allowedRedirect: bool,
    maxPeers: uint32,
    samplingRate: uint32)

  const DefaultSettings: MembershipSettings := MembershipSettings(1300, 0.3, 8, false, false, 128, 3)

  /**
   * PeersModel. Seeds are keyed by address, as the reducer treats them
   * (try_emplace and erase by address), each with its connection ttl.
   */
  datatype PeersModel = PeersModel(
    node: NodeInfo,
    params: MembershipSettings,
    seeds: map<Address, uint16>,
    members: map<NodeID, Peer>)

  /** PeersModel{}: value-initialised. */
  const EmptyModel: PeersModel := PeersModel(NodeInfo(NodeID(0), 0), DefaultSettings, map[], map[])

  predicate IsAlive(p: Peer) { p.liveness.state == Alive }
  predicate IsSuspected(p: Peer) { p.liveness.state == Suspected }
  predicate IsDead(p: Peer) { p.liveness.state == Dead }
  predicate IsExpired(p: Peer) { IsDead(p) && p.liveness.ttl == 0 }

  /**
   * isHealthy, which findRedirectAddress consults: an Alive peer whose ttl
   * has not run out.
   */
  predicate IsHealthy(p: Peer) { IsAlive(p) && p.liveness.ttl > 0 }

  /** The ids of suspectedPeers(), deadPeers() and expiredPeers(). */
  function SuspectedPeers(m: PeersModel): (ids: set<NodeID>)
    ensures forall id :: id in ids <==> id in m.members && IsSuspected(m.members[id])
  {
    set id | id in m.members && IsSuspected(m.members[id])
  }

  function DeadPeers(m: PeersModel): (ids: set<NodeID>)
    ensures forall id :: id in ids <==> id in m.members && IsDead(m.members[id])
  {
    set id | id in m.members && IsDead(m.members[id])
  }

  function ExpiredPeers(m: PeersModel): (ids: set<NodeID>)
    ensures forall id :: id in ids <==> id in m.members && IsExpired(m.members[id])
  {
    set id | id in m.members && IsExpired(m.members[id])
  }

  /**
   * The views are ids of members; every expired peer is dead, no peer is
   * both suspected and dead, and a member in neither view is Alive.
   */
  lemma ViewsAgree(m: PeersModel)
    ensures SuspectedPeers(m) + DeadPeers(m) <= m.members.Keys
    ensures ExpiredPeers(m) <= DeadPeers(m)
    ensures SuspectedPeers(m) * DeadPeers(m) == {}
    ensures forall id :: id in m.members.Keys - SuspectedPeers(m) - DeadPeers(m) ==> IsAlive(m.members[id])
  {
  }

  // ---------------------------------------------------------------------
  // Actions
  // ---------------------------------------------------------------------

  datatype Action =
    | AddSeed(seedAddress: Address, seedTtl: uint16)
    | ForgetSeed(forgetAddress: Address)
    | AddPeer(address: Address, nodeInfo: NodeInfo, ttl: uint16)
    | ForgetPeer(peerId: NodeID)
    | UpdatePeerAddress(peer: NodeID, newAddress: Address)
    | UpdatePeerGeneration(peerToUpdate: NodeID, gen: uint32, genTtl: uint16)
    | PronouncePeerDead(deadPeer: NodeID)
    | DecayPeerInfo(ttlDelta: uint16, decayTimeMs: uint32, decayRate: real)

  /** addSeed: record a seed unless one with that address is already known. */
  function InsertSeed(state: PeersModel, address: Address, ttl: uint16): (r: PeersModel)
    ensures r.node == state.node && r.params == state.params && r.members == state.members
    ensures r.seeds.Keys == state.seeds.Keys + {address}
    ensures r.seeds[address] == if address in state.seeds then state.seeds[address] else ttl
    ensures forall a :: a in state.seeds ==> r.seeds[a] == state.seeds[a]
  {
    if address in state.seeds then state else state.(seeds := state.seeds[address := ttl])
  }

  /** dropSeed: forget the seed with that address, if any. */
  function DropSeed(state: PeersModel, address: Address): (r: PeersModel)
    ensures r.node == state.node && r.params == state.params && r.members == state.members
    ensures r.seeds.Keys == state.seeds.Keys - {address}
    ensures forall a :: a in r.seeds ==> r.seeds[a] == state.seeds[a]
  {
    state.(seeds := state.seeds - {address})
  }

  /**
   * addPeer: a new member for an id not yet known, Alive with probability
   * kCertainlyAlive; the node's own id and known ids leave the model as it is.
   */
  function InsertPeer(state: PeersModel, address: Address, info: NodeInfo, ttl: uint16): (r: PeersModel)
    ensures r.node == state.node && r.params == state.params && r.seeds == state.seeds
    ensures info.id == state.node.id || info.id in state.members ==> r == state
    ensures info.id != state.node.id && info.id !in state.members ==>
      r.members == state.members[info.id := NewPeer(info.gen, address, ttl, CertainlyAlive)]
  {
    if state.node.id == info.id then state
    else if info.id in state.members then state
    else state.(members := state.members[info.id := NewPeer(info.gen, address, ttl, CertainlyAlive)])
  }

  /** dropPeer: forget the member with that id, if any. */
  function DropPeer(state: PeersModel, peerId: NodeID): (r: PeersModel)
    ensures r.node == state.node && r.params == state.params && r.seeds == state.seeds
    ensures r.members.Keys == state.members.Keys - {peerId}
    ensures forall id :: id in r.members ==> r.members[id] == state.members[id]
  {
    state.(members := state.members - {peerId})
  }

  /** pronouncePeerDead: the member's state becomes Dead; nothing else changes. */
  function PronounceDead(state: PeersModel, peerId: NodeID): (r: PeersModel)
    ensures r.node == state.node && r.params == state.params && r.seeds == state.seeds
    ensures r.members.Keys == state.members.Keys
    ensures peerId in r.members ==>
      r.members[peerId] == state.members[peerId].(liveness := state.members[peerId].liveness.(state := Dead))
    ensures forall id :: id in r.members && id != peerId ==> r.members[id] == state.members[id]
  {
    if peerId in state.members then
      var p := state.members[peerId];
      state.(members := state.members[peerId := p.(liveness := p.liveness.(state := Dead))])
    else state
  }

  /**
   * updatePeerInfo: when the reported generation is not older than the
   * recorded one, adopt it, reset the ttl and make the peer certainly alive
   * again (its state is left as it was).
   */
  function UpdatePeerInfo(state: PeersModel, peerId: NodeID, gen: uint32, ttl: uint16): (r: PeersModel)
    ensures r.node == state.node && r.params == state.params && r.seeds == state.seeds
    ensures r.members.Keys == state.members.Keys
    ensures forall id :: id in r.members && id != peerId ==> r.members[id] == state.members[id]
    ensures peerId in state.members && state.members[peerId].generation <= gen ==>
      var old_ := state.members[peerId];
      r.members[peerId] == old_.(generation := gen,
                                 liveness := Liveness(ttl, CertainlyAlive, old_.liveness.state))
    ensures peerId in state.members && gen < state.members[peerId].generation ==> r == state
  {
    if peerId in state.members && state.members[peerId].generation <= gen then
      var p := state.members[peerId];
      state.(members := state.members[peerId :=
        p.(generation := gen, liveness := p.liveness.(ttl := ttl, probability := CertainlyAlive))])
    else state
  }

  /** updatePeerAddress: the member's address is replaced; nothing else changes. */
  function UpdateAddress(state: PeersModel, peerId: NodeID, newAddress: Address): (r: PeersModel)
    ensures r.node == state.node && r.params == state.params && r.seeds == state.seeds
    ensures r.members.Keys == state.members.Keys
    ensures peerId in r.members ==> r.members[peerId] == state.members[peerId].(address := newAddress)
    ensures forall id :: id in r.members && id != peerId ==> r.members[id] == state.members[id]
  {
    if peerId in state.members then
      state.(members := state.members[peerId := state.members[peerId].(address := newAddress)])
    else state
  }

  // ---------------------------------------------------------------------
  // Liveness decay
  // ---------------------------------------------------------------------

  /**
   * expDecay: one explicit Euler step of dP/dt = -kP, so that the change
   * p1 - p0 is -k * p0 * dt.
   */
  function ExpDecay(value: real, k: real, dt: real): (r: real)
    ensures r - value == -k * value * dt
    ensures 0.0 <= k * dt <= 1.0 && 0.0 <= value ==> 0.0 <= r <= value
  {
    value * (1.0 - k * dt)
  }

  /**
   * The ttl step as written: the difference of the uint16 ttl and dt is
   * stored back into a uint16, so a dt larger than the ttl wraps around.
   */
  function DecayTtlAsWritten(ttl: uint16, dt: uint16): (r: uint16)
    ensures ttl == 0 ==> r == 0
    ensures 0 < ttl && dt <= ttl ==> r == ttl - dt
    ensures 0 < ttl < dt ==> r == ttl - dt + 0x1_0000
  {
    if ttl > 0 then ToUint16(ttl - dt) else 0
  }

  /** The ttl step the model uses: counts down by dt and stops at zero. */
  function DecayTtl(ttl: uint16, dt: uint16): (r: uint16)
    ensures r <= ttl
    ensures r == 0 <==> dt >= ttl
    ensures r > 0 ==> r == ttl - dt
  {
    if ttl > dt then ttl - dt else 0
  }

  /** The two agree as long as dt does not exceed the ttl. */
  lemma DecayTtlAgrees(ttl: uint16, dt: uint16)
    requires dt <= ttl
    ensures DecayTtlAsWritten(ttl, dt) == DecayTtl(ttl, dt)
  {
  }

  /** A ttl of 3 decayed by 15 wraps to 65524 as written, where 0 is meant. */
  lemma DecayTtlUnderflow()
    ensures DecayTtlAsWritten(3, 15) == 65524
    ensures DecayTtl(3, 15) == 0
  {
  }

  /** The rank of a state in the order Alive, Suspected, Dead. */
  function Rank(s: State): nat
  {
    match s
    case Alive => 0
    case Suspected => 1
    case Dead => 2
  }

  /**
   * decayLiveness: decay the probability over dt ticks of decayTimeMs
   * milliseconds, count the ttl down, then move an Alive peer whose
   * probability fell below kMaybeNotAlive to Suspected, and a Suspected
   * peer whose ttl ran out to Dead.
   */
  function DecayLiveness(value: Liveness, dt: uint16, decayRate: real, decayTimeMs: uint32): (r: Liveness)
    ensures r.probability == ExpDecay(value.probability, decayRate, (dt as real) * ((decayTimeMs as real) / 1000.0))
    ensures r.ttl == DecayTtl(value.ttl, dt)
    ensures Rank(value.state) <= Rank(r.state) <= Rank(value.state) + 1
    ensures value.state == Alive ==> (r.state == Suspected <==> r.probability < MaybeNotAlive)
    ensures value.state == Suspected ==> (r.state == Dead <==> r.ttl == 0)
  {
    var p := ExpDecay(value.probability, decayRate, (dt as real) * ((decayTimeMs as real) / 1000.0));
    var ttl := DecayTtl(value.ttl, dt);
    var state := match value.state
      case Alive => if p < MaybeNotAlive then Suspected else Alive
      case Suspected => if ttl == 0 then Dead else Suspected
      case Dead => Dead;
    Liveness(ttl, p, state)
  }

  /** A peer after one decay step. */
  function DecayPeer(p: Peer, dt: uint16, decayRate: real, decayTimeMs: uint32): (q: Peer)
    ensures q == p.(liveness := DecayLiveness(p.liveness, dt, decayRate, decayTimeMs))
  {
    p.(liveness := DecayLiveness(p.liveness, dt, decayRate, decayTimeMs))
  }

  /**
   * The model that decayPeerInfo returns: every member decayed, then the
   * expired ones removed; seeds, node and parameters are untouched.
   */
  function DecayedModel(state: PeersModel, dt: uint16, decayTimeMs: uint32, decayRate: real): (r: PeersModel)
    ensures r.node == state.node && r.params == state.params && r.seeds == state.seeds
    ensures forall id :: id in r.members <==>
      id in state.members && !IsExpired(DecayPeer(state.members[id], dt, decayRate, decayTimeMs))
    ensures forall id :: id in r.members ==> r.members[id] == DecayPeer(state.members[id], dt, decayRate, decayTimeMs)
  {
    state.(members := map id | id in state.members && !IsExpired(DecayPeer(state.members[id], dt, decayRate, decayTimeMs))
                            :: DecayPeer(state.members[id], dt, decayRate, decayTimeMs))
  }

  /** decayPeerInfo: the two loops of the source, over the members' ids. */
  method DecayPeers(state: PeersModel, dt: uint16, decayTimeMs: uint32, decayRate: real) returns (r: PeersModel)
    ensures r == DecayedModel(state, dt, decayTimeMs, decayRate)
  {
    // Decay every member's liveness.
    var members := state.members;
    var pending := members.Keys;
    while pending != {}
      invariant pending <= state.members.Keys && members.Keys == state.members.Keys
      invariant forall id :: id in members ==>
        members[id] == if id in pending then state.members[id] else DecayPeer(state.members[id], dt, decayRate, decayTimeMs)
      decreases pending
    {
      var id :| id in pending;
      members := members[id := members[id].(liveness := DecayLiveness(members[id].liveness, dt, decayRate, decayTimeMs))];
      pending := pending - {id};
    }
    // Remove the expired ones.
    var kept := members;
    pending := members.Keys;
    while pending != {}
      invariant pending <= members.Keys && kept.Keys <= members.Keys
      invariant forall id :: id in members ==> (id in kept <==> id in pending || !IsExpired(members[id]))
      invariant forall id :: id in kept ==> kept[id] == members[id]
      decreases pending
    {
      var id :| id in pending;
      if IsExpired(members[id]) {
        kept := kept - {id};
      }
      pending := pending - {id};
    }
    r := state.(members := kept);
  }

  /** update: apply one action to the model. */
  function Update(state: PeersModel, action: Action): (r: PeersModel)
    ensures r.node == state.node && r.params == state.params
    ensures !(action.AddSeed? || action.ForgetSeed?) ==> r.seeds == state.seeds
    ensures action.AddSeed? || action.ForgetSeed? ==> r.members == state.members
  {
    match action
    case AddSeed(address, ttl) => InsertSeed(state, address, ttl)
    case ForgetSeed(address) => DropSeed(state, address)
    case AddPeer(address, info, ttl) => InsertPeer(state, address, info, ttl)
    case ForgetPeer(id) => DropPeer(state, id)
    case UpdatePeerGeneration(id, gen, ttl) => UpdatePeerInfo(state, id, gen, ttl)
    case UpdatePeerAddress(id, address) => UpdateAddress(state, id, address)
    case DecayPeerInfo(dt, ms, rate) => DecayedModel(state, dt, ms, rate)
    case PronouncePeerDead(id) => PronounceDead(state, id)
  }

  // ---------------------------------------------------------------------
  // findRedirectAddress
  // ---------------------------------------------------------------------

  /** The member a redirect points to: the healthy member with the least id. */
  predicate IsRedirectTarget(m: PeersModel, id: NodeID)
  {
    id in m.members && IsHealthy(m.members[id])
    && forall other :: other in m.members && IsHealthy(m.members[other]) ==> id.value <= other.value
  }

  /** Every non-empty set of ids has a least element. */
  lemma {:induction false} MinimumExists(ids: set<NodeID>)
    requires ids != {}
    ensures exists id :: id in ids && forall other :: other in ids ==> id.value <= other.value
    decreases ids
  {
    var x :| x in ids;
    if ids - {x} != {} {
      MinimumExists(ids - {x});
      var y :| y in ids - {x} && forall other :: other in ids - {x} ==> y.value <= other.value;
      if x.value < y.value {
        assert forall other :: other in ids ==> x.value <= other.value;
      } else {
        assert forall other :: other in ids ==> y.value <= other.value;
      }
    } else {
      assert ids == {x};
    }
  }

  /**
   * findRedirectAddress: walk the members in ascending id order (the order
   * of std::map) and return the address of the first healthy one.
   */
  method FindRedirectAddress(m: PeersModel) returns (r: Option<Address>)
    ensures r.None? <==> forall id :: id in m.members ==> !IsHealthy(m.members[id])
    ensures r.Some? ==> exists id :: IsRedirectTarget(m, id) && r.value == m.members[id].address
  {
    var pending := m.members.Keys;
    while pending != {}
      invariant pending <= m.members.Keys
      invariant forall id :: id in m.members && id !in pending ==> !IsHealthy(m.members[id])
      invariant forall a, b :: a in m.members && a !in pending && b in pending ==> a.value < b.value
      decreases pending
    {
      MinimumExists(pending);
      var id :| id in pending && forall other :: other in pending ==> id.value <= other.value;
      if IsHealthy(m.members[id]) {
        forall other | other in m.members && IsHealthy(m.members[other])
          ensures id.value <= other.value
        {
          assert other in pending;
        }
        assert IsRedirectTarget(m, id);
        return Some(m.members[id].address);
      }
      pending := pending - {id};
    }
    return None;
  }
}
