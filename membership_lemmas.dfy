/**
 * Properties of the membership reducer across all actions, and the
 * scenarios of the library's membership tests replayed on the model.
 */
module MembershipLemmas {
  import opened Ints
  import opened Wrappers
  import opened NodeIdentity
  import opened NetworkAddress
  import opened Membership

  /** The node never lists itself among its members. */
  predicate SelfExcluded(m: PeersModel)
  {
    m.node.id !in m.members
  }

  lemma UpdateKeepsSelfExcluded(m: PeersModel, action: Action)
    requires SelfExcluded(m)
    ensures SelfExcluded(Update(m, action))
  {
  }

  /** No action lowers the generation recorded for a member that stays. */
  lemma GenerationNeverDecreases(m: PeersModel, action: Action, id: NodeID)
    requires id in m.members && id in Update(m, action).members
    ensures m.members[id].generation <= Update(m, action).members[id].generation
  {
  }

  /**
   * Dead is absorbing: a dead member stays dead under every action that
   * keeps it, a newer generation included.
   */
  lemma DeadStaysDead(m: PeersModel, action: Action, id: NodeID)
    requires id in m.members && IsDead(m.members[id]) && id in Update(m, action).members
    ensures IsDead(Update(m, action).members[id])
  {
  }

  /** After a decay step no expired member is left. */
  lemma DecayLeavesNoExpired(m: PeersModel, dt: uint16, ms: uint32, rate: real)
    ensures ExpiredPeers(DecayedModel(m, dt, ms, rate)) == {}
  {
  }

  /**
   * Decay removes exactly the members that end the step dead with no ttl
   * left; in particular one step never removes a member that was Alive,
   * and always removes one that was already expired.
   */
  lemma DecayRemoves(m: PeersModel, dt: uint16, ms: uint32, rate: real, id: NodeID)
    requires id in m.members
    ensures IsAlive(m.members[id]) ==> id in DecayedModel(m, dt, ms, rate).members
    ensures IsExpired(m.members[id]) ==> id !in DecayedModel(m, dt, ms, rate).members
    ensures id !in DecayedModel(m, dt, ms, rate).members ==> IsDead(m.members[id]) || IsSuspected(m.members[id])
  {
  }

  /** Every member's probability lies in [0, 1]. */
  predicate ProbabilitiesValid(m: PeersModel)
  {
    forall id :: id in m.members ==> 0.0 <= m.members[id].liveness.probability <= 1.0
  }

  /** A decay step whose rate times elapsed time lies in [0, 1]. */
  predicate SaneDecay(action: Action)
  {
    action.DecayPeerInfo? ==>
      0.0 <= action.decayRate * ((action.ttlDelta as real) * ((action.decayTimeMs as real) / 1000.0)) <= 1.0
  }

  /** Probabilities stay in [0, 1] under every action, given a sane decay step. */
  lemma UpdateKeepsProbabilitiesValid(m: PeersModel, action: Action)
    requires ProbabilitiesValid(m) && SaneDecay(action)
    ensures ProbabilitiesValid(Update(m, action))
  {
    match action
    case DecayPeerInfo(dt, ms, rate) =>
      DecayKeepsProbabilitiesValid(m, dt, ms, rate);
    case _ =>
  }

  lemma DecayKeepsProbabilitiesValid(m: PeersModel, dt: uint16, ms: uint32, rate: real)
    requires ProbabilitiesValid(m)
    requires 0.0 <= rate * ((dt as real) * ((ms as real) / 1000.0)) <= 1.0
    ensures ProbabilitiesValid(DecayedModel(m, dt, ms, rate))
  {
    var r := DecayedModel(m, dt, ms, rate);
    var elapsed := (dt as real) * ((ms as real) / 1000.0);
    forall id | id in r.members
      ensures 0.0 <= r.members[id].liveness.probability <= 1.0
    {
      var p := m.members[id].liveness.probability;
      assert r.members[id].liveness.probability == ExpDecay(p, rate, elapsed);
    }
  }

  /** Adding a seed twice is adding it once; forgetting it afterwards removes it. */
  lemma SeedAddForget(m: PeersModel, a: Address, ttl: uint16, ttl2: uint16)
    ensures InsertSeed(InsertSeed(m, a, ttl), a, ttl2) == InsertSeed(m, a, ttl)
    ensures DropSeed(InsertSeed(m, a, ttl), a).seeds == m.seeds - {a}
    ensures a !in m.seeds ==> DropSeed(m, a) == m
  {
    assert a !in m.seeds ==> m.seeds - {a} == m.seeds;
  }

  /** At most one member is the redirect target. */
  lemma RedirectTargetUnique(m: PeersModel, a: NodeID, b: NodeID)
    requires IsRedirectTarget(m, a) && IsRedirectTarget(m, b)
    ensures a == b
  {
  }

  /** Adding healthy peers and redirecting: the target is found among the healthy ones. */
  lemma RedirectAfterAdd(m: PeersModel, address: Address, info: NodeInfo, ttl: uint16)
    requires m.members == map[] && info.id != m.node.id
    ensures ttl == 0 ==> forall id :: id in Update(m, AddPeer(address, info, ttl)).members ==>
      !IsHealthy(Update(m, AddPeer(address, info, ttl)).members[id])
    ensures ttl > 0 ==>
      IsRedirectTarget(Update(m, AddPeer(address, info, ttl)), info.id) &&
      Update(m, AddPeer(address, info, ttl)).members[info.id].address == address
  {
  }

  // Scenarios of the library's membership tests

  /** The rate the decay tests use: it takes kCertainlyAlive to 90% of kMaybeNotAlive in one second. */
  const TestRate: real := 1.0 - MaybeNotAlive * 0.9 / CertainlyAlive

  /** Three peers with ttl 2, 3 and 0 and a seed; the last peer pronounced dead. */
  function ThreePeers(): PeersModel
  {
    var m0 := Update(EmptyModel, AddSeed(AnyAddress(888), 1));
    var m1 := Update(m0, AddPeer(AnyAddress(321), NodeInfo(NodeID(1), 0), 2));
    var m2 := Update(m1, AddPeer(AnyAddress(12), NodeInfo(NodeID(2), 0), 3));
    var m3 := Update(m2, AddPeer(AnyAddress(13), NodeInfo(NodeID(3), 0), 0));
    Update(m3, PronouncePeerDead(NodeID(3)))
  }

  lemma ThreePeersContents()
    ensures ThreePeers().seeds == map[AnyAddress(888) := 1]
    ensures ThreePeers().members == map[
      NodeID(1) := NewPeer(0, AnyAddress(321), 2, CertainlyAlive),
      NodeID(2) := NewPeer(0, AnyAddress(12), 3, CertainlyAlive),
      NodeID(3) := NewPeer(0, AnyAddress(13), 0, CertainlyAlive).(liveness := Liveness(0, CertainlyAlive, Dead))]
  {
  }

  /**
   * Decaying ThreePeers by one tick of a second drops the dead peer and
   * leaves peer 1 with ttl 1 and Suspected. The seed is kept, since decay
   * does not touch seeds.
   */
  lemma DecayScenario()
    ensures |ThreePeers().members| == 3
    ensures Update(ThreePeers(), DecayPeerInfo(1, 1000, TestRate)).members.Keys == {NodeID(1), NodeID(2)}
    ensures Update(ThreePeers(), DecayPeerInfo(1, 1000, TestRate)).seeds == ThreePeers().seeds
    ensures Update(ThreePeers(), DecayPeerInfo(1, 1000, TestRate)).members[NodeID(1)].liveness
      == Liveness(1, CertainlyAlive * (1.0 - TestRate), Suspected)
  {
    ThreePeersContents();
    DecayOfThree(ThreePeers());
  }

  /** DecayScenario for any model holding ThreePeers' members. */
  lemma DecayOfThree(m: PeersModel)
    requires m.members == map[
      NodeID(1) := NewPeer(0, AnyAddress(321), 2, CertainlyAlive),
      NodeID(2) := NewPeer(0, AnyAddress(12), 3, CertainlyAlive),
      NodeID(3) := NewPeer(0, AnyAddress(13), 0, CertainlyAlive).(liveness := Liveness(0, CertainlyAlive, Dead))]
    ensures |m.members| == 3
    ensures Update(m, DecayPeerInfo(1, 1000, TestRate)).members.Keys == {NodeID(1), NodeID(2)}
    ensures Update(m, DecayPeerInfo(1, 1000, TestRate)).seeds == m.seeds
    ensures Update(m, DecayPeerInfo(1, 1000, TestRate)).members[NodeID(1)].liveness
      == Liveness(1, CertainlyAlive * (1.0 - TestRate), Suspected)
  {
    assert m.members.Keys == {NodeID(1), NodeID(2), NodeID(3)};
    SuspectedAfterOneTick(m.members[NodeID(1)]);
    SuspectedAfterOneTick(m.members[NodeID(2)]);
    var p3 := DecayPeer(m.members[NodeID(3)], 1, TestRate, 1000);
    assert p3.liveness.ttl == 0 && p3.liveness.state == Dead;
  }

  /** One tick of a second at TestRate takes a certainly-alive peer below MaybeNotAlive. */
  lemma SuspectedAfterOneTick(p: Peer)
    requires p.liveness.state == Alive && p.liveness.probability == CertainlyAlive
    ensures DecayPeer(p, 1, TestRate, 1000).liveness
      == Liveness(DecayTtl(p.liveness.ttl, 1), CertainlyAlive * (1.0 - TestRate), Suspected)
  {
    assert CertainlyAlive * (1.0 - TestRate) == MaybeNotAlive * 0.9;
    assert (1 as real) * ((1000 as uint32 as real) / 1000.0) == 1.0;
  }

  /**
   * A peer with ttl 3 decayed by 15 ticks ends with ttl 0 and Suspected
   * (it was Alive, so this step only suspects it).
   */
  lemma DecayUnderflowScenario()
    ensures var m0 := Update(EmptyModel, AddSeed(AnyAddress(888), 2));
      var m1 := Update(m0, AddPeer(AnyAddress(321), NodeInfo(NodeID(1), 0), 3));
      var r := Update(m1, DecayPeerInfo(15, 1000, TestRate));
      r.members.Keys == {NodeID(1)}
      && r.members[NodeID(1)].liveness.ttl == 0 && IsSuspected(r.members[NodeID(1)])
  {
    var m0 := Update(EmptyModel, AddSeed(AnyAddress(888), 2));
    var m1 := Update(m0, AddPeer(AnyAddress(321), NodeInfo(NodeID(1), 0), 3));
    assert m1.members.Keys == {NodeID(1)};
    var r := Update(m1, DecayPeerInfo(15, 1000, TestRate));
    assert r.members.Keys == {NodeID(1)};
  }
}
