/**
 * The broadcast model (tribe::BroadcastModel): the UDP broadcast groups
 * this node takes part in, each with the number of broadcast rounds still
 * to send, and the reducer `update` that applies one BroadcastAction.
 */
module BroadcastGroups {
  import opened Ints
  import opened NetworkAddress

  /** BroadcastGroup: hop limit, rounds left (ttl) and the period between rounds. */
  datatype BroadcastGroup = BroadcastGroup(hops: uint16, ttl: int32, timeMs: uint32)

  /** BroadcastGroup{}: one hop, three rounds, two seconds apart. */
  const DefaultGroup: BroadcastGroup := BroadcastGroup(1, 3, 2000)

  datatype BroadcastModel = BroadcastModel(groups: map<Address, BroadcastGroup>)

  const EmptyBroadcastModel: BroadcastModel := BroadcastModel(map[])

  datatype BroadcastAction =
    | JoinBroadcastGroup(joinAddress: Address)
    | LeaveBroadcastGroup(leaveAddress: Address)
    | Broadcast(groupAddress: Address, rounds: uint32)
    | UpdateBroadcastRounds(roundsAddress: Address, newRounds: int32)

  /** Broadcast{address} and UpdateBroadcastRounds{address}: one round by default. */
  function BroadcastOnce(address: Address): (a: BroadcastAction)
    ensures a.Broadcast? && a.groupAddress == address && a.rounds == 1
  {
    Broadcast(address, 1)
  }

  function UpdateRoundsToOne(address: Address): (a: BroadcastAction)
    ensures a.UpdateBroadcastRounds? && a.roundsAddress == address && a.newRounds == 1
  {
    UpdateBroadcastRounds(address, 1)
  }

  /** addGroup: join with a default group, unless the address is already joined. */
  function AddGroup(model: BroadcastModel, address: Address): (r: BroadcastModel)
    ensures r.groups.Keys == model.groups.Keys + {address}
    ensures address !in model.groups ==> r.groups[address] == DefaultGroup
    ensures forall a :: a in model.groups ==> r.groups[a] == model.groups[a]
  {
    if address in model.groups then model else BroadcastModel(model.groups[address := DefaultGroup])
  }

  /** dropGroup: leave the group with that address, if joined. */
  function DropGroup(model: BroadcastModel, address: Address): (r: BroadcastModel)
    ensures r.groups.Keys == model.groups.Keys - {address}
    ensures forall a :: a in r.groups ==> r.groups[a] == model.groups[a]
  {
    BroadcastModel(model.groups - {address})
  }

  /**
   * broadcast: a joined group with rounds left has `rounds` subtracted from
   * its ttl. The int32 ttl minus the uint32 count is computed modulo 2^32
   * and stored back as a two's-complement int32.
   */
  function ApplyBroadcast(model: BroadcastModel, address: Address, rounds: uint32): (r: BroadcastModel)
    ensures r.groups.Keys == model.groups.Keys
    ensures forall a :: a in r.groups && a != address ==> r.groups[a] == model.groups[a]
    ensures address in model.groups && model.groups[address].ttl <= 0 ==> r == model
    ensures address in model.groups && model.groups[address].ttl > 0 ==>
      r.groups[address] == model.groups[address].(ttl := r.groups[address].ttl)
      && (r.groups[address].ttl - (model.groups[address].ttl - rounds)) % 0x1_0000_0000 == 0
  {
    if address in model.groups && model.groups[address].ttl > 0 then
      var g := model.groups[address];
      BroadcastModel(model.groups[address := g.(ttl := ToInt32(g.ttl - rounds))])
    else model
  }

  /** updateRounds: a joined group's ttl is set to the given count. */
  function UpdateRounds(model: BroadcastModel, address: Address, rounds: int32): (r: BroadcastModel)
    ensures r.groups.Keys == model.groups.Keys
    ensures address in r.groups ==> r.groups[address] == model.groups[address].(ttl := rounds)
    ensures forall a :: a in r.groups && a != address ==> r.groups[a] == model.groups[a]
  {
    if address in model.groups then
      BroadcastModel(model.groups[address := model.groups[address].(ttl := rounds)])
    else model
  }

  /** The address an action is about. */
  function Target(action: BroadcastAction): Address
  {
    match action
    case JoinBroadcastGroup(a) => a
    case LeaveBroadcastGroup(a) => a
    case Broadcast(a, _) => a
    case UpdateBroadcastRounds(a, _) => a
  }

  /** update: apply one action; only the group at the action's address can change. */
  function Update(state: BroadcastModel, action: BroadcastAction): (r: BroadcastModel)
    ensures forall a :: a != Target(action) ==>
      (a in r.groups <==> a in state.groups) && (a in r.groups ==> r.groups[a] == state.groups[a])
    ensures !(action.JoinBroadcastGroup? || action.LeaveBroadcastGroup?) ==> r.groups.Keys == state.groups.Keys
  {
    match action
    case JoinBroadcastGroup(a) => AddGroup(state, a)
    case LeaveBroadcastGroup(a) => DropGroup(state, a)
    case Broadcast(a, n) => ApplyBroadcast(state, a, n)
    case UpdateBroadcastRounds(a, n) => UpdateRounds(state, a, n)
  }

  // ---------------------------------------------------------------------
  // Properties
  // ---------------------------------------------------------------------

  /** Joining twice is joining once; leaving after joining removes the group. */
  lemma JoinLeave(m: BroadcastModel, a: Address)
    ensures AddGroup(AddGroup(m, a), a) == AddGroup(m, a)
    ensures DropGroup(AddGroup(m, a), a).groups == m.groups - {a}
    ensures a !in m.groups ==> DropGroup(AddGroup(m, a), a) == m
  {
    assert a !in m.groups ==> m.groups - {a} == m.groups;
  }

  /**
   * Broadcasting at most 2^31 rounds never raises a positive ttl: the count
   * falls by exactly the rounds sent. Larger counts wrap around.
   */
  lemma BroadcastCountsDown(m: BroadcastModel, a: Address, rounds: uint32)
    requires a in m.groups && m.groups[a].ttl > 0 && rounds <= 0x8000_0000
    ensures ApplyBroadcast(m, a, rounds).groups[a].ttl == m.groups[a].ttl - rounds
  {
  }

  /**
   * With the default counts, Broadcast{a} sends one round of a joined group
   * that has rounds left, and UpdateBroadcastRounds{a} leaves it one round;
   * neither touches an address that is not joined.
   */
  lemma DefaultRounds(m: BroadcastModel, a: Address)
    ensures a in m.groups && m.groups[a].ttl > 0 ==>
      Update(m, BroadcastOnce(a)).groups == m.groups[a := m.groups[a].(ttl := m.groups[a].ttl - 1)]
    ensures a in m.groups && m.groups[a].ttl <= 0 ==> Update(m, BroadcastOnce(a)) == m
    ensures a in m.groups ==> Update(m, UpdateRoundsToOne(a)).groups == m.groups[a := m.groups[a].(ttl := 1)]
    ensures a !in m.groups ==> Update(m, BroadcastOnce(a)) == m && Update(m, UpdateRoundsToOne(a)) == m
  {
    if a in m.groups && m.groups[a].ttl > 0 {
      BroadcastCountsDown(m, a, 1);
    }
  }

  /** A huge round count wraps: 3 rounds left minus 2^32 - 1 rounds leaves 4. */
  lemma BroadcastWraps(m: BroadcastModel, a: Address)
    requires a in m.groups && m.groups[a].ttl == 3
    ensures ApplyBroadcast(m, a, 0xFFFF_FFFF).groups[a].ttl == 4
    ensures ApplyBroadcast(m, a, 5).groups[a].ttl == -2
  {
  }

  /** Broadcasting one round at a time, n times. */
  function BroadcastRepeatedly(m: BroadcastModel, a: Address, n: nat): BroadcastModel
    decreases n
  {
    if n == 0 then m else BroadcastRepeatedly(ApplyBroadcast(m, a, 1), a, n - 1)
  }

  /**
   * A joined group with ttl rounds left stops after exactly ttl single-round
   * broadcasts; further broadcasts leave it alone.
   */
  lemma {:induction false} BroadcastStops(m: BroadcastModel, a: Address, n: nat)
    requires a in m.groups && 0 <= m.groups[a].ttl
    ensures var r := BroadcastRepeatedly(m, a, n);
      a in r.groups && r.groups[a].ttl == if n <= m.groups[a].ttl then m.groups[a].ttl - n else 0
    decreases n
  {
    if n > 0 {
      var m1 := ApplyBroadcast(m, a, 1);
      if m.groups[a].ttl > 0 {
        BroadcastCountsDown(m, a, 1);
      }
      BroadcastStops(m1, a, n - 1);
    }
  }

  /** Joining distinct groups gives one group each; leaving another leaves them be. */
  lemma JoinTwoGroups()
    ensures |Update(Update(EmptyBroadcastModel, JoinBroadcastGroup(AnyAddress(0))), JoinBroadcastGroup(AnyAddress(1))).groups| == 2
    ensures Update(Update(EmptyBroadcastModel, JoinBroadcastGroup(AnyAddress(1))), LeaveBroadcastGroup(AnyAddress(0))).groups.Keys == {AnyAddress(1)}
  {
    var m := Update(Update(EmptyBroadcastModel, JoinBroadcastGroup(AnyAddress(0))), JoinBroadcastGroup(AnyAddress(1)));
    assert m.groups.Keys == {AnyAddress(0), AnyAddress(1)};
  }
}
