/**
 * Identity types of a cluster participant (include/tribe/nodeInfo.hpp):
 * NodeID and GroupID wrap a uint32; NodeInfo pairs an id with a generation.
 */
module NodeIdentity {
  import opened Ints

  /** Identifier of a node in a cluster. */
  datatype NodeID = NodeID(value: uint32)

  /** Identifier of a group. */
  datatype GroupID = GroupID(value: uint32)

  /** Any cluster participant, self included: its id and its generation token. */
  datatype NodeInfo = NodeInfo(id: NodeID, gen: uint32)

  /** operator== on NodeID compares the wrapped values. */
  predicate Equal(lhs: NodeID, rhs: NodeID)
  {
    lhs.value == rhs.value
  }

  /** operator!= on NodeID, written in the source as its own comparison. */
  predicate NotEqual(lhs: NodeID, rhs: NodeID)
  {
    lhs.value != rhs.value
  }

  /** operator< on NodeID: the order of std::map<NodeID, Peer>. */
  predicate Less(lhs: NodeID, rhs: NodeID)
  {
    lhs.value < rhs.value
  }

  predicate GroupEqual(lhs: GroupID, rhs: GroupID)
  {
    lhs.value == rhs.value
  }

  predicate GroupNotEqual(lhs: GroupID, rhs: GroupID)
  {
    lhs.value != rhs.value
  }

  /** std::hash<NodeID>: the integer hash of the wrapped value. */
  function Hash(id: NodeID): bv64
  {
    StdHash(id.value)
  }

  /** Equality of ids is value identity, and != is exactly its negation. */
  lemma EqualityIsValueIdentity(a: NodeID, b: NodeID)
    ensures Equal(a, b) <==> a == b
    ensures NotEqual(a, b) <==> !Equal(a, b)
  {
  }

  /** The same holds for GroupID. */
  lemma GroupEqualityIsValueIdentity(a: GroupID, b: GroupID)
    ensures GroupEqual(a, b) <==> a == b
    ensures GroupNotEqual(a, b) <==> !GroupEqual(a, b)
  {
  }

  /** Less is a strict total order whose incomparable pairs are the equal ones. */
  lemma LessIsStrictTotalOrder(a: NodeID, b: NodeID, c: NodeID)
    ensures !Less(a, a)
    ensures Less(a, b) ==> !Less(b, a)
    ensures Less(a, b) && Less(b, c) ==> Less(a, c)
    ensures !Less(a, b) && !Less(b, a) <==> Equal(a, b)
  {
  }

  /** The hash depends only on the value, so equal ids hash equally. */
  lemma HashRespectsEquality(a: NodeID, b: NodeID)
    ensures Equal(a, b) ==> Hash(a) == Hash(b)
  {
  }
}
