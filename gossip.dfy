/**
 * The gossip protocol's messages, their one-byte type codes and the
 * mandatory header.
 */
module Gossip {
  import opened Ints
  import opened Wrappers
  import opened NodeIdentity
  import opened NetworkAddress

  /** Solace::Error as the protocol carries it: a domain, a code and a text tag. */
  datatype ErrorReason = ErrorReason(domain: uint64, code: uint64, tag: seq<uint8>)

  datatype Message =
      /** Request to join the recipient's group. */
    | ConnectRequest(nodeInfo: NodeInfo, token: seq<uint8>, auth: seq<uint8>)
      /** The sender accepted the requestor into its group. */
    | ConnectResponseAck(self: NodeInfo)
      /** The sender cannot accept the requestor, but the node at otherNode may. */
    | ConnectResponseRedirect(otherNode: Address, redirectReason: ErrorReason)
      /** The sender politely rejects the request. */
    | ConnectResponseRejected(reason: ErrorReason)
      /** "Are you there?" */
    | PingMessage(origin: NodeID, target: NodeID, pingTtl: uint8)
      /** "Hey! I am alive." */
    | PongMessage(pongOrigin: NodeID, nodeDetails: NodeInfo, pongTtl: uint8)
      /** Broadcast to elicit peer introductions. */
    | BroadcastMessage(node: NodeInfo)

  datatype MessageType = JoinReq | JoinAck | JoinRedirect | JoinNak | PingDirect | PongDirect | Broadcast

  /** The byte each message type is sent as. */
  function Code(t: MessageType): uint8
  {
    match t
    case JoinReq => 63
    case JoinAck => 64
    case JoinRedirect => 65
    case JoinNak => 66
    case PingDirect => 67
    case PongDirect => 68
    case Broadcast => 250
  }

  /** The message type a byte names, if any. */
  function FromCode(b: uint8): (r: Option<MessageType>)
    ensures r.Some? <==> b in {63, 64, 65, 66, 67, 68, 250}
  {
    if b == 63 then Some(JoinReq)
    else if b == 64 then Some(JoinAck)
    else if b == 65 then Some(JoinRedirect)
    else if b == 66 then Some(JoinNak)
    else if b == 67 then Some(PingDirect)
    else if b == 68 then Some(PongDirect)
    else if b == 250 then Some(Broadcast)
    else None
  }

  /** Every type is recognised from its code, and only its code names it. */
  lemma CodeRoundTrip(t: MessageType, b: uint8)
    ensures FromCode(Code(t)) == Some(t)
    ensures FromCode(b) == Some(t) <==> b == Code(t)
  {
  }

  /** No two message types share a code. */
  lemma CodesDistinct(s: MessageType, t: MessageType)
    ensures Code(s) == Code(t) <==> s == t
  {
    CodeRoundTrip(s, Code(t));
  }

  /** Gossip::MessageHeader: the raw type byte, which need not name a known type. */
  datatype MessageHeader = MessageHeader(typeCode: uint8)

  /** Gossip::headerSize(): the header is the one type byte. */
  const HeaderSize: nat := 1
}
