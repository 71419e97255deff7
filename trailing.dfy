/**
 * The parser checks no total length: once a message has been read, the
 * bytes after it are never looked at, so appending bytes to a buffer that
 * parses does not change what it parses to.
 */
module TrailingBytes {
  import opened Ints
  import opened Wrappers
  import opened Bytes
  import opened NodeIdentity
  import opened NetworkAddress
  import opened Decoding
  import opened Gossip
  import opened MessageParser

  lemma Slices(b: seq<uint8>, e: seq<uint8>, k: nat)
    requires k <= |b|
    ensures (b + e)[k..] == b[k..] + e
    ensures (b + e)[..k] == b[..k]
  {
  }

  lemma UintExtends(b: seq<uint8>, e: seq<uint8>, width: nat)
    requires width <= |b|
    ensures DecodeUint(b + e, width) == DecodeUint(b, width)
  {
    Slices(b, e, width);
  }

  lemma U8Extends(b: seq<uint8>, e: seq<uint8>)
    requires DecodeU8(b).Some?
    ensures DecodeU8(b + e) == DecodeU8(b)
  {
    UintExtends(b, e, 1);
  }

  lemma U64Extends(b: seq<uint8>, e: seq<uint8>)
    requires DecodeU64(b).Some?
    ensures DecodeU64(b + e) == DecodeU64(b)
  {
    UintExtends(b, e, 8);
  }

  lemma NodeIDExtends(b: seq<uint8>, e: seq<uint8>)
    requires DecodeNodeID(b).Some?
    ensures DecodeNodeID(b + e) == DecodeNodeID(b)
  {
    UintExtends(b, e, 4);
  }

  lemma NodeInfoExtends(b: seq<uint8>, e: seq<uint8>)
    requires DecodeNodeInfo(b).Some?
    ensures DecodeNodeInfo(b + e) == DecodeNodeInfo(b)
  {
    NodeIDExtends(b, e);
    Slices(b, e, 4);
    UintExtends(b[4..], e, 4);
  }

  lemma ViewExtends(b: seq<uint8>, e: seq<uint8>)
    requires DecodeView(b).Some?
    ensures DecodeView(b + e) == DecodeView(b)
  {
    var used := DecodeView(b).value.used;
    UintExtends(b, e, 2);
    assert (b + e)[2..used] == b[2..used];
  }

  /** An address reader that, like the other readers, never looks past what it reads. */
  ghost predicate AddressPrefixStable(reader: AddressReader)
  {
    forall b: seq<uint8>, e: seq<uint8> {:trigger DecodeAddress(reader, b + e)} ::
      DecodeAddress(reader, b).Some? ==> DecodeAddress(reader, b + e) == DecodeAddress(reader, b)
  }

  lemma JoinRequestExtends(b: seq<uint8>, e: seq<uint8>)
    requires ParseJoinRequest(b).Ok?
    ensures ParseJoinRequest(b + e) == ParseJoinRequest(b)
  {
    NodeInfoExtends(b, e);
    Slices(b, e, 8);
    ViewExtends(b[8..], e);
    var t := 8 + DecodeView(b[8..]).value.used;
    Slices(b, e, t);
    ViewExtends(b[t..], e);
  }

  lemma JoinRedirectExtends(b: seq<uint8>, e: seq<uint8>, reader: AddressReader)
    requires AddressPrefixStable(reader)
    requires ParseJoinRedirect(b, reader).Ok?
    ensures ParseJoinRedirect(b + e, reader) == ParseJoinRedirect(b, reader)
  {
    assert DecodeAddress(reader, b + e) == DecodeAddress(reader, b);
    var at := DecodeAddress(reader, b).value.used;
    Slices(b, e, at);
    U64Extends(b[at..], e);
    Slices(b, e, at + 8);
    U64Extends(b[at + 8..], e);
    Slices(b, e, at + 16);
    ViewExtends(b[at + 16..], e);
  }

  lemma RejectedExtends(b: seq<uint8>, e: seq<uint8>)
    requires ParseConnectRejected(b).Ok?
    ensures ParseConnectRejected(b + e) == ParseConnectRejected(b)
  {
    U64Extends(b, e);
    Slices(b, e, 8);
    U64Extends(b[8..], e);
    Slices(b, e, 16);
    ViewExtends(b[16..], e);
  }

  lemma PingExtends(b: seq<uint8>, e: seq<uint8>)
    requires ParsePingMessage(b).Ok?
    ensures ParsePingMessage(b + e) == ParsePingMessage(b)
  {
    NodeIDExtends(b, e);
    Slices(b, e, 4);
    NodeIDExtends(b[4..], e);
    Slices(b, e, 8);
    U8Extends(b[8..], e);
  }

  lemma PongExtends(b: seq<uint8>, e: seq<uint8>)
    requires ParsePongMessage(b).Ok?
    ensures ParsePongMessage(b + e) == ParsePongMessage(b)
  {
    NodeIDExtends(b, e);
    Slices(b, e, 4);
    NodeInfoExtends(b[4..], e);
    Slices(b, e, 12);
    U8Extends(b[12..], e);
  }

  /**
   * A buffer that parses parses the same with any bytes appended. For a
   * redirect this needs an address reader that does not look ahead either.
   */
  lemma TrailingIgnored(b: seq<uint8>, e: seq<uint8>, reader: AddressReader)
    requires ParseMessage(b, reader).Ok?
    requires b[0] == Code(JoinRedirect) ==> AddressPrefixStable(reader)
    ensures ParseMessage(b + e, reader) == ParseMessage(b, reader)
  {
    Slices(b, e, HeaderSize);
    var body := b[HeaderSize..];
    assert (b + e)[0] == b[0];
    match FromCode(b[0]).value {
      case JoinReq => JoinRequestExtends(body, e);
      case JoinAck => NodeInfoExtends(body, e);
      case JoinRedirect => JoinRedirectExtends(body, e, reader);
      case JoinNak => RejectedExtends(body, e);
      case PingDirect => PingExtends(body, e);
      case PongDirect => PongExtends(body, e);
      case Broadcast => NodeInfoExtends(body, e);
    }
  }
}
