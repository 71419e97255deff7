/**
 * MessageWriter: appends gossip messages to a ByteWriter, each as its type
 * byte followed by the encodings of its fields. `XBytes` is what writing
 * message X appends; the methods are proved to append exactly that.
 */
module MessageWriter {
  import opened Ints
  import opened Bytes
  import opened NodeIdentity
  import opened NetworkAddress
  import opened Encoding
  import opened Gossip

  /** writeHeader: the type byte; the size field the header once had is not written. */
  function HeaderBytes(t: MessageType): seq<uint8> { EncodeU8(Code(t)) }

  function JoinBytes(self: NodeInfo, token: seq<uint8>, auth: seq<uint8>): seq<uint8>
  {
    HeaderBytes(JoinReq) + EncodeNodeInfo(self) + EncodeView(token) + EncodeView(auth)
  }

  function JoinAckBytes(self: NodeInfo): seq<uint8>
  {
    HeaderBytes(MessageType.JoinAck) + EncodeNodeInfo(self)
  }

  function JoinRedirectBytes(reason: ErrorReason, redirectAddress: Address): seq<uint8>
  {
    HeaderBytes(MessageType.JoinRedirect) + EncodeAddress(redirectAddress)
      + EncodeU64(reason.domain) + EncodeU64(reason.code) + EncodeView(reason.tag)
  }

  function JoinNackBytes(reason: ErrorReason): seq<uint8>
  {
    HeaderBytes(JoinNak) + EncodeU64(reason.domain) + EncodeU64(reason.code) + EncodeView(reason.tag)
  }

  function AdvertiseBytes(node: NodeInfo): seq<uint8>
  {
    HeaderBytes(Broadcast) + EncodeNodeInfo(node)
  }

  /** A ping: header, requestor and target; no ttl byte is written. */
  function PingBytes(requestorId: NodeID, targetId: NodeID): seq<uint8>
  {
    HeaderBytes(PingDirect) + EncodeNodeID(requestorId) + EncodeNodeID(targetId)
  }

  /** A pong: header, requestor and the node's details; no ttl byte is written. */
  function PongBytes(requestorId: NodeID, selfInfo: NodeInfo): seq<uint8>
  {
    HeaderBytes(PongDirect) + EncodeNodeID(requestorId) + EncodeNodeInfo(selfInfo)
  }

  lemma Append2<T>(s: seq<T>, a: seq<T>, b: seq<T>)
    ensures s + a + b == s + (a + b)
  {
  }

  lemma Append3<T>(s: seq<T>, a: seq<T>, b: seq<T>, c: seq<T>)
    ensures s + a + b + c == s + (a + b + c)
  {
  }

  lemma Append4<T>(s: seq<T>, a: seq<T>, b: seq<T>, c: seq<T>, d: seq<T>)
    ensures s + a + b + c + d == s + (a + b + c + d)
  {
  }

  /** writeHeader(encoder, type). */
  method WriteHeader(encoder: Encoder, t: MessageType) returns (e: Encoder)
    modifies encoder.dest
    ensures e == encoder && encoder.dest.buffer == old(encoder.dest.buffer) + HeaderBytes(t)
  {
    e := encoder.WriteU8(Code(t));
  }

  class MessageWriter {
    const writer: ByteWriter

    constructor(dest: ByteWriter)
      ensures writer == dest
    {
      writer := dest;
    }

    /** writer(): the buffer being written to. */
    function Writer(): (w: ByteWriter)
      ensures w == writer
    {
      writer
    }

    /** build(): the buffer, now holding the messages written so far. */
    method Build() returns (w: ByteWriter)
      ensures w == writer
    {
      w := writer;
    }

    /** join(self): a join request with an empty token and auth. */
    method Join(self: NodeInfo) returns (mw: MessageWriter)
      modifies writer
      ensures mw == this && writer.buffer == old(writer.buffer) + JoinBytes(self, [], [])
    {
      mw := JoinWith(self, [], []);
    }

    /** join(self, token, auth). */
    method JoinWith(self: NodeInfo, token: seq<uint8>, auth: seq<uint8>) returns (mw: MessageWriter)
      modifies writer
      ensures mw == this && writer.buffer == old(writer.buffer) + JoinBytes(self, token, auth)
    {
      ghost var before := writer.buffer;
      var encode := new Encoder(writer);
      var e := WriteHeader(encode, MessageType.JoinReq);
      e := encode.WriteNodeInfo(self);
      e := encode.WriteView(token);
      e := encode.WriteView(auth);
      Append4(before, HeaderBytes(JoinReq), EncodeNodeInfo(self), EncodeView(token), EncodeView(auth));
      mw := this;
    }

    method JoinAck(self: NodeInfo) returns (mw: MessageWriter)
      modifies writer
      ensures mw == this && writer.buffer == old(writer.buffer) + JoinAckBytes(self)
    {
      ghost var before := writer.buffer;
      var encode := new Encoder(writer);
      var e := WriteHeader(encode, MessageType.JoinAck);
      e := encode.WriteNodeInfo(self);
      Append2(before, HeaderBytes(MessageType.JoinAck), EncodeNodeInfo(self));
      mw := this;
    }

    method JoinRedirect(reason: ErrorReason, redirectAddress: Address) returns (mw: MessageWriter)
      modifies writer
      ensures mw == this && writer.buffer == old(writer.buffer) + JoinRedirectBytes(reason, redirectAddress)
    {
      ghost var before := writer.buffer;
      var encode := new Encoder(writer);
      var e := WriteHeader(encode, MessageType.JoinRedirect);
      e := encode.WriteAddress(redirectAddress);
      e := encode.WriteU64(reason.domain);
      e := encode.WriteU64(reason.code);
      e := encode.WriteView(reason.tag);
      ghost var header := HeaderBytes(MessageType.JoinRedirect);
      assert header + EncodeAddress(redirectAddress) == header;
      Append4(before, header, EncodeU64(reason.domain), EncodeU64(reason.code), EncodeView(reason.tag));
      mw := this;
    }

    method JoinNack(reason: ErrorReason) returns (mw: MessageWriter)
      modifies writer
      ensures mw == this && writer.buffer == old(writer.buffer) + JoinNackBytes(reason)
    {
      ghost var before := writer.buffer;
      var encode := new Encoder(writer);
      var e := WriteHeader(encode, MessageType.JoinNak);
      e := encode.WriteU64(reason.domain);
      e := encode.WriteU64(reason.code);
      e := encode.WriteView(reason.tag);
      Append4(before, HeaderBytes(JoinNak), EncodeU64(reason.domain), EncodeU64(reason.code), EncodeView(reason.tag));
      mw := this;
    }

    method Advertise(node: NodeInfo) returns (mw: MessageWriter)
      modifies writer
      ensures mw == this && writer.buffer == old(writer.buffer) + AdvertiseBytes(node)
    {
      ghost var before := writer.buffer;
      var encode := new Encoder(writer);
      var e := WriteHeader(encode, MessageType.Broadcast);
      e := encode.WriteNodeInfo(node);
      Append2(before, HeaderBytes(MessageType.Broadcast), EncodeNodeInfo(node));
      mw := this;
    }

    method Ping(requestorId: NodeID, targetId: NodeID) returns (mw: MessageWriter)
      modifies writer
      ensures mw == this && writer.buffer == old(writer.buffer) + PingBytes(requestorId, targetId)
    {
      ghost var before := writer.buffer;
      var encode := new Encoder(writer);
      var e := WriteHeader(encode, MessageType.PingDirect);
      e := encode.WriteNodeID(requestorId);
      e := encode.WriteNodeID(targetId);
      Append3(before, HeaderBytes(MessageType.PingDirect), EncodeNodeID(requestorId), EncodeNodeID(targetId));
      mw := this;
    }

    method Pong(requestorId: NodeID, selfInfo: NodeInfo) returns (mw: MessageWriter)
      modifies writer
      ensures mw == this && writer.buffer == old(writer.buffer) + PongBytes(requestorId, selfInfo)
    {
      ghost var before := writer.buffer;
      var encode := new Encoder(writer);
      var e := WriteHeader(encode, MessageType.PongDirect);
      e := encode.WriteNodeID(requestorId);
      e := encode.WriteNodeInfo(selfInfo);
      Append3(before, HeaderBytes(MessageType.PongDirect), EncodeNodeID(requestorId), EncodeNodeInfo(selfInfo));
      mw := this;
    }
  }
}
