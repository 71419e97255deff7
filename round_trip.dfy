/**
 * What the parser makes of what the writer writes. Where the two agree the
 * message comes back whole; where they do not, the lemmas state the
 * difference: the rejection and redirect reasons lose their text, and ping
 * and pong are written without the ttl byte the parser expects.
 */
module GossipRoundTrip {
  import opened Ints
  import opened Wrappers
  import opened Bytes
  import opened NodeIdentity
  import opened NetworkAddress
  import opened Decoding
  import opened Encoding
  import opened Gossip
  import opened MessageParser
  import opened MessageWriter

  /** The header a writer emits is the single type byte. */
  lemma HeaderIsCode(t: MessageType)
    ensures HeaderBytes(t) == [Code(t)]
  {
    assert ToLE(Code(t) as nat / 256, 0) == [];
  }

  lemma Nest2<T>(a: seq<T>, b: seq<T>, e: seq<T>)
    ensures a + b + e == a + (b + e)
  {
  }

  lemma Nest3<T>(a: seq<T>, b: seq<T>, c: seq<T>, e: seq<T>)
    ensures a + b + c + e == a + (b + (c + e))
  {
  }

  lemma Nest4<T>(a: seq<T>, b: seq<T>, c: seq<T>, d: seq<T>, e: seq<T>)
    ensures a + b + c + d + e == a + (b + (c + (d + e)))
  {
  }

  lemma Behead<T>(x: T, r: seq<T>)
    ensures ([x] + r)[0] == x && ([x] + r)[1..] == r
  {
  }

  /** A message whose first byte is the code of t parses as t's body, one byte further on. */
  lemma Framed(bytes: seq<uint8>, t: MessageType, reader: AddressReader)
    requires |bytes| >= 1 && bytes[0] == Code(t)
    ensures ParseBody(t, bytes[1..], reader).Err? ==> ParseMessage(bytes, reader).Err?
    ensures ParseBody(t, bytes[1..], reader).Ok? ==>
      ParseMessage(bytes, reader)
        == Ok(Read(ParseBody(t, bytes[1..], reader).value.value, 1 + ParseBody(t, bytes[1..], reader).value.used))
  {
    CodeRoundTrip(t, bytes[0]);
  }

  /** Framed, for a tag followed by a body whose parse is known. */
  lemma FramedOk(t: MessageType, body: seq<uint8>, reader: AddressReader, m: Message, used: nat)
    requires ParseBody(t, body, reader) == Ok(Read(m, used))
    ensures ParseMessage([Code(t)] + body, reader) == Ok(Read(m, 1 + used))
  {
    Behead(Code(t), body);
    Framed([Code(t)] + body, t, reader);
  }

  /** parse(join(n, t, a)) is the join request {n, t, a}, for views of at most 65535 bytes. */
  lemma JoinRoundTrip(self: NodeInfo, token: seq<uint8>, auth: seq<uint8>, extra: seq<uint8>, reader: AddressReader)
    requires |token| <= 0xFFFF && |auth| <= 0xFFFF
    ensures ParseMessage(JoinBytes(self, token, auth) + extra, reader)
         == Ok(Read(ConnectRequest(self, token, auth), |JoinBytes(self, token, auth)|))
  {
    var body := EncodeNodeInfo(self) + (EncodeView(token) + (EncodeView(auth) + extra));
    JoinLayout(self, token, auth, extra);
    JoinBody(self, token, auth, extra);
    FramedOk(JoinReq, body, reader, ConnectRequest(self, token, auth), 8 + |EncodeView(token)| + |EncodeView(auth)|);
  }

  /** join(n, t, a): 63, then the node and the two views. */
  lemma JoinLayout(self: NodeInfo, token: seq<uint8>, auth: seq<uint8>, extra: seq<uint8>)
    ensures |JoinBytes(self, token, auth)| == 9 + |EncodeView(token)| + |EncodeView(auth)|
    ensures JoinBytes(self, token, auth) + extra
         == [Code(JoinReq)] + (EncodeNodeInfo(self) + (EncodeView(token) + (EncodeView(auth) + extra)))
  {
    var n, tk, au := EncodeNodeInfo(self), EncodeView(token), EncodeView(auth);
    HeaderIsCode(JoinReq);
    Nest4([63], n, tk, au, extra);
  }

  /** The body of a join request reads back as the node and both views. */
  lemma JoinBody(self: NodeInfo, token: seq<uint8>, auth: seq<uint8>, extra: seq<uint8>)
    requires |token| <= 0xFFFF && |auth| <= 0xFFFF
    ensures ParseJoinRequest(EncodeNodeInfo(self) + (EncodeView(token) + (EncodeView(auth) + extra)))
         == Ok(Read(ConnectRequest(self, token, auth), 8 + |EncodeView(token)| + |EncodeView(auth)|))
  {
    var n, tk, au := EncodeNodeInfo(self), EncodeView(token), EncodeView(auth);
    var body := n + (tk + (au + extra));
    NodeInfoRoundTrip(self, tk + (au + extra));
    ViewRoundTrip(token, au + extra);
    ViewRoundTrip(auth, extra);
    assert body[8..] == tk + (au + extra);
    assert body[8 + |tk|..] == au + extra;
  }

  /** join(n) writes 63, the node, and two empty views: thirteen bytes. */
  lemma JoinWithoutToken(self: NodeInfo)
    ensures JoinBytes(self, [], []) == [63] + EncodeNodeInfo(self) + [0, 0, 0, 0]
    ensures |JoinBytes(self, [], [])| == 13
  {
    HeaderIsCode(JoinReq);
    assert EncodeView([]) == [0, 0];
  }

  /** parse(joinAck(n)) is the acknowledgement {n}, nine bytes. */
  lemma JoinAckRoundTrip(self: NodeInfo, extra: seq<uint8>, reader: AddressReader)
    ensures ParseMessage(JoinAckBytes(self) + extra, reader) == Ok(Read(ConnectResponseAck(self), 9))
  {
    NodeLayout(MessageType.JoinAck, EncodeNodeInfo(self), extra);
    NodeInfoRoundTrip(self, extra);
    Framed(JoinAckBytes(self) + extra, MessageType.JoinAck, reader);
  }

  /** A header byte followed by an encoded body: the code first, the body and what follows after it. */
  lemma NodeLayout(t: MessageType, body: seq<uint8>, extra: seq<uint8>)
    ensures (HeaderBytes(t) + body + extra)[0] == Code(t)
    ensures (HeaderBytes(t) + body + extra)[1..] == body + extra
  {
    HeaderIsCode(t);
    Nest2([Code(t)], body, extra);
    Behead(Code(t), body + extra);
  }

  /** parse(advertise(n)) is the broadcast {n}, nine bytes. */
  lemma AdvertiseRoundTrip(node: NodeInfo, extra: seq<uint8>, reader: AddressReader)
    ensures ParseMessage(AdvertiseBytes(node) + extra, reader) == Ok(Read(BroadcastMessage(node), 9))
  {
    NodeLayout(Broadcast, EncodeNodeInfo(node), extra);
    NodeInfoRoundTrip(node, extra);
    Framed(AdvertiseBytes(node) + extra, Broadcast, reader);
  }

  /**
   * parse(joinNack(r)) is a rejection with r's domain and code but an empty
   * text, whatever text r had (of at most 65535 bytes).
   */
  lemma JoinNackRoundTrip(reason: ErrorReason, extra: seq<uint8>, reader: AddressReader)
    requires |reason.tag| <= 0xFFFF
    ensures ParseMessage(JoinNackBytes(reason) + extra, reader)
         == Ok(Read(ConnectResponseRejected(ErrorReason(reason.domain, reason.code, [])), |JoinNackBytes(reason)|))
  {
    NackLayout(reason, extra);
    RejectedBody(reason, extra);
    Framed(JoinNackBytes(reason) + extra, JoinNak, reader);
  }

  /** joinNack(r): 66, then the domain, the code and the text. */
  lemma NackLayout(reason: ErrorReason, extra: seq<uint8>)
    ensures |JoinNackBytes(reason)| == 19 + |reason.tag|
    ensures (JoinNackBytes(reason) + extra)[0] == 66
    ensures (JoinNackBytes(reason) + extra)[1..]
         == EncodeU64(reason.domain) + (EncodeU64(reason.code) + (EncodeView(reason.tag) + extra))
  {
    var d, c, t := EncodeU64(reason.domain), EncodeU64(reason.code), EncodeView(reason.tag);
    HeaderIsCode(JoinNak);
    Nest4([66], d, c, t, extra);
    Behead(66 as uint8, d + (c + (t + extra)));
  }

  /** The body of a rejection reads back as its domain, code and an empty text. */
  lemma RejectedBody(reason: ErrorReason, extra: seq<uint8>)
    requires |reason.tag| <= 0xFFFF
    ensures ParseConnectRejected(EncodeU64(reason.domain) + (EncodeU64(reason.code) + (EncodeView(reason.tag) + extra)))
         == Ok(Read(ConnectResponseRejected(ErrorReason(reason.domain, reason.code, [])), 18 + |reason.tag|))
  {
    var d, c, t := EncodeU64(reason.domain), EncodeU64(reason.code), EncodeView(reason.tag);
    var body := d + (c + (t + extra));
    U64RoundTrip(reason.domain, c + (t + extra));
    U64RoundTrip(reason.code, t + extra);
    ViewRoundTrip(reason.tag, extra);
    assert body[8..] == c + (t + extra);
    assert body[16..] == t + extra;
  }

  /**
   * joinRedirect(r, a) writes 65 and then the same bytes as joinNack(r): the
   * address adds nothing, whatever it is.
   */
  lemma RedirectWithoutAddress(reason: ErrorReason, redirectAddress: Address)
    ensures JoinRedirectBytes(reason, redirectAddress) == [65] + JoinNackBytes(reason)[1..]
    ensures |JoinRedirectBytes(reason, redirectAddress)| == 19 + |reason.tag|
  {
    var d, c, t := EncodeU64(reason.domain), EncodeU64(reason.code), EncodeView(reason.tag);
    var body := d + (c + t);
    assert JoinRedirectBytes(reason, redirectAddress) == [65] + body by {
      HeaderIsCode(MessageType.JoinRedirect);
      assert EncodeAddress(redirectAddress) == [];
      Nest3([65], d, c, t);
    }
    assert JoinNackBytes(reason)[1..] == body by {
      NackLayout(reason, []);
      assert JoinNackBytes(reason) + [] == JoinNackBytes(reason);
    }
    assert |body| == 18 + |reason.tag|;
  }

  /** So a rejection comes back as it was sent exactly when its reason has no text. */
  lemma JoinNackKeepsReasonIffNoText(reason: ErrorReason, reader: AddressReader)
    requires |reason.tag| <= 0xFFFF
    ensures ParseMessage(JoinNackBytes(reason), reader).Ok?
    ensures ParseMessage(JoinNackBytes(reason), reader).value.value == ConnectResponseRejected(reason)
        <==> reason.tag == []
  {
    JoinNackRoundTrip(reason, [], reader);
    assert JoinNackBytes(reason) + [] == JoinNackBytes(reason);
  }

  /**
   * ping(o, t) writes nine bytes and no ttl, but the parser reads a ttl byte
   * after them: the parse succeeds exactly when some byte follows, and takes
   * that byte as the ttl.
   */
  lemma PingShortfall(origin: NodeID, target: NodeID, extra: seq<uint8>, reader: AddressReader)
    ensures |PingBytes(origin, target)| == 9
    ensures ParseMessage(PingBytes(origin, target) + extra, reader).Ok? <==> |extra| >= 1
    ensures |extra| >= 1 ==>
      ParseMessage(PingBytes(origin, target) + extra, reader) == Ok(Read(PingMessage(origin, target, extra[0]), 10))
  {
    PairLayout(PingDirect, EncodeNodeID(origin), EncodeNodeID(target), extra);
    PingBody(origin, target, extra);
    Framed(PingBytes(origin, target) + extra, PingDirect, reader);
  }

  /** A header byte followed by two encoded fields. */
  lemma PairLayout(t: MessageType, a: seq<uint8>, b: seq<uint8>, extra: seq<uint8>)
    ensures |HeaderBytes(t) + a + b| == 1 + |a| + |b|
    ensures (HeaderBytes(t) + a + b + extra)[0] == Code(t)
    ensures (HeaderBytes(t) + a + b + extra)[1..] == a + (b + extra)
  {
    HeaderIsCode(t);
    Nest3([Code(t)], a, b, extra);
    Behead(Code(t), a + (b + extra));
  }

  /** The body of a ping is origin, target, then whatever byte comes next as the ttl. */
  lemma PingBody(origin: NodeID, target: NodeID, extra: seq<uint8>)
    ensures ParsePingMessage(EncodeNodeID(origin) + (EncodeNodeID(target) + extra)).Ok? <==> |extra| >= 1
    ensures |extra| >= 1 ==>
      ParsePingMessage(EncodeNodeID(origin) + (EncodeNodeID(target) + extra))
        == Ok(Read(PingMessage(origin, target, extra[0]), 9))
  {
    var o, t := EncodeNodeID(origin), EncodeNodeID(target);
    var body := o + (t + extra);
    NodeIDRoundTrip(origin, t + extra);
    assert body[4..] == t + extra;
    NodeIDRoundTrip(target, extra);
    assert body[8..] == extra;
  }

  /** A ping written alone does not parse. */
  lemma PingAloneFails(origin: NodeID, target: NodeID, reader: AddressReader)
    ensures ParseMessage(PingBytes(origin, target), reader).Err?
  {
    PingShortfall(origin, target, [], reader);
    assert PingBytes(origin, target) + [] == PingBytes(origin, target);
  }

  /** The same shortfall for pong: thirteen bytes written, fourteen read. */
  lemma PongShortfall(origin: NodeID, selfInfo: NodeInfo, extra: seq<uint8>, reader: AddressReader)
    ensures |PongBytes(origin, selfInfo)| == 13
    ensures ParseMessage(PongBytes(origin, selfInfo) + extra, reader).Ok? <==> |extra| >= 1
    ensures |extra| >= 1 ==>
      ParseMessage(PongBytes(origin, selfInfo) + extra, reader) == Ok(Read(PongMessage(origin, selfInfo, extra[0]), 14))
  {
    PairLayout(PongDirect, EncodeNodeID(origin), EncodeNodeInfo(selfInfo), extra);
    PongBody(origin, selfInfo, extra);
    Framed(PongBytes(origin, selfInfo) + extra, PongDirect, reader);
  }

  /** The body of a pong is origin, details, then whatever byte comes next as the ttl. */
  lemma PongBody(origin: NodeID, selfInfo: NodeInfo, extra: seq<uint8>)
    ensures ParsePongMessage(EncodeNodeID(origin) + (EncodeNodeInfo(selfInfo) + extra)).Ok? <==> |extra| >= 1
    ensures |extra| >= 1 ==>
      ParsePongMessage(EncodeNodeID(origin) + (EncodeNodeInfo(selfInfo) + extra))
        == Ok(Read(PongMessage(origin, selfInfo, extra[0]), 13))
  {
    var o, n := EncodeNodeID(origin), EncodeNodeInfo(selfInfo);
    var body := o + (n + extra);
    NodeIDRoundTrip(origin, n + extra);
    assert body[4..] == n + extra;
    NodeInfoRoundTrip(selfInfo, extra);
    assert body[12..] == extra;
  }

  lemma PongAloneFails(origin: NodeID, selfInfo: NodeInfo, reader: AddressReader)
    ensures ParseMessage(PongBytes(origin, selfInfo), reader).Err?
  {
    PongShortfall(origin, selfInfo, [], reader);
    assert PongBytes(origin, selfInfo) + [] == PongBytes(origin, selfInfo);
  }

  /** The ten bytes 67 1 0 0 0 2 0 0 0 5 are the ping from node 1 to node 2 with ttl 5. */
  lemma ExamplePing(reader: AddressReader)
    ensures ParseMessage([67, 1, 0, 0, 0, 2, 0, 0, 0, 5], reader) == Ok(Read(PingMessage(NodeID(1), NodeID(2), 5), 10))
  {
    HeaderIsCode(PingDirect);
    assert EncodeNodeID(NodeID(1)) == [1, 0, 0, 0];
    assert EncodeNodeID(NodeID(2)) == [2, 0, 0, 0];
    assert PingBytes(NodeID(1), NodeID(2)) + [5] == [67, 1, 0, 0, 0, 2, 0, 0, 0, 5];
    PingShortfall(NodeID(1), NodeID(2), [5], reader);
  }

  /** An empty buffer fails before anything is read. */
  lemma EmptyBufferFails(reader: AddressReader)
    ensures ParseMessage([], reader).Err?
  {
  }

  /** A buffer of 128 zero bytes fails: 0 names no message type. */
  lemma ZeroBufferFails(reader: AddressReader)
    ensures ParseMessage(seq(128, _ => 0), reader).Err?
  {
    var zeros: seq<uint8> := seq(128, _ => 0);
    assert zeros[0] == 0;
    assert FromCode(0).None?;
  }

  /** The size a writer's fields report matches what it writes, for a join with small views. */
  lemma JoinSize(self: NodeInfo, token: seq<uint8>, auth: seq<uint8>)
    requires |token| <= 0xFFFF - SizeTypeBytes && |auth| <= 0xFFFF - SizeTypeBytes
    ensures |JoinBytes(self, token, auth)|
         == HeaderSize + ProtocolSizeNodeInfo(self) as nat + ProtocolSizeView(token) as nat + ProtocolSizeView(auth) as nat
  {
    HeaderIsCode(JoinReq);
  }
}
