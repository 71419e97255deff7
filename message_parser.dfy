/**
 * MessageParser: reads the one-byte header, then the body the type byte
 * names. `ParseMessage` says what a parse of a byte sequence gives and how
 * many bytes it takes; `Parse` reads through a ByteReader and is proved to
 * agree with it. A failed read anywhere makes the whole parse fail.
 */
module MessageParser {
  import opened Ints
  import opened Wrappers
  import opened Bytes
  import opened NodeIdentity
  import opened NetworkAddress
  import opened Decoding
  import opened Gossip

  /** MessageParser::Error: carries nothing. */
  datatype ParseError = ParseError

  function Need<T>(o: Option<T>): (r: Result<T, ParseError>)
    ensures r.Ok? <==> o.Some?
    ensures r.Ok? ==> r.value == o.value
  {
    if o.Some? then Ok(o.value) else Err(ParseError)
  }

  /** parseMessageHeader: fails on an empty buffer, else takes the type byte as it is. */
  function ParseHeader(bytes: seq<uint8>): (r: Result<Read<MessageHeader>, ParseError>)
    ensures r.Ok? <==> |bytes| >= HeaderSize
    ensures r.Ok? ==> r.value.used == HeaderSize && r.value.value.typeCode == bytes[0]
  {
    if |bytes| < HeaderSize then Err(ParseError) else Ok(Read(MessageHeader(bytes[0]), HeaderSize))
  }

  /** The body of a join request: the node, then the token and the auth views. */
  function ParseJoinRequest(rest: seq<uint8>): (r: Result<Read<Message>, ParseError>)
    ensures r.Ok? ==> r.value.used <= |rest| && r.value.value.ConnectRequest?
  {
    var node :- Need(DecodeNodeInfo(rest));
    var token :- Need(DecodeView(rest[8..]));
    var auth :- Need(DecodeView(rest[8 + token.used..]));
    Ok(Read(ConnectRequest(node.value, token.value, auth.value), 8 + token.used + auth.used))
  }

  /** The body of a join acknowledgement: the accepting node. */
  function ParseJoinAck(rest: seq<uint8>): (r: Result<Read<Message>, ParseError>)
    ensures r.Ok? <==> |rest| >= 8
    ensures r.Ok? ==> r.value.used == 8 && r.value.value.ConnectResponseAck?
  {
    var node :- Need(DecodeNodeInfo(rest));
    Ok(Read(ConnectResponseAck(node.value), 8))
  }

  /**
   * The body of a redirect: the address, the reason's domain and code, and
   * its text. The text is read but the message keeps an empty tag.
   */
  function ParseJoinRedirect(rest: seq<uint8>, reader: AddressReader): (r: Result<Read<Message>, ParseError>)
    ensures r.Ok? ==> r.value.used <= |rest| && r.value.value.ConnectResponseRedirect?
    ensures r.Ok? ==> r.value.value.redirectReason.tag == []
  {
    var address :- Need(DecodeAddress(reader, rest));
    var at := address.used;
    var domain :- Need(DecodeU64(rest[at..]));
    var code :- Need(DecodeU64(rest[at + 8..]));
    var text :- Need(DecodeView(rest[at + 16..]));
    Ok(Read(ConnectResponseRedirect(address.value, ErrorReason(domain.value, code.value, [])), at + 16 + text.used))
  }

  /** The body of a rejection: the reason's domain, code and text; the message keeps an empty tag. */
  function ParseConnectRejected(rest: seq<uint8>): (r: Result<Read<Message>, ParseError>)
    ensures r.Ok? ==> r.value.used <= |rest| && r.value.value.ConnectResponseRejected?
    ensures r.Ok? ==> r.value.value.reason.tag == []
  {
    var domain :- Need(DecodeU64(rest));
    var code :- Need(DecodeU64(rest[8..]));
    var text :- Need(DecodeView(rest[16..]));
    Ok(Read(ConnectResponseRejected(ErrorReason(domain.value, code.value, [])), 16 + text.used))
  }

  /** The body of a broadcast: the advertised node. */
  function ParseBroadcastMessage(rest: seq<uint8>): (r: Result<Read<Message>, ParseError>)
    ensures r.Ok? <==> |rest| >= 8
    ensures r.Ok? ==> r.value.used == 8 && r.value.value.BroadcastMessage?
  {
    var node :- Need(DecodeNodeInfo(rest));
    Ok(Read(BroadcastMessage(node.value), 8))
  }

  /** The body of a ping: origin, target and a ttl byte, nine bytes in all. */
  function ParsePingMessage(rest: seq<uint8>): (r: Result<Read<Message>, ParseError>)
    ensures r.Ok? <==> |rest| >= 9
    ensures r.Ok? ==> r.value.used == 9 && r.value.value.PingMessage? && r.value.value.pingTtl == rest[8]
  {
    var origin :- Need(DecodeNodeID(rest));
    var target :- Need(DecodeNodeID(rest[4..]));
    var ttl :- Need(DecodeU8(rest[8..]));
    Ok(Read(PingMessage(origin.value, target.value, ttl.value), 9))
  }

  /** The body of a pong: origin, the node's details and a ttl byte, thirteen bytes in all. */
  function ParsePongMessage(rest: seq<uint8>): (r: Result<Read<Message>, ParseError>)
    ensures r.Ok? <==> |rest| >= 13
    ensures r.Ok? ==> r.value.used == 13 && r.value.value.PongMessage? && r.value.value.pongTtl == rest[12]
  {
    var origin :- Need(DecodeNodeID(rest));
    var details :- Need(DecodeNodeInfo(rest[4..]));
    var ttl :- Need(DecodeU8(rest[12..]));
    Ok(Read(PongMessage(origin.value, details.value, ttl.value), 13))
  }

  /** The body parser for a message type. */
  function ParseBody(t: MessageType, rest: seq<uint8>, reader: AddressReader): (r: Result<Read<Message>, ParseError>)
    ensures r.Ok? ==> r.value.used <= |rest|
  {
    match t
    case JoinReq => ParseJoinRequest(rest)
    case JoinAck => ParseJoinAck(rest)
    case JoinRedirect => ParseJoinRedirect(rest, reader)
    case JoinNak => ParseConnectRejected(rest)
    case PingDirect => ParsePingMessage(rest)
    case PongDirect => ParsePongMessage(rest)
    case Broadcast => ParseBroadcastMessage(rest)
  }

  /**
   * parse: the header, then the body its type byte names; a byte that names
   * no message type is an error.
   */
  function ParseMessage(bytes: seq<uint8>, reader: AddressReader): (r: Result<Read<Message>, ParseError>)
    ensures r.Ok? ==> |bytes| >= HeaderSize && FromCode(bytes[0]).Some?
    ensures r.Ok? ==> HeaderSize <= r.value.used <= |bytes|
  {
    var header :- ParseHeader(bytes);
    var t :- Need(FromCode(header.value.typeCode));
    var body :- ParseBody(t, bytes[HeaderSize..], reader);
    Ok(Read(body.value, HeaderSize + body.used))
  }

  // ---------------------------------------------------------------------
  // The parser over a ByteReader
  // ---------------------------------------------------------------------

  /** A parse method did what its parsing function says: on success, the value and the bytes used. */
  ghost predicate Yields<T>(r: Result<T, ParseError>, spec: Result<Read<T>, ParseError>, before: nat, after: nat)
  {
    match spec
    case Err(_) => r.Err?
    case Ok(rd) => r == Ok(rd.value) && after == before + rd.used
  }

  method ReadJoinRequest(reader: ByteReader) returns (r: Result<Message, ParseError>)
    requires reader.Valid()
    modifies reader
    ensures reader.Valid()
    ensures Yields(r, ParseJoinRequest(old(reader.Rest())), old(reader.position), reader.position)
  {
    ghost var start := reader.Rest();
    var decoder := new Decoder(reader);
    var node := decoder.ReadNodeInfo();
    if node.None? {
      return Err(ParseError);
    }
    assert reader.Rest() == start[8..];
    var token := decoder.ReadMemoryView();
    if token.None? {
      return Err(ParseError);
    }
    ghost var t := 8 + DecodeView(start[8..]).value.used;
    assert reader.Rest() == start[t..];
    var auth := decoder.ReadMemoryView();
    if auth.None? {
      return Err(ParseError);
    }
    r := Ok(ConnectRequest(node.value, token.value, auth.value));
  }

  method ReadJoinAck(reader: ByteReader) returns (r: Result<Message, ParseError>)
    requires reader.Valid()
    modifies reader
    ensures reader.Valid()
    ensures Yields(r, ParseJoinAck(old(reader.Rest())), old(reader.position), reader.position)
  {
    var decoder := new Decoder(reader);
    var node := decoder.ReadNodeInfo();
    if node.None? {
      return Err(ParseError);
    }
    r := Ok(ConnectResponseAck(node.value));
  }

  method ReadJoinRedirect(reader: ByteReader, addressReader: AddressReader) returns (r: Result<Message, ParseError>)
    requires reader.Valid()
    modifies reader
    ensures reader.Valid()
    ensures Yields(r, ParseJoinRedirect(old(reader.Rest()), addressReader), old(reader.position), reader.position)
  {
    ghost var start := reader.Rest();
    var decoder := new Decoder(reader);
    var address := decoder.ReadAddress(addressReader);
    if address.None? {
      return Err(ParseError);
    }
    ghost var at := DecodeAddress(addressReader, start).value.used;
    assert reader.Rest() == start[at..];
    var domain := decoder.ReadU64();
    if domain.None? {
      return Err(ParseError);
    }
    assert reader.Rest() == start[at + 8..];
    var code := decoder.ReadU64();
    if code.None? {
      return Err(ParseError);
    }
    assert reader.Rest() == start[at + 16..];
    var text := decoder.ReadStringView();
    if text.None? {
      return Err(ParseError);
    }
    r := Ok(ConnectResponseRedirect(address.value, ErrorReason(domain.value, code.value, [])));
  }

  method ReadConnectRejected(reader: ByteReader) returns (r: Result<Message, ParseError>)
    requires reader.Valid()
    modifies reader
    ensures reader.Valid()
    ensures Yields(r, ParseConnectRejected(old(reader.Rest())), old(reader.position), reader.position)
  {
    ghost var start := reader.Rest();
    var decoder := new Decoder(reader);
    var domain := decoder.ReadU64();
    if domain.None? {
      return Err(ParseError);
    }
    assert reader.Rest() == start[8..];
    var code := decoder.ReadU64();
    if code.None? {
      return Err(ParseError);
    }
    assert reader.Rest() == start[16..];
    var text := decoder.ReadStringView();
    if text.None? {
      return Err(ParseError);
    }
    r := Ok(ConnectResponseRejected(ErrorReason(domain.value, code.value, [])));
  }

  method ReadBroadcastMessage(reader: ByteReader) returns (r: Result<Message, ParseError>)
    requires reader.Valid()
    modifies reader
    ensures reader.Valid()
    ensures Yields(r, ParseBroadcastMessage(old(reader.Rest())), old(reader.position), reader.position)
  {
    var decoder := new Decoder(reader);
    var node := decoder.ReadNodeInfo();
    if node.None? {
      return Err(ParseError);
    }
    r := Ok(BroadcastMessage(node.value));
  }

  method ReadPingMessage(reader: ByteReader) returns (r: Result<Message, ParseError>)
    requires reader.Valid()
    modifies reader
    ensures reader.Valid()
    ensures Yields(r, ParsePingMessage(old(reader.Rest())), old(reader.position), reader.position)
  {
    ghost var start := reader.Rest();
    var decoder := new Decoder(reader);
    var origin := decoder.ReadNodeID();
    if origin.None? {
      return Err(ParseError);
    }
    assert reader.Rest() == start[4..];
    var target := decoder.ReadNodeID();
    if target.None? {
      return Err(ParseError);
    }
    assert reader.Rest() == start[8..];
    var ttl := decoder.ReadU8();
    if ttl.None? {
      return Err(ParseError);
    }
    r := Ok(PingMessage(origin.value, target.value, ttl.value));
  }

  method ReadPongMessage(reader: ByteReader) returns (r: Result<Message, ParseError>)
    requires reader.Valid()
    modifies reader
    ensures reader.Valid()
    ensures Yields(r, ParsePongMessage(old(reader.Rest())), old(reader.position), reader.position)
  {
    ghost var start := reader.Rest();
    var decoder := new Decoder(reader);
    var origin := decoder.ReadNodeID();
    if origin.None? {
      return Err(ParseError);
    }
    assert reader.Rest() == start[4..];
    var details := decoder.ReadNodeInfo();
    if details.None? {
      return Err(ParseError);
    }
    assert reader.Rest() == start[12..];
    var ttl := decoder.ReadU8();
    if ttl.None? {
      return Err(ParseError);
    }
    r := Ok(PongMessage(origin.value, details.value, ttl.value));
  }

  /** MessageParser::parseMessageHeader. */
  method ParseMessageHeader(buffer: ByteReader) returns (r: Result<MessageHeader, ParseError>)
    requires buffer.Valid()
    modifies buffer
    ensures buffer.Valid()
    ensures Yields(r, ParseHeader(old(buffer.Rest())), old(buffer.position), buffer.position)
  {
    if buffer.Remaining() < HeaderSize {
      return Err(ParseError);
    }
    Pow256Values();
    ghost var start := buffer.Rest();
    var code := buffer.ReadLE(1);
    assert FromLE(start[..1]) == start[0] by { assert start[..1][1..] == []; }
    r := Ok(MessageHeader(code.value as uint8));
  }

  /** MessageParser::parse, with the way an address is read given as `addressReader`. */
  method Parse(reader: ByteReader, addressReader: AddressReader) returns (r: Result<Message, ParseError>)
    requires reader.Valid()
    modifies reader
    ensures reader.Valid()
    ensures Yields(r, ParseMessage(old(reader.Rest()), addressReader), old(reader.position), reader.position)
  {
    ghost var start := reader.Rest();
    var header := ParseMessageHeader(reader);
    if header.Err? {
      return Err(header.error);
    }
    assert reader.Rest() == start[HeaderSize..];
    match FromCode(header.value.typeCode)
    case None =>
      r := Err(ParseError);
    case Some(t) =>
      match t {
        case JoinReq => r := ReadJoinRequest(reader);
        case JoinAck => r := ReadJoinAck(reader);
        case JoinRedirect => r := ReadJoinRedirect(reader, addressReader);
        case JoinNak => r := ReadConnectRejected(reader);
        case PingDirect => r := ReadPingMessage(reader);
        case PongDirect => r := ReadPongMessage(reader);
        case Broadcast => r := ReadBroadcastMessage(reader);
      }
  }
}
