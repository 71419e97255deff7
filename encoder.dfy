/**
 * The gossip encoder: the inverse of the decoder. Integers go out
 * little-endian, byte views behind their length as a 16-bit value, node
 * identities as their 32-bit value. Addresses are not encoded yet: the
 * encoder writes nothing for them and counts them as 0 bytes.
 */
module Encoding {
  import opened Ints
  import opened Wrappers
  import opened Bytes
  import opened NodeIdentity
  import opened NetworkAddress
  import opened Decoding

  function EncodeU8(v: uint8): seq<uint8> { ToLE(v as nat, 1) }
  function EncodeU16(v: uint16): seq<uint8> { ToLE(v as nat, 2) }
  function EncodeU32(v: uint32): seq<uint8> { ToLE(v as nat, 4) }
  function EncodeU64(v: uint64): seq<uint8> { ToLE(v as nat, 8) }

  /** A view: its length narrowed to Gossip::size_type, then its bytes. */
  function EncodeView(s: seq<uint8>): seq<uint8>
  {
    ToLE(|s| % 0x1_0000, SizeTypeBytes) + s
  }

  function EncodeNodeID(id: NodeID): seq<uint8> { EncodeU32(id.value) }

  /** operator<<(Address): not implemented, writes nothing. */
  function EncodeAddress(a: Address): seq<uint8> { [] }

  function EncodeNodeInfo(n: NodeInfo): seq<uint8> { EncodeNodeID(n.id) + EncodeU32(n.gen) }

  // ---------------------------------------------------------------------
  // protocolSize: the number of bytes the encoding of a value takes
  // ---------------------------------------------------------------------

  function ProtocolSizeU8(v: uint8): (n: uint16)
    ensures n as nat == |EncodeU8(v)|
  {
    1
  }

  function ProtocolSizeU16(v: uint16): (n: uint16)
    ensures n as nat == |EncodeU16(v)|
  {
    2
  }

  function ProtocolSizeU32(v: uint32): (n: uint16)
    ensures n as nat == |EncodeU32(v)|
  {
    4
  }

  function ProtocolSizeU64(v: uint64): (n: uint16)
    ensures n as nat == |EncodeU64(v)|
  {
    8
  }

  /**
   * The length prefix plus the bytes, computed in Gossip::size_type: the sum
   * wraps at 2^16, so it matches the encoding only for views of at most
   * 65533 bytes.
   */
  function ProtocolSizeView(s: seq<uint8>): (n: uint16)
    ensures |s| <= 0xFFFF - SizeTypeBytes ==> n as nat == |EncodeView(s)|
    ensures |s| > 0xFFFF - SizeTypeBytes ==> n as nat < |EncodeView(s)|
  {
    ToUint16(SizeTypeBytes + |s|)
  }

  function ProtocolSizeNodeID(id: NodeID): (n: uint16)
    ensures n as nat == |EncodeNodeID(id)|
  {
    ProtocolSizeU32(id.value)
  }

  /** protocolSize(Address): 0, like the stub encoder. */
  function ProtocolSizeAddress(a: Address): (n: uint16)
    ensures n as nat == |EncodeAddress(a)|
  {
    0
  }

  function ProtocolSizeNodeInfo(node: NodeInfo): (n: uint16)
    ensures n as nat == |EncodeNodeInfo(node)|
  {
    ProtocolSizeNodeID(node.id) + ProtocolSizeU32(node.gen)
  }

  // ---------------------------------------------------------------------
  // Decoding what was encoded
  // ---------------------------------------------------------------------

  lemma UintRoundTrip(v: nat, width: nat, rest: seq<uint8>)
    requires v < Pow256(width)
    ensures DecodeUint(ToLE(v, width) + rest, width) == Some(Read(v, width))
  {
    assert (ToLE(v, width) + rest)[..width] == ToLE(v, width);
    FromToLE(v, width);
  }

  /** Reading back what was written gives the value, whatever follows it. */
  lemma U8RoundTrip(v: uint8, rest: seq<uint8>)
    ensures DecodeU8(EncodeU8(v) + rest) == Some(Read(v, 1))
  {
    Pow256Values();
    UintRoundTrip(v as nat, 1, rest);
  }

  lemma U16RoundTrip(v: uint16, rest: seq<uint8>)
    ensures DecodeU16(EncodeU16(v) + rest) == Some(Read(v, 2))
  {
    Pow256Values();
    UintRoundTrip(v as nat, 2, rest);
  }

  lemma U32RoundTrip(v: uint32, rest: seq<uint8>)
    ensures DecodeU32(EncodeU32(v) + rest) == Some(Read(v, 4))
  {
    Pow256Values();
    UintRoundTrip(v as nat, 4, rest);
  }

  lemma U64RoundTrip(v: uint64, rest: seq<uint8>)
    ensures DecodeU64(EncodeU64(v) + rest) == Some(Read(v, 8))
  {
    Pow256Values();
    UintRoundTrip(v as nat, 8, rest);
  }

  /** A view no longer than 65535 bytes reads back whole. */
  lemma ViewRoundTrip(s: seq<uint8>, rest: seq<uint8>)
    requires |s| <= 0xFFFF
    ensures DecodeView(EncodeView(s) + rest) == Some(Read(s, 2 + |s|))
  {
    var n := |s|;
    assert n % 0x1_0000 == n;
    assert EncodeView(s) == ToLE(n, SizeTypeBytes) + s;
    LengthPrefix(n, s, rest);
    assert s[..n] == s;
  }

  /** The first two bytes of a view prefixed by n read as n, and the n bytes after them are the view. */
  lemma LengthPrefix(n: nat, s: seq<uint8>, rest: seq<uint8>)
    requires n <= |s| && n < 0x1_0000
    ensures DecodeView(ToLE(n, SizeTypeBytes) + s + rest) == Some(Read(s[..n], 2 + n))
  {
    Pow256Values();
    var p := ToLE(n, SizeTypeBytes);
    var b := p + s + rest;
    assert b[..2] == p;
    FromToLE(n, 2);
    assert b[2..2 + n] == s[..n];
  }

  /** A longer view is read back with its length taken modulo 2^16: the bytes are cut short. */
  lemma ViewTruncated(s: seq<uint8>, rest: seq<uint8>)
    requires |s| > 0xFFFF
    ensures DecodeView(EncodeView(s) + rest) == Some(Read(s[..|s| % 0x1_0000], 2 + |s| % 0x1_0000))
  {
    LengthPrefix(|s| % 0x1_0000, s, rest);
  }

  lemma NodeIDRoundTrip(id: NodeID, rest: seq<uint8>)
    ensures DecodeNodeID(EncodeNodeID(id) + rest) == Some(Read(id, 4))
  {
    U32RoundTrip(id.value, rest);
  }

  lemma NodeInfoRoundTrip(node: NodeInfo, rest: seq<uint8>)
    ensures DecodeNodeInfo(EncodeNodeInfo(node) + rest) == Some(Read(node, 8))
  {
    var b := EncodeNodeInfo(node) + rest;
    assert b == EncodeNodeID(node.id) + (EncodeU32(node.gen) + rest);
    NodeIDRoundTrip(node.id, EncodeU32(node.gen) + rest);
    assert b[4..] == EncodeU32(node.gen) + rest;
    U32RoundTrip(node.gen, rest);
  }

  /** The converse: a successful read of a node means its bytes are that node's encoding. */
  lemma NodeInfoDecodedIsEncoded(b: seq<uint8>)
    requires DecodeNodeInfo(b).Some?
    ensures b[..8] == EncodeNodeInfo(DecodeNodeInfo(b).value.value)
  {
    var node := DecodeNodeInfo(b).value.value;
    ToFromLE(b[..4]);
    ToFromLE(b[4..8]);
    assert b[..8] == b[..4] + b[4..8];
  }

  /** The converse for views: a successful read means the bytes are that view's encoding. */
  lemma ViewDecodedIsEncoded(b: seq<uint8>)
    requires DecodeView(b).Some?
    ensures var rd := DecodeView(b).value; b[..rd.used] == EncodeView(rd.value)
  {
    var rd := DecodeView(b).value;
    ToFromLE(b[..2]);
    assert |rd.value| < 0x1_0000 by { assert |rd.value| == FromLE(b[..2]) < Pow256(2); Pow256Values(); }
    assert b[..rd.used] == b[..2] + rd.value;
  }

  // ---------------------------------------------------------------------
  // The Encoder class
  // ---------------------------------------------------------------------

  /** Encoder: appends encodings to a ByteWriter; each operator<< returns the encoder itself. */
  class Encoder {
    const dest: ByteWriter

    constructor(dest: ByteWriter)
      ensures this.dest == dest
    {
      this.dest := dest;
    }

    method WriteU8(v: uint8) returns (e: Encoder)
      modifies dest
      ensures e == this && dest.buffer == old(dest.buffer) + EncodeU8(v)
    {
      dest.WriteLE(v as nat, 1);
      e := this;
    }

    method WriteU16(v: uint16) returns (e: Encoder)
      modifies dest
      ensures e == this && dest.buffer == old(dest.buffer) + EncodeU16(v)
    {
      dest.WriteLE(v as nat, 2);
      e := this;
    }

    method WriteU32(v: uint32) returns (e: Encoder)
      modifies dest
      ensures e == this && dest.buffer == old(dest.buffer) + EncodeU32(v)
    {
      dest.WriteLE(v as nat, 4);
      e := this;
    }

    method WriteU64(v: uint64) returns (e: Encoder)
      modifies dest
      ensures e == this && dest.buffer == old(dest.buffer) + EncodeU64(v)
    {
      dest.WriteLE(v as nat, 8);
      e := this;
    }

    /** operator<<(StringView) and operator<<(MemoryView): the length, then the bytes. */
    method WriteView(s: seq<uint8>) returns (e: Encoder)
      modifies dest
      ensures e == this && dest.buffer == old(dest.buffer) + EncodeView(s)
    {
      e := WriteU16((|s| % 0x1_0000) as uint16);
      dest.Write(s);
    }

    method WriteNodeID(id: NodeID) returns (e: Encoder)
      modifies dest
      ensures e == this && dest.buffer == old(dest.buffer) + EncodeNodeID(id)
    {
      e := WriteU32(id.value);
    }

    /** operator<<(Address): not implemented; the buffer is left as it is. */
    method WriteAddress(a: Address) returns (e: Encoder)
      ensures e == this && EncodeAddress(a) == []
    {
      e := this;
    }

    method WriteNodeInfo(node: NodeInfo) returns (e: Encoder)
      modifies dest
      ensures e == this && dest.buffer == old(dest.buffer) + EncodeNodeInfo(node)
    {
      e := WriteNodeID(node.id);
      e := WriteU32(node.gen);
    }
  }
}
