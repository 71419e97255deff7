/**
 * The gossip decoder: integers little-endian, byte views behind a 16-bit
 * length, node identities as their 32-bit value. `DecodeX(rest)` says what
 * reading an X from the bytes `rest` gives and how many bytes it takes; the
 * `Decoder` class reads through a `ByteReader` and is proved to do exactly that.
 */
module Decoding {
  import opened Ints
  import opened Wrappers
  import opened Bytes
  import opened NodeIdentity
  import opened NetworkAddress

  /** A decoded value and the number of bytes it took. */
  datatype Read<+T> = Read(value: T, used: nat)

  /** Gossip::size_type, the width of a length prefix. */
  const SizeTypeBytes: nat := 2

  lemma Pow256Values()
    ensures Pow256(1) == 0x100 && Pow256(2) == 0x1_0000
    ensures Pow256(4) == 0x1_0000_0000 && Pow256(8) == 0x1_0000_0000_0000_0000
  {
  }

  /** An unsigned integer of `width` bytes, little-endian; fails on too few bytes. */
  function DecodeUint(rest: seq<uint8>, width: nat): (r: Option<Read<nat>>)
    ensures r.Some? <==> width <= |rest|
    ensures r.Some? ==> r.value.used == width && r.value.value < Pow256(width)
  {
    if width <= |rest| then Some(Read(FromLE(rest[..width]), width)) else None
  }

  function DecodeU8(rest: seq<uint8>): (r: Option<Read<uint8>>)
    ensures r.Some? <==> |rest| >= 1
    ensures r.Some? ==> r.value.used == 1 && r.value.value == rest[0]
  {
    Pow256Values();
    var n :- DecodeUint(rest, 1);
    assert FromLE(rest[..1]) == rest[0] by { assert rest[..1][1..] == []; }
    Some(Read(n.value as uint8, 1))
  }

  function DecodeU16(rest: seq<uint8>): (r: Option<Read<uint16>>)
    ensures r.Some? <==> |rest| >= 2
    ensures r.Some? ==> r.value.used == 2 && r.value.value as nat == FromLE(rest[..2])
  {
    Pow256Values();
    var n :- DecodeUint(rest, 2);
    Some(Read(n.value as uint16, 2))
  }

  function DecodeU32(rest: seq<uint8>): (r: Option<Read<uint32>>)
    ensures r.Some? <==> |rest| >= 4
    ensures r.Some? ==> r.value.used == 4 && r.value.value as nat == FromLE(rest[..4])
  {
    Pow256Values();
    var n :- DecodeUint(rest, 4);
    Some(Read(n.value as uint32, 4))
  }

  function DecodeU64(rest: seq<uint8>): (r: Option<Read<uint64>>)
    ensures r.Some? <==> |rest| >= 8
    ensures r.Some? ==> r.value.used == 8 && r.value.value as nat == FromLE(rest[..8])
  {
    Pow256Values();
    var n :- DecodeUint(rest, 8);
    Some(Read(n.value as uint64, 8))
  }

  /**
   * A byte view: a 16-bit length n, then n bytes. Fails when the length
   * does not fit or fewer than n bytes follow it.
   */
  function DecodeView(rest: seq<uint8>): (r: Option<Read<seq<uint8>>>)
    ensures r.Some? <==> |rest| >= 2 && FromLE(rest[..2]) <= |rest| - 2
    ensures r.Some? ==>
      r.value.used == 2 + |r.value.value| && r.value.used <= |rest| &&
      |r.value.value| == FromLE(rest[..2]) && r.value.value == rest[2..r.value.used]
  {
    var n :- DecodeU16(rest);
    if n.value as nat <= |rest| - 2 then Some(Read(rest[2..2 + n.value as nat], 2 + n.value as nat)) else None
  }

  function DecodeNodeID(rest: seq<uint8>): (r: Option<Read<NodeID>>)
    ensures r.Some? <==> |rest| >= 4
    ensures r.Some? ==> r.value.used == 4 && r.value.value.value as nat == FromLE(rest[..4])
  {
    var v :- DecodeU32(rest);
    Some(Read(NodeID(v.value), 4))
  }

  /** A node: its identity, then its generation. */
  function DecodeNodeInfo(rest: seq<uint8>): (r: Option<Read<NodeInfo>>)
    ensures r.Some? <==> |rest| >= 8
    ensures r.Some? ==>
      r.value.used == 8 && r.value.value.id.value as nat == FromLE(rest[..4]) &&
      r.value.value.gen as nat == FromLE(rest[4..8])
  {
    var id :- DecodeNodeID(rest);
    var gen :- DecodeU32(rest[4..]);
    assert rest[4..][..4] == rest[4..8];
    Some(Read(NodeInfo(id.value, gen.value), 8))
  }

  /**
   * Decoder::read(Address*) is declared but has no definition, so the model
   * takes the way an address is read as a parameter.
   */
  type AddressReader = seq<uint8> -> Option<Read<Address>>

  /** An address read with `reader`; a claim to have used more bytes than there are fails. */
  function DecodeAddress(reader: AddressReader, rest: seq<uint8>): (r: Option<Read<Address>>)
    ensures r.Some? ==> r.value.used <= |rest| && reader(rest) == r
    ensures r.None? ==> reader(rest).None? || reader(rest).value.used > |rest|
  {
    var a := reader(rest);
    if a.Some? && a.value.used <= |rest| then a else None
  }

  /** A read method did what its decoding function says: on success, the value and the bytes used. */
  ghost predicate Follows<T>(r: Option<T>, spec: Option<Read<T>>, before: nat, after: nat)
  {
    match spec
    case None => r.None?
    case Some(rd) => r == Some(rd.value) && after == before + rd.used
  }

  /** Decoder: typed reads from a ByteReader. After a failed read the cursor position is unspecified. */
  class Decoder {
    const src: ByteReader

    constructor(src: ByteReader)
      ensures this.src == src
    {
      this.src := src;
    }

    method ReadU8() returns (r: Option<uint8>)
      requires src.Valid()
      modifies src
      ensures src.Valid()
      ensures Follows(r, DecodeU8(old(src.Rest())), old(src.position), src.position)
    {
      Pow256Values();
      var v := src.ReadLE(1);
      r := if v.Some? then Some(v.value as uint8) else None;
    }

    method ReadU16() returns (r: Option<uint16>)
      requires src.Valid()
      modifies src
      ensures src.Valid()
      ensures Follows(r, DecodeU16(old(src.Rest())), old(src.position), src.position)
    {
      Pow256Values();
      var v := src.ReadLE(2);
      r := if v.Some? then Some(v.value as uint16) else None;
    }

    method ReadU32() returns (r: Option<uint32>)
      requires src.Valid()
      modifies src
      ensures src.Valid()
      ensures Follows(r, DecodeU32(old(src.Rest())), old(src.position), src.position)
    {
      Pow256Values();
      var v := src.ReadLE(4);
      r := if v.Some? then Some(v.value as uint32) else None;
    }

    method ReadU64() returns (r: Option<uint64>)
      requires src.Valid()
      modifies src
      ensures src.Valid()
      ensures Follows(r, DecodeU64(old(src.Rest())), old(src.position), src.position)
    {
      Pow256Values();
      var v := src.ReadLE(8);
      r := if v.Some? then Some(v.value as uint64) else None;
    }

    /** read(StringView*): the view is taken over the bytes after the length, then the cursor skips it. */
    method ReadStringView() returns (r: Option<seq<uint8>>)
      requires src.Valid()
      modifies src
      ensures src.Valid()
      ensures Follows(r, DecodeView(old(src.Rest())), old(src.position), src.position)
    {
      ghost var start := src.Rest();
      var size := src.ReadLE(SizeTypeBytes);
      if size.None? {
        return None;
      }
      var remaining := src.Rest();
      assert remaining == start[2..];
      var ok := src.Advance(size.value);
      r := if ok then Some(remaining[..size.value]) else None;
      assert ok ==> remaining[..size.value] == start[2..2 + size.value];
    }

    /** read(MemoryView*): the view is set only when the data fits; the advance then fails or succeeds. */
    method ReadMemoryView() returns (r: Option<seq<uint8>>)
      requires src.Valid()
      modifies src
      ensures src.Valid()
      ensures Follows(r, DecodeView(old(src.Rest())), old(src.position), src.position)
    {
      ghost var start := src.Rest();
      var size := ReadU16();
      if size.None? {
        return None;
      }
      assert src.Rest() == start[2..];
      var view: seq<uint8> := [];
      if size.value as nat <= src.Remaining() {
        view := src.Rest()[..size.value];
      }
      var ok := src.Advance(size.value as nat);
      r := if ok then Some(view) else None;
      assert ok ==> view == start[2..2 + size.value as nat];
    }

    /** read(NodeID*): the identity's 32-bit value. */
    method ReadNodeID() returns (r: Option<NodeID>)
      requires src.Valid()
      modifies src
      ensures src.Valid()
      ensures Follows(r, DecodeNodeID(old(src.Rest())), old(src.position), src.position)
    {
      var v := ReadU32();
      r := if v.Some? then Some(NodeID(v.value)) else None;
    }

    /** read(NodeInfo*): the identity, then, only if that succeeded, the generation. */
    method ReadNodeInfo() returns (r: Option<NodeInfo>)
      requires src.Valid()
      modifies src
      ensures src.Valid()
      ensures Follows(r, DecodeNodeInfo(old(src.Rest())), old(src.position), src.position)
    {
      ghost var start := src.Rest();
      var id := ReadNodeID();
      if id.None? {
        return None;
      }
      assert src.Rest() == start[4..];
      var gen := ReadU32();
      r := if gen.Some? then Some(NodeInfo(id.value, gen.value)) else None;
    }

    /** read(Address*), with the way an address is read given as `reader`. */
    method ReadAddress(reader: AddressReader) returns (r: Option<Address>)
      requires src.Valid()
      modifies src
      ensures src.Valid()
      ensures Follows(r, DecodeAddress(reader, old(src.Rest())), old(src.position), src.position)
    {
      var a := DecodeAddress(reader, src.Rest());
      if a.None? {
        return None;
      }
      var ok := src.Advance(a.value.used);
      r := Some(a.value.value);
    }
  }
}
