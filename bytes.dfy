/**
 * Solace's ByteReader and ByteWriter as the codec uses them: a reader is a
 * byte buffer with a cursor, a writer a buffer that bytes are appended to.
 * Integers go on the wire little-endian.
 */
module Bytes {
  import opened Ints
  import opened Wrappers

  function Pow256(n: nat): (p: nat)
    ensures p >= 1
  {
    if n == 0 then 1 else 256 * Pow256(n - 1)
  }

  /** The little-endian value of a byte sequence: least significant byte first. */
  function FromLE(b: seq<uint8>): (v: nat)
    ensures v < Pow256(|b|)
    decreases |b|
  {
    if |b| == 0 then 0 else b[0] + 256 * FromLE(b[1..])
  }

  /** The width low bytes of v, least significant first. */
  function ToLE(v: nat, width: nat): (b: seq<uint8>)
    ensures |b| == width
    decreases width
  {
    if width == 0 then [] else [(v % 256) as uint8] + ToLE(v / 256, width - 1)
  }

  /** Writing a value that fits and reading it back gives the value. */
  lemma {:induction false} FromToLE(v: nat, width: nat)
    requires v < Pow256(width)
    ensures FromLE(ToLE(v, width)) == v
    decreases width
  {
    if width > 0 {
      FromToLE(v / 256, width - 1);
      assert ToLE(v, width)[1..] == ToLE(v / 256, width - 1);
    }
  }

  /** Reading bytes and writing the value back at the same width gives the bytes. */
  lemma {:induction false} ToFromLE(b: seq<uint8>)
    ensures ToLE(FromLE(b), |b|) == b
    decreases |b|
  {
    if |b| > 0 {
      ToFromLE(b[1..]);
      assert (b[0] + 256 * FromLE(b[1..])) / 256 == FromLE(b[1..]);
    }
  }

  /** A reader over a buffer; the cursor never passes the end. */
  class ByteReader {
    const data: seq<uint8>
    var position: nat

    ghost predicate Valid()
      reads this
    {
      position <= |data|
    }

    constructor(buffer: seq<uint8>)
      ensures data == buffer && position == 0 && Valid()
    {
      data := buffer;
      position := 0;
    }

    /** remaining(): the number of bytes after the cursor. */
    function Remaining(): nat
      requires Valid()
      reads this
    {
      |data| - position
    }

    /** viewRemaining(): the bytes after the cursor. */
    function Rest(): (r: seq<uint8>)
      requires Valid()
      reads this
      ensures |r| == Remaining()
    {
      data[position..]
    }

    /**
     * readLE: the next width bytes as a little-endian integer. With fewer
     * bytes left it fails and reads nothing.
     */
    method ReadLE(width: nat) returns (r: Option<nat>)
      requires Valid()
      modifies this
      ensures Valid()
      ensures width <= old(Remaining()) ==>
        r == Some(FromLE(old(Rest())[..width])) && position == old(position) + width
      ensures width > old(Remaining()) ==> r.None? && position == old(position)
    {
      if width <= |data| - position {
        assert data[position..][..width] == data[position..position + width];
        r := Some(FromLE(data[position..position + width]));
        position := position + width;
      } else {
        r := None;
      }
    }

    /** advance(n): move the cursor n bytes on; fails, without moving, past the end. */
    method Advance(n: nat) returns (ok: bool)
      requires Valid()
      modifies this
      ensures Valid()
      ensures ok <==> n <= old(Remaining())
      ensures ok ==> position == old(position) + n
      ensures !ok ==> position == old(position)
    {
      ok := n <= |data| - position;
      if ok {
        position := position + n;
      }
    }
  }

  /** A writer: the bytes written so far. */
  class ByteWriter {
    var buffer: seq<uint8>

    constructor()
      ensures buffer == []
    {
      buffer := [];
    }

    /** write: append the bytes. */
    method Write(bytes: seq<uint8>)
      modifies this
      ensures buffer == old(buffer) + bytes
    {
      buffer := buffer + bytes;
    }

    /** writeLE: append the width low bytes of v, little-endian. */
    method WriteLE(v: nat, width: nat)
      modifies this
      ensures buffer == old(buffer) + ToLE(v, width)
    {
      buffer := buffer + ToLE(v, width);
    }
  }
}
