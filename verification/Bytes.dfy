/** Octets, the big-endian integers of the wire formats, and the growing byte
    vector the encoders append to. */
module Bytes {
  type byte = b: int | 0 <= b < 0x100
  type u16 = v: int | 0 <= v < 0x1_0000
  type u32 = v: int | 0 <= v < 0x1_0000_0000

  function BigEndian16(v: u16): (s: seq<byte>)
    ensures |s| == 2
  {
    [v / 0x100, v % 0x100]
  }

  function ReadU16(s: seq<byte>): u16
    requires |s| >= 2
  {
    var hi: int := s[0];
    0x100 * hi + s[1]
  }

  function BigEndian32(v: u32): (s: seq<byte>)
    ensures |s| == 4
  {
    BigEndian16(v / 0x1_0000) + BigEndian16(v % 0x1_0000)
  }

  function ReadU32(s: seq<byte>): u32
    requires |s| >= 4
  {
    0x1_0000 * (ReadU16(s) as int) + ReadU16(s[2..])
  }

  /** Reading and writing a 16-bit field are inverse, whatever follows it. */
  lemma U16RoundTrip(s: seq<byte>, v: u16)
    ensures |s| >= 2 ==> (ReadU16(s) == v <==> s[..2] == BigEndian16(v))
  {
  }

  /** Reading and writing a 32-bit field are inverse, whatever follows it. */
  lemma U32RoundTrip(s: seq<byte>, v: u32)
    ensures |s| >= 4 ==> (ReadU32(s) == v <==> s[..4] == BigEndian32(v))
  {
    hide BigEndian16;
    if |s| >= 4 {
      U16RoundTrip(s, v / 0x1_0000);
      U16RoundTrip(s[2..], v % 0x1_0000);
      assert s[2..][..2] == s[2..4];
      EqualHalves(s[..2], s[2..4], BigEndian16(v / 0x1_0000), BigEndian16(v % 0x1_0000));
      assert s[..4] == s[..2] + s[2..4];
    }
  }

  lemma EqualHalves(a: seq<byte>, b: seq<byte>, c: seq<byte>, d: seq<byte>)
    requires |a| == |c|
    ensures a + b == c + d <==> a == c && b == d
  {
    assert a == (a + b)[..|a|] && c == (c + d)[..|c|];
    assert b == (a + b)[|a|..] && d == (c + d)[|c|..];
  }

  /** The field as the four shifted and masked octets of its value. */
  lemma BigEndian32Shifts(v: u32)
    ensures BigEndian32(v) == [v / 0x100_0000 % 0x100, v / 0x1_0000 % 0x100, v / 0x100 % 0x100, v % 0x100]
  {
    var hi, lo := v / 0x1_0000, v % 0x1_0000;
    assert v / 0x100_0000 == hi / 0x100;
    assert v / 0x100 == 0x100 * hi + lo / 0x100;
  }

  /** The std::vector<uint8_t> an encoder is handed by reference. */
  class ByteBuffer {
    var data: seq<byte>

    constructor ()
      ensures data == []
    {
      data := [];
    }

    method Push(b: byte)
      modifies this
      ensures data == old(data) + [b]
    {
      data := data + [b];
    }

    method Append(bytes: seq<byte>)
      modifies this
      ensures data == old(data) + bytes
    {
      data := data + bytes;
    }

    method AppendU16(v: u16)
      modifies this
      ensures data == old(data) + BigEndian16(v)
    {
      Push(v / 0x100);
      Push(v % 0x100);
    }
  }
}
