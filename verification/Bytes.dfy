/** Bytes, std::string contents and the 32-bit network byte order used on the wire. */
module Bytes {
  const INT_MAX: int := 0x7fff_ffff

  type byte = x: int | 0 <= x < 0x100
  type int32 = x: int | -0x8000_0000 <= x <= 0x7fff_ffff

  /** htonl followed by memcpy: two's complement, most significant byte first. */
  function ToNet(v: int32): (b: seq<byte>)
    ensures |b| == 4
  {
    var u0 := if v < 0 then v + 0x1_0000_0000 else v;
    var u1 := u0 / 0x100;
    var u2 := u1 / 0x100;
    [u2 / 0x100, u2 % 0x100, u1 % 0x100, u0 % 0x100]
  }

  /** getInt32FromNetByte: memcpy followed by ntohl. */
  function FromNet(b: seq<byte>): int32
    requires |b| == 4
  {
    var u := ((b[0] as int * 0x100 + b[1]) * 0x100 + b[2]) * 0x100 + b[3];
    if u > INT_MAX then u - 0x1_0000_0000 else u
  }

  /** The four bytes are the digits of the unsigned value in base 256, the most significant first. */
  lemma NetBigEndian(v: int32)
    ensures var b := ToNet(v);
            b[0] as int * 0x100_0000 + b[1] as int * 0x1_0000 + b[2] as int * 0x100 + b[3]
            == if v < 0 then v + 0x1_0000_0000 else v
  {
    var u0 := if v < 0 then v + 0x1_0000_0000 else v;
    var u1 := u0 / 0x100;
    assert u0 == u1 * 0x100 + u0 % 0x100;
    assert u1 == u1 / 0x100 * 0x100 + u1 % 0x100;
  }

  lemma NetRoundTrip(v: int32)
    ensures FromNet(ToNet(v)) == v
  {
    var u0 := if v < 0 then v + 0x1_0000_0000 else v;
    var u1 := u0 / 0x100;
    assert u0 == u1 * 0x100 + u0 % 0x100;
    assert u1 == u1 / 0x100 * 0x100 + u1 % 0x100;
  }

  lemma NetRoundTripBytes(b: seq<byte>)
    requires |b| == 4
    ensures ToNet(FromNet(b)) == b
  {
    var u2 := b[0] as int * 0x100 + b[1];
    var u1 := u2 * 0x100 + b[2];
    var u0 := u1 * 0x100 + b[3];
    assert u0 / 0x100 == u1 && u0 % 0x100 == b[3];
    assert u1 / 0x100 == u2 && u1 % 0x100 == b[2];
    assert u2 / 0x100 == b[0] && u2 % 0x100 == b[1];
  }
}
