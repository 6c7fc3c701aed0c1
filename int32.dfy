/** A C `int` as the four bytes it occupies in memory on a little-endian
    host, two's complement. Client and server run on the same host, so both
    use this one encoding. */
module Int32 {
  import opened Net

  const Two31: int := 0x8000_0000
  const Two32: int := 0x1_0000_0000

  predicate IsInt32(x: int)
  {
    -Two31 <= x < Two31
  }

  /** The value two's-complement wrap-around gives x. */
  function Wrap(x: int): (r: int)
    ensures IsInt32(r)
    ensures (r - x) % Two32 == 0
    ensures IsInt32(x) ==> r == x
  {
    var u := x % Two32;
    if u >= Two31 then u - Two32 else u
  }

  /** The unsigned value of four bytes, least significant first. */
  function Unsigned(b: seq<byte>): (u: int)
    requires |b| == 4
    ensures 0 <= u < Two32
  {
    b[0] as int + 256 * (b[1] as int + 256 * (b[2] as int + 256 * b[3] as int))
  }

  /** The bytes of x. */
  function Encode(x: int): (b: seq<byte>)
    requires IsInt32(x)
    ensures |b| == 4
  {
    var u := if x < 0 then x + Two32 else x;
    [(u % 256) as byte, (u / 256 % 256) as byte, (u / 65536 % 256) as byte, (u / 16777216) as byte]
  }

  /** The int whose bytes b are. */
  function Decode(b: seq<byte>): (x: int)
    requires |b| == 4
    ensures IsInt32(x)
  {
    var u := Unsigned(b);
    if u >= Two31 then u - Two32 else u
  }

  lemma UnsignedOfDigits(u: int)
    requires 0 <= u < Two32
    ensures u % 256 + 256 * (u / 256 % 256 + 256 * (u / 65536 % 256 + 256 * (u / 16777216))) == u
  {
    var u1 := u / 256;
    assert u == u % 256 + 256 * u1;
    var u2 := u1 / 256;
    assert u1 == u1 % 256 + 256 * u2;
    assert u / 65536 == u2;
    var u3 := u2 / 256;
    assert u2 == u2 % 256 + 256 * u3;
    assert u / 16777216 == u3;
  }

  /** Decoding the bytes of x gives x back. */
  lemma DecodeEncode(x: int)
    requires IsInt32(x)
    ensures Decode(Encode(x)) == x
  {
    var u := if x < 0 then x + Two32 else x;
    UnsignedOfDigits(u);
    assert Unsigned(Encode(x)) == u;
  }

  /** Every four bytes are the bytes of the int they decode to. */
  lemma EncodeDecode(b: seq<byte>)
    requires |b| == 4
    ensures Encode(Decode(b)) == b
  {
    var u := Unsigned(b);
    var b0, b1, b2, b3 := b[0] as int, b[1] as int, b[2] as int, b[3] as int;
    assert u == b0 + 256 * (b1 + 256 * (b2 + 256 * b3));
    assert u % 256 == b0 && u / 256 == b1 + 256 * (b2 + 256 * b3);
    assert u / 256 % 256 == b1 && u / 65536 == b2 + 256 * b3;
    assert u / 65536 % 256 == b2 && u / 16777216 == b3;
  }
}
