/**
 * Big-endian signed 32-bit integers, the only numeric field type of a
 * FreeSurfer annotation file: `struct.unpack('>i', ...)` reads four bytes,
 * most significant first, as a two's-complement value.
 */
module Int32Codec {

  /** One byte of the file. */
  type byte = b: int | 0 <= b < 256

  const TwoTo31: int := 0x8000_0000
  const TwoTo32: int := 0x1_0000_0000

  /** The values a signed 32-bit field can hold. */
  predicate IsInt32(v: int) {
    -TwoTo31 <= v < TwoTo31
  }

  /** The four bytes read as an unsigned big-endian number. */
  function Unsigned(b: seq<byte>): (u: int)
    requires |b| == 4
    ensures 0 <= u < TwoTo32
  {
    ((b[0] as int * 256 + b[1]) * 256 + b[2]) * 256 + b[3]
  }

  /** The value of `struct.unpack('>i', b)[0]`. */
  function DecodeInt32(b: seq<byte>): (v: int)
    requires |b| == 4
    ensures IsInt32(v)
    ensures v < 0 <==> b[0] >= 128
  {
    var u := Unsigned(b);
    if u >= TwoTo31 then u - TwoTo32 else u
  }

  /** The four bytes `struct.pack('>i', v)` would write. */
  function EncodeInt32(v: int): (b: seq<byte>)
    requires IsInt32(v)
    ensures |b| == 4
    ensures v < 0 <==> b[0] >= 128
  {
    var u := if v < 0 then v + TwoTo32 else v;
    [u / 256 / 256 / 256, u / 256 / 256 % 256, u / 256 % 256, u % 256]
  }

  /** Decoding what was encoded gives the value back. */
  lemma DecodeEncode(v: int)
    requires IsInt32(v)
    ensures DecodeInt32(EncodeInt32(v)) == v
  {
    var u := if v < 0 then v + TwoTo32 else v;
    var q1, q2 := u / 256, u / 256 / 256;
    assert q1 == q2 * 256 + q1 % 256;
    assert u == q1 * 256 + u % 256;
    assert Unsigned(EncodeInt32(v)) == u;
  }

  /** Encoding what was decoded gives the bytes back. */
  lemma EncodeDecode(b: seq<byte>)
    requires |b| == 4
    ensures EncodeInt32(DecodeInt32(b)) == b
  {
    var u := Unsigned(b);
    var q1 := (b[0] as int * 256 + b[1]) * 256 + b[2];
    var q2 := b[0] as int * 256 + b[1];
    assert u / 256 == q1 && u % 256 == b[3];
    assert q1 / 256 == q2 && q1 % 256 == b[2];
    assert q2 / 256 == b[0] && q2 % 256 == b[1];
  }

  /** Two fields decode to the same value only when their bytes agree. */
  lemma DecodeInjective(b1: seq<byte>, b2: seq<byte>)
    requires |b1| == 4 && |b2| == 4
    requires DecodeInt32(b1) == DecodeInt32(b2)
    ensures b1 == b2
  {
    EncodeDecode(b1);
    EncodeDecode(b2);
  }
}
