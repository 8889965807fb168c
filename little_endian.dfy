/**
  Machine integers and their little-endian byte encoding, as used by
  `i32::to_le_bytes` and `i32::from_le_bytes` in the RCON frame header.
 */
module LittleEndian {

  /** One byte of a `Vec<u8>`. */
  type byte = x: int | 0 <= x < 0x100

  /** A Rust `i32`. */
  type i32 = x: int | -0x8000_0000 <= x < 0x8000_0000

  const I32_MAX: int := 0x7FFF_FFFF

  /** The largest length a `Vec<u8>` can have (`isize::MAX` on a 64-bit target). */
  const ISIZE_MAX: int := 0x7FFF_FFFF_FFFF_FFFF

  /** `x as usize` for an `i32` on a 64-bit target: negative values are sign-extended. */
  function AsUsize(x: i32): (u: nat)
    ensures u < 0x1_0000_0000_0000_0000
    ensures 0 <= x ==> u == x
    ensures x < 0 ==> u > ISIZE_MAX
  {
    if x < 0 then x + 0x1_0000_0000_0000_0000 else x
  }

  /** The four bytes of `x.to_le_bytes()`: two's complement, least significant byte first. */
  function EncodeI32(x: i32): (r: seq<byte>)
    ensures |r| == 4
    ensures r[0] as int + 0x100 * r[1] as int + 0x1_0000 * r[2] as int + 0x100_0000 * r[3] as int
         == if x < 0 then x + 0x1_0000_0000 else x
    ensures x < 0 <==> r[3] >= 0x80
  {
    var u := if x < 0 then x + 0x1_0000_0000 else x;
    var u1 := u / 0x100;
    var u2 := u1 / 0x100;
    [u % 0x100, u1 % 0x100, u2 % 0x100, u2 / 0x100]
  }

  /**
    `i32::from_le_bytes(b)`: the bytes are the base-256 digits of `x` in two's
    complement, and the top bit of the last byte is the sign.
   */
  function DecodeI32(b: seq<byte>): (x: i32)
    requires |b| == 4
    ensures (if x < 0 then x + 0x1_0000_0000 else x)
         == b[0] as int + 0x100 * b[1] as int + 0x1_0000 * b[2] as int + 0x100_0000 * b[3] as int
    ensures x < 0 <==> b[3] >= 0x80
  {
    var u := b[0] as int + 0x100 * (b[1] as int + 0x100 * (b[2] as int + 0x100 * b[3] as int));
    if u < 0x8000_0000 then u else u - 0x1_0000_0000
  }

  /** Decoding undoes encoding. */
  lemma DecodeEncode(x: i32)
    ensures DecodeI32(EncodeI32(x)) == x
  {
  }

  /** Encoding undoes decoding: every four bytes are the encoding of exactly one `i32`. */
  lemma EncodeDecode(b: seq<byte>)
    requires |b| == 4
    ensures EncodeI32(DecodeI32(b)) == b
  {
    var u2 := b[2] as int + 0x100 * b[3] as int;
    var u1 := b[1] as int + 0x100 * u2;
    DigitSplit(b[2], b[3]);
    DigitSplit(b[1], u2);
    DigitSplit(b[0], u1);
  }

  /** The last base-256 digit of `lo + 0x100 * hi` is `lo`, and the rest is `hi`. */
  lemma DigitSplit(lo: byte, hi: nat)
    ensures (lo as int + 0x100 * hi) % 0x100 == lo
    ensures (lo as int + 0x100 * hi) / 0x100 == hi
  {
  }

}
