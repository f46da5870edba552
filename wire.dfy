/**
 * Byte-level vocabulary shared by the frame synchroniser and the field
 * decoder of the air-quality sensor reader: the Rust `u8` and `u16` types
 * and the constants of the sensor's 24-byte response frame.
 */
module Wire {

  /** An unsigned 8-bit value (Rust `u8`). */
  type Byte = b: int | 0 <= b < 0x100

  /** An unsigned 16-bit value (Rust `u16`). */
  type U16 = v: int | 0 <= v < 0x1_0000

  /** Length of one sensor response frame, and of the accumulation buffer. */
  const FrameLen: nat := 24

  /** The two magic bytes that open every frame ("BM"). */
  const Head1: Byte := 0x42
  const Head2: Byte := 0x4D

  /** A raw frame: 24 bytes whose first two are the magic header. */
  predicate IsFrame(f: seq<Byte>)
  {
    |f| == FrameLen && f[0] == Head1 && f[1] == Head2
  }

  /** The header starts at index `i` of `s`. */
  predicate HeaderAt(s: seq<Byte>, i: nat)
    requires i + 1 < |s|
  {
    s[i] == Head1 && s[i + 1] == Head2
  }

  /** No header starts anywhere in `s`. */
  predicate NoHeader(s: seq<Byte>)
  {
    forall i: nat :: i + 1 < |s| ==> !HeaderAt(s, i)
  }
}
