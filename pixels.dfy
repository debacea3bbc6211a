/**
 Pixels of an RGB image and the two per-pixel transforms of LSB steganography:
 rewriting the least-significant bit of the red channel (embedding) and
 reading it back as a black or white stencil pixel (extraction).
 */
module Pixels {

  /** One 8-bit channel intensity. */
  type Byte = n: int | 0 <= n < 256

  /** An RGB pixel as the image library hands it out: a triple of channel values. */
  datatype Pixel = Pixel(red: Byte, green: Byte, blue: Byte)

  const Black: Pixel := Pixel(0, 0, 0)
  const White: Pixel := Pixel(255, 255, 255)

  /** A stencil pixel the embedder classifies: exactly black or exactly white. */
  predicate IsBinary(p: Pixel) {
    p == Black || p == White
  }

  /** The bit a white stencil pixel stands for (1) or a black one (0). */
  function BitValue(bit: bool): (v: nat)
    ensures v < 2
  {
    if bit then 1 else 0
  }

  /**
   Replaces the least-significant bit of a red value by `bit`: the upper seven
   bits are kept, the LSB becomes `bit`, so the value moves by at most one
   intensity level and stays a byte.
   */
  function SetLsb(r: Byte, bit: bool): (s: Byte)
    ensures s / 2 == r / 2
    ensures s % 2 == BitValue(bit)
    ensures r - 1 <= s <= r + 1
  {
    r - r % 2 + BitValue(bit)
  }

  /**
   The stencil pixel recovered from an encoded pixel: always pure black or pure
   white, white exactly when the red channel is odd.
   */
  function DecodePixel(p: Pixel): (q: Pixel)
    ensures IsBinary(q)
    ensures q == White <==> p.red % 2 == 1
  {
    if p.red % 2 == 0 then Black else White
  }

  /** The two properties in SetLsb's contract pin its result down: no other byte has them. */
  lemma SetLsbUnique(r: Byte, bit: bool, s: Byte)
    requires s / 2 == r / 2 && s % 2 == BitValue(bit)
    ensures s == SetLsb(r, bit)
  {
  }

  /** Setting an LSB to a fixed bit twice is the same as setting it once. */
  lemma SetLsbIdempotent(r: Byte, bit: bool)
    ensures SetLsb(SetLsb(r, bit), bit) == SetLsb(r, bit)
  {
  }

  /** A decoded pixel depends on the parity of red and on nothing else. */
  lemma DecodeDependsOnlyOnRedParity(p: Pixel, q: Pixel)
    ensures DecodePixel(p) == DecodePixel(q) <==> p.red % 2 == q.red % 2
  {
  }

  /** Per-pixel round trip: decoding a pixel whose red LSB was set from a binary stencil pixel gives that pixel back. */
  lemma DecodeSetLsb(r: Byte, green: Byte, blue: Byte, stencil: Pixel)
    requires IsBinary(stencil)
    ensures DecodePixel(Pixel(SetLsb(r, stencil == White), green, blue)) == stencil
  {
  }
}
