/**
 * The per-channel arithmetic of the frame conversion: the full-range
 * (JFIF, ITU-T T.871 clause 7) YCbCr -> RGB equations with the coefficients
 * as the camera reader's code writes them, and the C++ conversion that stores a
 * floating-point channel value into a `uint8_t` output byte.
 */
module Colour {

  /** An unsigned 8-bit sample (`uint8_t`). */
  type byte = x: int | 0 <= x < 256

  /** R = Y + 1.402 (V - 128). */
  function Red(y: byte, v: byte): real
  {
    y as real + 1.402 * (v - 128) as real
  }

  /** G = Y - 0.34414 (U - 128) - 0.71414 (V - 128). */
  function Green(y: byte, u: byte, v: byte): real
  {
    y as real - 0.34414 * (u - 128) as real - 0.71414 * (v - 128) as real
  }

  /** B = Y + 1.772 (U - 128). */
  function Blue(y: byte, u: byte): real
  {
    y as real + 1.772 * (u - 128) as real
  }

  /** Channel c of one pixel: 0 is red, 1 green, 2 blue. */
  function Channel(c: nat, y: byte, u: byte, v: byte): real
    requires c < 3
  {
    if c == 0 then Red(y, v) else if c == 1 then Green(y, u, v) else Blue(y, u)
  }

  /**
   * A floating-point to unsigned-integer conversion in C++ discards the
   * fractional part (rounds toward zero). The conversion into `uint8_t`
   * is defined only when that truncated value is a byte, which is exactly
   * when the value lies strictly between -1 and 256.
   */
  function Truncate(x: real): (n: int)
    ensures 0.0 <= x ==> n as real <= x < n as real + 1.0
    ensures x < 0.0 ==> n as real - 1.0 < x <= n as real
    ensures 0 <= n < 256 <==> Representable(x)
  {
    if x >= 0.0 then x.Floor else -((-x).Floor)
  }

  /** The narrowing assignment of x to a `uint8_t` has defined behaviour. */
  predicate Representable(x: real)
  {
    -1.0 < x < 256.0
  }

  /** With neutral chroma every chroma term vanishes: R = G = B = Y exactly, and the byte stored is Y. */
  lemma NeutralChroma(y: byte)
    ensures Red(y, 128) == y as real && Green(y, 128, 128) == y as real && Blue(y, 128) == y as real
    ensures forall c :: 0 <= c < 3 ==> Representable(Channel(c, y, 128, 128)) && Truncate(Channel(c, y, 128, 128)) == y
  {
  }

  /**
   * How far each channel can move away from the luma: red by -179.456 ..
   * +178.054, green by -134.40156 .. +135.45984 and blue by -226.816 ..
   * +225.044, each bound reached at a chroma extreme. Red and blue sit on
   * the same side of the luma as V and U sit of 128.
   */
  lemma ChannelRange(y: byte, u: byte, v: byte)
    ensures y as real - 179.456 <= Red(y, v) <= y as real + 178.054
    ensures y as real - 134.40156 <= Green(y, u, v) <= y as real + 135.45984
    ensures y as real - 226.816 <= Blue(y, u) <= y as real + 225.044
    ensures Red(y, 0) == y as real - 179.456 && Red(y, 255) == y as real + 178.054
    ensures Green(y, 255, 255) == y as real - 134.40156 && Green(y, 0, 0) == y as real + 135.45984
    ensures Blue(y, 0) == y as real - 226.816 && Blue(y, 255) == y as real + 225.044
    ensures (v > 128 <==> Red(y, v) > y as real) && (v < 128 <==> Red(y, v) < y as real)
    ensures (u > 128 <==> Blue(y, u) > y as real) && (u < 128 <==> Blue(y, u) < y as real)
  {
  }

  /** R does not depend on U, and B does not depend on V. */
  lemma ChannelInputs(y: byte, u: byte, u': byte, v: byte, v': byte)
    ensures Channel(0, y, u, v) == Channel(0, y, u', v)
    ensures Channel(2, y, u, v) == Channel(2, y, u, v')
  {
  }

  /**
   * Each channel really uses the inputs it is written with: R grows with V,
   * B grows with U, G falls as either U or V grows, and all three grow with Y.
   */
  lemma ChannelMonotone(y: byte, y': byte, u: byte, u': byte, v: byte, v': byte)
    ensures v < v' ==> Red(y, v) < Red(y, v')
    ensures u < u' ==> Blue(y, u) < Blue(y, u')
    ensures u < u' ==> Green(y, u', v) < Green(y, u, v)
    ensures v < v' ==> Green(y, u, v') < Green(y, u, v)
    ensures y < y' ==> Red(y, v) < Red(y', v) && Green(y, u, v) < Green(y', u, v) && Blue(y, u) < Blue(y', u)
  {
  }

  /**
   * The sample Y = 76, U = 84, V = 255: red is 254.054 and is stored as 254,
   * green is 0.44638 and is stored as 0, but blue is -1.968, whose
   * conversion to `uint8_t` has no defined result.
   */
  lemma SaturatedRedSample()
    ensures Red(76, 255) == 254.054 && Truncate(Red(76, 255)) == 254
    ensures Green(76, 84, 255) == 0.44638 && Truncate(Green(76, 84, 255)) == 0
    ensures Blue(76, 84) == -1.968 && !Representable(Blue(76, 84))
  {
  }
}
