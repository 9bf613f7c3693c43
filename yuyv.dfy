/**
 * The packed 4:2:2 layout `V4L2_PIX_FMT_YUYV` of the Linux Media
 * user-space API ("Image Formats"), the interleaved RGB24 layout the
 * converter produces, and the index arithmetic of the conversion loop.
 *
 * Pixels are numbered row-major, p = width * row + column. In YUYV every
 * two horizontally adjacent pixels share one 4-byte group Y0 U Y1 V, so
 * pixel p has its luma at byte 2p and the chroma of its group at bytes
 * 4(p/2)+1 and 4(p/2)+3. Rows are stored back to back (a row is exactly
 * 2 * width bytes).
 */
module Yuyv {
  import opened Colour

  /** Luma of pixel p. */
  function PixelY(raw: seq<byte>, p: nat): byte
    requires 4 * (p / 2) + 3 < |raw|
  {
    raw[2 * p]
  }

  /** Blue-difference chroma of pixel p, shared by the two pixels of its group. */
  function PixelU(raw: seq<byte>, p: nat): byte
    requires 4 * (p / 2) + 3 < |raw|
  {
    raw[4 * (p / 2) + 1]
  }

  /** Red-difference chroma of pixel p, shared by the two pixels of its group. */
  function PixelV(raw: seq<byte>, p: nat): byte
    requires 4 * (p / 2) + 3 < |raw|
  {
    raw[4 * (p / 2) + 3]
  }

  /** Channel c (0 red, 1 green, 2 blue) of pixel p, as its real value before it is stored. */
  function PixelValue(raw: seq<byte>, p: nat, c: nat): real
    requires c < 3 && 4 * (p / 2) + 3 < |raw|
  {
    Channel(c, PixelY(raw, p), PixelU(raw, p), PixelV(raw, p))
  }

  /** A raw frame holds at least `pixels` YUYV pixels, in whole groups. */
  predicate Holds(raw: seq<byte>, pixels: nat)
  {
    pixels % 2 == 0 && 2 * pixels <= |raw|
  }

  /**
   * The RGB24 image of the first `pixels` pixels of a YUYV frame: byte
   * 3p + c is channel c of pixel p, narrowed to an integer as C++ does.
   */
  function Rgb24(raw: seq<byte>, pixels: nat): (image: seq<int>)
    requires Holds(raw, pixels)
    ensures |image| == 3 * pixels
  {
    seq(3 * pixels, n requires 0 <= n < 3 * pixels => Truncate(PixelValue(raw, n / 3, n % 3)))
  }

  /** No channel of any pixel leaves the range a `uint8_t` conversion is defined on. */
  predicate Defined(raw: seq<byte>, pixels: nat)
    requires Holds(raw, pixels)
  {
    forall p, c :: 0 <= p < pixels && 0 <= c < 3 ==> Representable(PixelValue(raw, p, c))
  }

  /**
   * Byte k (0 .. 5) of the output of one step of the conversion loop,
   * for the group Y0 U Y1 V: R, G, B of Y0 followed by R, G, B of Y1,
   * both with the group's U and V.
   */
  function PairByte(y1: byte, u: byte, y2: byte, v: byte, k: nat): int
    requires k < 6
  {
    if k == 0 then Truncate(Red(y1, v))
    else if k == 1 then Truncate(Green(y1, u, v))
    else if k == 2 then Truncate(Blue(y1, u))
    else if k == 3 then Truncate(Red(y2, v))
    else if k == 4 then Truncate(Green(y2, u, v))
    else Truncate(Blue(y2, u))
  }

  /**
   * Byte k of the output of group g, which sits at bytes 4g .. 4g+3 of the
   * frame. A group with neutral chroma gives its first luma in bytes 0 .. 2
   * and its second luma in bytes 3 .. 5.
   */
  function GroupByte(raw: seq<byte>, g: nat, k: nat): (n: int)
    requires k < 6 && 4 * g + 3 < |raw|
    ensures raw[4 * g + 1] == 128 && raw[4 * g + 3] == 128 ==> n == if k < 3 then raw[4 * g] else raw[4 * g + 2]
  {
    PairByte(raw[4 * g], raw[4 * g + 1], raw[4 * g + 2], raw[4 * g + 3], k)
  }

  /**
   * The loop's group-by-group formulas agree with the pixel-wise format:
   * byte 6g + k of the RGB24 image is byte k of group g's output.
   */
  lemma GroupLayout(raw: seq<byte>, pixels: nat, g: nat, k: nat)
    requires Holds(raw, pixels) && 2 * g < pixels && k < 6
    ensures 6 * g + k < |Rgb24(raw, pixels)|
    ensures Rgb24(raw, pixels)[6 * g + k] == GroupByte(raw, g, k)
  {
    var p, c := 2 * g + k / 3, k % 3;
    assert (6 * g + k) / 3 == p && (6 * g + k) % 3 == c;
    assert p / 2 == g;
  }

  /**
   * A buffer of 3 * pixels bytes whose every group holds that group's
   * output is the RGB24 image: the group-wise loop computes exactly the
   * pixel-wise format.
   */
  lemma GroupsMakeRgb24(raw: seq<byte>, pixels: nat, s: seq<int>)
    requires Holds(raw, pixels) && |s| == 3 * pixels
    requires forall g, k :: 0 <= g < pixels / 2 && 0 <= k < 6 ==> s[6 * g + k] == GroupByte(raw, g, k)
    ensures s == Rgb24(raw, pixels)
  {
    forall n | 0 <= n < 3 * pixels
      ensures s[n] == Rgb24(raw, pixels)[n]
    {
      var g, k := n / 6, n % 6;
      assert n == 6 * g + k;
      GroupLayout(raw, pixels, g, k);
    }
  }

  /** The two pixels of a group see the same chroma, and differ only in which luma sample they take. */
  lemma SharedChroma(raw: seq<byte>, q: nat)
    requires q % 2 == 0 && 2 * q + 3 < |raw|
    ensures PixelU(raw, q) == PixelU(raw, q + 1) == raw[2 * q + 1]
    ensures PixelV(raw, q) == PixelV(raw, q + 1) == raw[2 * q + 3]
    ensures PixelY(raw, q) == raw[2 * q] && PixelY(raw, q + 1) == raw[2 * q + 2]
  {
    assert q / 2 * 4 == 2 * q && (q + 1) / 2 == q / 2;
  }

  /**
   * A frame whose chroma is neutral everywhere (U = V = 128) converts to
   * grey: every channel of pixel p is its luma, and no narrowing is undefined.
   */
  lemma GreyFrame(raw: seq<byte>, pixels: nat)
    requires Holds(raw, pixels)
    requires forall p :: 0 <= p < pixels ==> PixelU(raw, p) == 128 && PixelV(raw, p) == 128
    ensures Defined(raw, pixels)
    ensures forall n :: 0 <= n < 3 * pixels ==> Rgb24(raw, pixels)[n] == PixelY(raw, n / 3)
  {
    forall p, c | 0 <= p < pixels && 0 <= c < 3
      ensures Representable(PixelValue(raw, p, c)) && Truncate(PixelValue(raw, p, c)) == PixelY(raw, p)
    {
      NeutralChroma(PixelY(raw, p));
    }
    forall n | 0 <= n < 3 * pixels
      ensures Rgb24(raw, pixels)[n] == PixelY(raw, n / 3)
    {
      assert Truncate(PixelValue(raw, n / 3, n % 3)) == PixelY(raw, n / 3);
    }
  }

  /** When no narrowing is undefined, every byte of the RGB24 image is a `uint8_t`. */
  lemma DefinedFrameIsBytes(raw: seq<byte>, pixels: nat)
    requires Holds(raw, pixels) && Defined(raw, pixels)
    ensures forall n :: 0 <= n < |Rgb24(raw, pixels)| ==> 0 <= Rgb24(raw, pixels)[n] < 256
  {
    forall n | 0 <= n < 3 * pixels
      ensures 0 <= Rgb24(raw, pixels)[n] < 256
    {
      assert Representable(PixelValue(raw, n / 3, n % 3));
    }
  }

  // ---------------------------------------------------------------------
  // Index arithmetic of the loop. With b bytes per pixel, the pair of
  // pixels at row i and even column j starts at byte (width * b) * i + b * j
  // and spans 2b bytes: b = 2 for the raw frame, b = 3 for the output.

  /** Start of the pair at row i, column j, in a buffer of b bytes per pixel. */
  function Offset(width: nat, b: nat, i: nat, j: nat): nat
  {
    (width * b) * i + b * j
  }

  /** When 2g pixels precede the pair at (i, j), the pair starts at byte 2b * g. */
  lemma OffsetOfGroup(width: nat, b: nat, i: nat, j: nat, g: nat)
    requires 2 * g == width * i + j
    ensures Offset(width, b, i, j) == 2 * b * g
  {
    assert (width * b) * i == b * (width * i);
  }

  /** A position in a buffer: the pair at (row, column) and a byte within it. */
  datatype Slot = Slot(row: nat, column: nat, offset: nat)

  /** A pair position visited by the loop: row i < height, even column j < width, byte k < 2b. */
  predicate Visited(width: nat, height: nat, b: nat, s: Slot)
  {
    s.row < height && s.column < width && s.column % 2 == 0 && s.offset < 2 * b
  }

  /** Index of the byte at slot s. */
  function Index(width: nat, b: nat, s: Slot): nat
  {
    Offset(width, b, s.row, s.column) + s.offset
  }

  /** a * x grows by at least a for every step of x: a*x + a <= a*y when x < y. */
  lemma {:induction false} MulLess(a: nat, x: nat, y: nat)
    ensures x < y ==> a * x + a <= a * y
  {
    if x < y {
      if y > x + 1 {
        MulLess(a, x, y - 1);
        assert a * y == a * (y - 1) + a;
      } else {
        assert a * (x + 1) == a * x + a;
      }
    }
  }

  lemma MulLeq(a: nat, x: nat, y: nat)
    ensures x <= y ==> a * x <= a * y
  {
    MulLess(a, x, y);
  }

  /** Division by d has one answer: d*r + x with x < d determines r and x. */
  lemma DivUnique(d: nat, r1: nat, x1: nat, r2: nat, x2: nat)
    requires x1 < d && x2 < d && d * r1 + x1 == d * r2 + x2
    ensures r1 == r2 && x1 == x2
  {
    MulLess(d, r1, r2);
    MulLess(d, r2, r1);
  }

  /** The pair with number m starts at column 2m: b * (2 * m) == (2 * b) * m. */
  lemma PairNumber(b: nat, m: nat)
    ensures b * (2 * m) == (2 * b) * m
  {
  }

  /** Within a row, the pair at an even column short of the width ends before the row does. */
  lemma PairWithinRow(width: nat, b: nat, column: nat, offset: nat)
    requires width % 2 == 0 && column < width && column % 2 == 0 && offset < 2 * b
    ensures b * column + offset < width * b
  {
    MulLess(b, column + 1, width);
    assert b * (column + 1) == b * column + b;
    assert b * width == width * b;
  }

  /** Every visited slot lies inside a buffer of width * height * b bytes. */
  lemma SlotInBuffer(width: nat, height: nat, b: nat, s: Slot)
    requires width % 2 == 0 && Visited(width, height, b, s)
    ensures Index(width, b, s) < width * height * b
  {
    var d := width * b;
    PairWithinRow(width, b, s.column, s.offset);
    MulLess(d, s.row, height);
    assert d * height == width * height * b;
  }

  /** Two visited slots at the same index are the same slot: no byte is touched twice. */
  lemma SlotsDistinct(width: nat, height: nat, b: nat, s: Slot, t: Slot)
    requires width % 2 == 0 && Visited(width, height, b, s) && Visited(width, height, b, t)
    requires Index(width, b, s) == Index(width, b, t)
    ensures s == t
  {
    PairWithinRow(width, b, s.column, s.offset);
    PairWithinRow(width, b, t.column, t.offset);
    DivUnique(width * b, s.row, b * s.column + s.offset, t.row, b * t.column + t.offset);
    assert s.column == 2 * (s.column / 2) && t.column == 2 * (t.column / 2);
    PairNumber(b, s.column / 2);
    PairNumber(b, t.column / 2);
    DivUnique(2 * b, s.column / 2, s.offset, t.column / 2, t.offset);
  }

  /** Euclidean division of a natural number by a positive one. */
  lemma DivMod(n: nat, d: nat)
    requires d > 0
    ensures n / d >= 0 && 0 <= n % d < d && n == d * (n / d) + n % d
  {
  }

  /** A buffer of width * height * b bytes that has a byte n has nonzero dimensions. */
  lemma NonEmptyBuffer(width: nat, height: nat, b: nat, n: nat)
    requires n < width * height * b
    ensures width > 0 && b > 0 && width * b > 0
  {
    assert b == 0 ==> width * height * b == 0;
    assert width == 0 ==> width * height == 0;
    MulLess(width, 0, b);
  }

  /**
   * Every byte of a buffer of width * height * b bytes is at some visited
   * slot: together with SlotsDistinct, the loop touches each byte exactly once.
   */
  function SlotOf(width: nat, height: nat, b: nat, n: nat): (s: Slot)
    requires width % 2 == 0 && n < width * height * b
    ensures Visited(width, height, b, s) && Index(width, b, s) == n
  {
    NonEmptyBuffer(width, height, b, n);
    var d := width * b;
    DivMod(n, d);
    var row, rest := n / d, n % d;
    DivMod(rest, 2 * b);
    var pair, offset := rest / (2 * b), rest % (2 * b);
    PairNumber(b, pair);
    assert row < height by {
      assert d * height == width * height * b;
      MulLeq(d, height, row);
    }
    assert 2 * pair < width by {
      assert width == 2 * (width / 2);
      PairNumber(b, width / 2);
      MulLeq(2 * b, width / 2, pair);
    }
    Slot(row, 2 * pair, offset)
  }

  /**
   * The precondition on the frame length is tight: the last group the
   * loop reads ends at the last byte of a width * height * 2 byte frame.
   */
  lemma LastReadIsLastByte(width: nat, height: nat)
    requires width % 2 == 0 && width > 0 && height > 0
    ensures Visited(width, height, 2, Slot(height - 1, width - 2, 3))
    ensures Index(width, 2, Slot(height - 1, width - 2, 3)) == width * height * 2 - 1
  {
    assert (width * 2) * (height - 1) == width * height * 2 - width * 2;
  }
}
