/**
 * The per-frame conversion performed by `Screen::_process`: the memory-mapped
 * YUYV capture buffer is turned, pair of pixels by pair of pixels, into a
 * freshly sized RGB24 buffer of WIDTH * HEIGHT * 3 bytes.
 */
module Camera {
  import opened Colour
  import opened Yuyv

  /** The capture resolution. */
  const WIDTH: nat := 640
  const HEIGHT: nat := 480

  /** The six writes of one loop step: the pair's RGB bytes at o .. o+5, nothing else changes. */
  method StoreGroup(buffer: array<int>, o: nat, y1: byte, u: byte, y2: byte, v: byte)
    requires o + 6 <= buffer.Length
    modifies buffer
    ensures forall k :: 0 <= k < 6 ==> buffer[o + k] == PairByte(y1, u, y2, v, k)
    ensures forall n :: 0 <= n < buffer.Length && !(o <= n < o + 6) ==> buffer[n] == old(buffer[n])
  {
    buffer[o] := Truncate(Red(y1, v));
    buffer[o + 1] := Truncate(Green(y1, u, v));
    buffer[o + 2] := Truncate(Blue(y1, u));
    buffer[o + 3] := Truncate(Red(y2, v));
    buffer[o + 4] := Truncate(Green(y2, u, v));
    buffer[o + 5] := Truncate(Blue(y2, u));
  }

  /** The capture object: its mapped frame buffer `_frame`. */
  class Screen {
    /** The buffer shared with the driver, `_query.length` bytes long. */
    var frame: array<byte>

    /**
     * Mapping the single capture buffer the device describes and clearing
     * it: the frame has the reported length and is all zero.
     */
    constructor (mappedLength: nat)
      ensures fresh(frame) && frame.Length == mappedLength
      ensures forall k :: 0 <= k < mappedLength ==> frame[k] == 0
    {
      frame := new byte[mappedLength](_ => 0);
    }

    /**
     * One frame step: a buffer of exactly 640 * 480 * 3 = 921600 bytes
     * holding the RGB24 image of the frame. The mapped length is never
     * compared with what the loop reads, so the frame must hold a whole
     * 640 x 480 YUYV image.
     */
    method Process() returns (buffer: array<int>)
      requires frame.Length >= WIDTH * HEIGHT * 2
      ensures fresh(buffer) && buffer.Length == 921600
      ensures buffer[..] == Rgb24(frame[..], WIDTH * HEIGHT)
    {
      buffer := new int[WIDTH * HEIGHT * 3];
      ghost var raw := frame[..];
      var i := 0;
      ghost var groups := 0;  // groups converted so far
      while i < HEIGHT
        invariant i <= HEIGHT && 2 * groups == WIDTH * i
        invariant forall g, k :: 0 <= g < groups && 0 <= k < 6 ==> buffer[6 * g + k] == GroupByte(raw, g, k)
      {
        var j := 0;
        while j < WIDTH
          invariant j <= WIDTH && j % 2 == 0 && 2 * groups == WIDTH * i + j
          invariant forall g, k :: 0 <= g < groups && 0 <= k < 6 ==> buffer[6 * g + k] == GroupByte(raw, g, k)
        {
          var r := Offset(WIDTH, 2, i, j);
          var o := Offset(WIDTH, 3, i, j);
          OffsetOfGroup(WIDTH, 2, i, j, groups);
          OffsetOfGroup(WIDTH, 3, i, j, groups);
          SlotInBuffer(WIDTH, HEIGHT, 2, Slot(i, j, 3));
          SlotInBuffer(WIDTH, HEIGHT, 3, Slot(i, j, 5));
          var y1 := frame[r];
          var u := frame[r + 1];
          var y2 := frame[r + 2];
          var v := frame[r + 3];
          StoreGroup(buffer, o, y1, u, y2, v);
          j := j + 2;
          groups := groups + 1;
        }
        assert WIDTH * (i + 1) == WIDTH * i + WIDTH;
        i := i + 1;
      }
      GroupsMakeRgb24(raw, WIDTH * HEIGHT, buffer[..]);
    }
  }
}
