# YUYV to RGB24 frame conversion of the V4L2 camera reader

This project models the per-frame colour conversion of the Godot V4L2 camera
reader. Each frame step takes the memory-mapped capture buffer `_frame`, which
holds a 640 x 480 image in the packed 4:2:2 layout `V4L2_PIX_FMT_YUYV` of the
Linux Media user-space API. It fills a freshly sized buffer of
640 * 480 * 3 = 921600 bytes with interleaved R, G, B.

The conversion visits every row `i` and every even column `j`. At each step it:
- reads the 4-byte group `Y0 U Y1 V` at `(WIDTH * 2) * i + 2 * j`;
- writes six bytes at `(WIDTH * 3) * i + 3 * j`.

The formulas are the full-range YCbCr to RGB equations of ITU-T T.871
(JFIF), clause 7, with the green coefficients rounded to 0.34414 and 0.71414.
There is no `(Y - 16) * 1.164` luma rescale.

Modules:

- `Colour` (colour.dfy) has the three channel formulas, written over `real`
  with the source's decimal coefficients as exact values. It also has
  `Truncate`, the C++ conversion of a floating-point value into a `uint8_t`
  output byte. That conversion drops the fractional part and is defined only
  when the result is a byte, i.e. when the value lies strictly between -1 and
  256 (`Representable`). No clamping takes place: the clamping variant in the
  source is commented out.
- `Yuyv` (yuyv.dfy) has two definitions of the RGB24 image:
  - `Rgb24` is the independent reference. It works pixel by pixel, as the
    format is documented: pixel `p` has luma at byte `2p`, and its pair shares
    the chroma at bytes `4(p/2)+1` and `4(p/2)+3`.
  - `GroupByte` works the way the loop body does, one 4-byte group at a time.

  `GroupLayout` and `GroupsMakeRgb24` prove that the two definitions agree.
  The module also holds the loop's index arithmetic, for any even width and
  any height. `Offset` covers both strides: 2 bytes per pixel for reads and
  3 for writes. The lemmas prove that every index is in bounds, that no two
  loop steps touch the same byte, and that every byte is touched.
- `Camera` (screen.dfy) has the class `Screen`. Its array field `frame` is the
  mapped buffer. The constructor models the `mmap` of `_query.length` bytes
  and the `memset` that clears it. `Process` is the conversion loop: the
  source's nested loops, written as `while` loops over the source's constants
  `WIDTH = 640` and `HEIGHT = 480`. The six stores of one step are the
  method `StoreGroup`. `Process` is proved to return a new 921600-byte
  buffer equal to `Rgb24` of the frame; its index arithmetic is discharged
  by the `Yuyv` lemmas (`OffsetOfGroup`, `SlotInBuffer`).

The model follows the code, which departs from the usual conversion in four places:
- The green coefficients are 0.34414 and 0.71414 (screen.cpp:119 and 123), not
  the 0.344136 and 0.714136 of ITU-T T.871.
- The narrowing is C++ truncation, not a clamp: the clamping variant at
  screen.cpp:126-138 is commented out.
- The mapped length `_query.length` (screen.cpp:39-40) is never compared with
  the bytes the loop reads. The requirement `frame.Length >= WIDTH * HEIGHT * 2`
  is therefore a precondition of `Process`, not an error path.
- The capture format is filled into `_imageFormat` (screen.cpp:23-27), but no
  `VIDIOC_S_FMT` is ever issued, so the driver's format is not negotiated.

## Model

| member | source | states |
|---|---|---|
| `Colour.Truncate` | v4l2-camera-reader_cpp/screen.cpp:118-124 | storing a double into a `uint8_t` gives the value rounded toward zero (within 1, never past the value), and that result is a byte exactly when the value lies in (-1, 256) |
| `Colour.Red` | v4l2-camera-reader_cpp/screen.cpp:118 | defines red as Y + 1.402 (V - 128) over exact reals (the same formula at line 122 for the second pixel) |
| `Colour.Green` | v4l2-camera-reader_cpp/screen.cpp:119 | defines green as Y - 0.34414 (U - 128) - 0.71414 (V - 128) (line 123 for the second pixel) |
| `Colour.Blue` | v4l2-camera-reader_cpp/screen.cpp:120 | defines blue as Y + 1.772 (U - 128) (line 124 for the second pixel) |
| `Colour.ChannelRange` | v4l2-camera-reader_cpp/screen.cpp:118-124 | how far each channel can move from the luma (red -179.456 .. +178.054, green -134.40156 .. +135.45984, blue -226.816 .. +225.044), each bound attained at a chroma extreme, so every channel can leave the byte range; red and blue lie above the luma exactly when V, respectively U, is above 128 |
| `Colour.NeutralChroma` | v4l2-camera-reader_cpp/screen.cpp:118-124 | with U = V = 128 every chroma term vanishes: R = G = B = Y exactly, the narrowing is defined and stores Y |
| `Colour.ChannelInputs` | v4l2-camera-reader_cpp/screen.cpp:118-120 | R does not depend on U and B does not depend on V |
| `Colour.ChannelMonotone` | v4l2-camera-reader_cpp/screen.cpp:118-120 | R strictly increases with V, B with U, G strictly decreases with U and with V, and all three increase with Y |
| `Colour.SaturatedRedSample` | v4l2-camera-reader_cpp/screen.cpp:118-120 | for Y = 76, U = 84, V = 255 red is 254.054 and is stored as 254, green 0.44638 is stored as 0, and blue is -1.968, whose narrowing is undefined |
| `Yuyv.Rgb24` | v4l2-camera-reader_cpp/screen.cpp:101-124 | defines the reference RGB24 image pixel by pixel with the YUYV layout (luma of pixel p at byte 2p, shared chroma at 4(p/2)+1 and 4(p/2)+3); its contract states the image has 3 bytes per pixel |
| `Yuyv.PairByte` | v4l2-camera-reader_cpp/screen.cpp:118-124 | defines byte k of one loop step's output for the group Y0 U Y1 V: R, G, B of Y0, then R, G, B of Y1, each truncated |
| `Yuyv.GroupByte` | v4l2-camera-reader_cpp/screen.cpp:104-124 | byte k of the output of the group at frame bytes 4g .. 4g+3, as the loop body computes it; for neutral chroma it is the group's first luma in bytes 0 .. 2 and its second luma in bytes 3 .. 5 |
| `Yuyv.GroupLayout` | v4l2-camera-reader_cpp/screen.cpp:104-124 | byte 6g + k of the pixel-wise RGB24 image is byte k of group g as the loop computes it: Y0, U, Y1, V at offsets 0..3, output R(Y0) G(Y0) B(Y0) R(Y1) G(Y1) B(Y1) with shared U, V |
| `Yuyv.GroupsMakeRgb24` | v4l2-camera-reader_cpp/screen.cpp:101-124 | any buffer of 3 * pixels bytes whose every group holds the loop's six bytes equals the pixel-wise RGB24 image |
| `Yuyv.SharedChroma` | v4l2-camera-reader_cpp/screen.cpp:104-107 | the two pixels of a group read the same U (byte 2q+1) and V (byte 2q+3) and take their luma from bytes 2q and 2q+2 |
| `Yuyv.GreyFrame` | v4l2-camera-reader_cpp/screen.cpp:118-124 | a frame with neutral chroma everywhere converts with no undefined narrowing, and each channel of pixel p is its luma |
| `Yuyv.DefinedFrameIsBytes` | v4l2-camera-reader_cpp/screen.cpp:118-124 | when no channel value is out of range, every byte of the RGB24 image is in 0..255 |
| `Yuyv.Offset` | v4l2-camera-reader_cpp/screen.cpp:104-124 | defines the index expressions (WIDTH * 2) * i + 2 * j of the reads and (WIDTH * 3) * i + 3 * j of the writes, as (width * b) * i + b * j |
| `Yuyv.OffsetOfGroup` | v4l2-camera-reader_cpp/screen.cpp:104-124 | when 2g pixels precede the pair at (i, j), the pair starts at byte 2b * g: reads of the g-th step start at 4g, writes at 6g |
| `Yuyv.SlotInBuffer` | v4l2-camera-reader_cpp/screen.cpp:101-124 | for a row below the height, an even column below the width and a byte k < 2b, index (width*b)*i + b*j + k is below width * height * b (reads: b = 2, k < 4; writes: b = 3, k < 6) |
| `Yuyv.SlotsDistinct` | v4l2-camera-reader_cpp/screen.cpp:118-124 | two loop positions (i, j, k) that reach the same index are the same position, so no byte is written (or read) twice |
| `Yuyv.SlotOf` | v4l2-camera-reader_cpp/screen.cpp:101-124 | every index below width * height * b is reached by some loop position, so the whole output buffer is overwritten and the whole frame is read |
| `Yuyv.LastReadIsLastByte` | v4l2-camera-reader_cpp/screen.cpp:101-107 | the last group read ends at byte width * height * 2 - 1, so a shorter mapped buffer would be overrun |
| `Camera.StoreGroup` | v4l2-camera-reader_cpp/screen.cpp:118-124 | the six stores of one step put byte k of the pair's output at o + k and leave every other byte of the buffer unchanged |
| `Camera.Screen.constructor` | v4l2-camera-reader_cpp/screen.cpp:39-40 | the mapped frame has the length the device reported and is cleared to zero |
| `Camera.Screen.Process` | v4l2-camera-reader_cpp/screen.cpp:97-140 | the output buffer is newly allocated, has exactly 921600 bytes and equals the pixel-wise RGB24 image of the 640 x 480 YUYV frame |

## Left out

- Device I/O is left out because these are foreign OS calls with no checks and no branching: `open`, `close`, the `ioctl` calls `VIDIOC_QUERYCAP`, `REQBUFS`, `QUERYBUF`, `STREAMON`, `QBUF`, `DQBUF` and `STREAMOFF`, and `mmap`. The constructor takes the mapped length as a parameter. The driver's writes into the shared frame on dequeue are not modelled, so `Process` converts whatever the frame holds.
- The Godot side is left out because it is calls into an engine API:
  - `_register_methods`;
  - `_init`, which builds a placeholder image with a red border, a texture and a material;
  - `_ready`;
  - the hand-off by `create_from_data` and `set_data`.
- The model computes with exact rationals, not IEEE doubles. The coefficients 1.402, 0.34414, 0.71414 and 1.772 are not exact in binary. A double result that falls within rounding error of an integer may therefore truncate to a different byte than the model gives.
- Narrowing an out-of-range value is undefined behaviour in C++. `Process` still writes the truncated integer, so its output array holds `int`s. `DefinedFrameIsBytes` states when they are all bytes; for other frames the model claims no particular byte.
- The commented-out studio-range formulas and the clamping variant are not live code, so they are not modelled.
- `Camera.Screen.Process`: the loop is verified only at the source's constants 640 x 480. The index lemmas in `Yuyv` hold for any even width and any height.
- `Camera.StoreGroup`: the source writes the six stores of a step inline in the loop body; the model gathers them in one method, which changes nothing about which bytes are written or in what order.
- The model assumes no row padding, i.e. `bytesperline` equals 2 * width. The source makes the same assumption.
- screen.h holds declarations only and is not part of this model.
