# Taskify launcher icon: the dependency-free PNG writer

A Dafny model of `assets/icons/create_simple_png.py`, the script that draws the
Taskify launcher icon pixel by pixel and writes it as a PNG file by hand.

The model has two parts.

- **The pixel classifier and pixel loop** (module `SimpleIcon`). Each pixel of
  the 1024 by 1024 image gets a colour from three region tests, applied in
  order, with the last match winning. The tests are: inside the background
  circle of radius 480, inside the white task-list panel, and inside the teal
  "completed" badge. The result is a row-major RGBA byte buffer.
- **The serialiser `create_png_data`** (modules `ByteCodec`, `Chunks`,
  `Scanlines`, `PngWriter`). It puts filter byte 0 in front of every scanline
  and packs the IHDR header big-endian. Each chunk is built as length, type,
  payload, CRC. The file is signature, IHDR, IDAT and IEND, in that order. The
  layout follows the PNG Specification, Second Edition (ISO/IEC 15948):
  section 5.2 (signature), 5.3 (chunk layout), 5.5 (CRC coverage), 5.6 (chunk
  order), 7.3 and 9.2 (filter type 0), and 11.2.2, 11.2.4 and 11.2.5 (IHDR,
  IDAT, IEND).

`zlib.crc32` and `zlib.compress` are parameters of the model: `crc: Bytes -> int`
and `compress: Bytes -> Bytes`. Every property below holds for any choice of them.
Python's `& 0xffffffff` on the CRC is written `% U32Limit`. For every integer
this gives the same value as the mask.

The exceptions `create_png_data` can raise are failures of a `Result`, in the
order the code raises them:
- `struct.pack` of a width, then a height, outside `0 .. 2^32 - 1`;
- `range(0, n, 0)` when the width is 0;
- `bytes()` of a value outside `0 .. 255`;
- `struct.pack` of a compressed length of `2^32` or more.

A short last row is framed as it is, as Python slicing does: it too gets filter
byte 0 (`FrameFilterByte`, `FrameShortRow`).

The distance test `((x - cx) ** 2 + (y - cy) ** 2) ** 0.5 < 480` is modelled as
the integer test `dx * dx + dy * dy < 230400`. The squared distance is an exact
integer below `2^53`. The largest squared distance under the bound, 230399, has
a square root of about 479.998958. That is far more than a rounding error below
480, and 230400 has the exact root 480. So the float test and the integer test
agree on every pixel.

The code colours the centre pixel (512, 512) white, because the panel covers it.
It is not the primary background colour (`CentrePixelIsWhite`). The badge
rectangle is also not wholly inside the panel: columns 745 to 750 of the badge
lie outside the panel and are badge-coloured too (`BadgeOverPanel`). The model
follows the code in both cases.

`Decode` is the partner of the writer. It reads a file of the writer's shape:
the signature, then exactly IHDR, IDAT and IEND with valid CRCs. `Unframe` is
the partner of scanline framing. The round-trip lemmas connect each writer
function to its reader.

## Model

| member | source | states |
|---|---|---|
| ByteCodec.BE32 | assets/icons/create_simple_png.py:55-57 | `struct.pack('>I', n)` for `0 <= n < 2^32` is exactly four bytes; its value is fixed by FromBE32OfBE32 and BE32OfFromBE32: the bytes decode back to `n`, and every 4-byte string is the packing of exactly one such `n` |
| ByteCodec.FromBE32OfBE32 | assets/icons/create_simple_png.py:55-57 | a `'>I'` field decodes back to the number packed into it, for every value below 2^32 |
| ByteCodec.BE32OfFromBE32 | assets/icons/create_simple_png.py:55-57 | every 4-byte field is the big-endian packing of the number it decodes to, so packing is a bijection onto 4-byte strings |
| ByteCodec.BE32Injective | assets/icons/create_simple_png.py:55 | two different widths (or heights) never pack to the same four bytes |
| ByteCodec.ToBytes | assets/icons/create_simple_png.py:60 | `bytes(list)` of in-range ints keeps length and every element |
| Chunks.ChunkCrc | assets/icons/create_simple_png.py:56 | the masked checksum `crc32(type + payload) & 0xffffffff` always fits an unsigned 32-bit field |
| Chunks.MakeChunk | assets/icons/create_simple_png.py:56-57 | a chunk is 12 bytes longer than its payload; its length field decodes to the payload length only (not type or CRC); type at bytes 4-7, payload next, and the last four bytes decode to the CRC of type plus payload |
| Chunks.ParseMakeChunk | assets/icons/create_simple_png.py:62-63 | a reader recovers type, payload and a valid CRC from a written chunk and stops exactly at its end, whatever follows |
| Chunks.ParseChunksCons | assets/icons/create_simple_png.py:69 | a written chunk in front of a chunk stream reads back as that chunk followed by the stream's chunks |
| Scanlines.Frame | assets/icons/create_simple_png.py:60 | the raw stream is empty exactly when the buffer is, never shorter than it, and starts with filter byte 0 |
| Scanlines.UnframeFrame | assets/icons/create_simple_png.py:60 | dropping the leading byte of every scanline gives back exactly the framed buffer, for any length, a short last row included |
| Scanlines.FrameFilterByte | assets/icons/create_simple_png.py:60 | every scanline, a short last row included, starts with filter byte 0: the input row starting at `RowStart(r)` has its filter byte at `RowStart(r) + r` |
| Scanlines.FrameShortRow | assets/icons/create_simple_png.py:60 | a buffer whose length is not a multiple of the row length ends the raw stream with filter byte 0 followed by the leftover bytes unchanged |
| Scanlines.FrameLength | assets/icons/create_simple_png.py:60 | `rows` full rows of `stride` bytes frame to `rows * (stride + 1)` bytes |
| Scanlines.FrameRow | assets/icons/create_simple_png.py:60 | scanline `r` of the raw stream is filter byte 0 followed by input row `r`, once input rows 0 to `r` are full |
| Scanlines.FrameLayout | assets/icons/create_simple_png.py:60 | for `rows` full rows: length `rows * (stride + 1)`; byte `r * (stride + 1)` is 0 and the next `stride` bytes are input bytes `r * stride` to `(r + 1) * stride` |
| PngWriter.IhdrPayload | assets/icons/create_simple_png.py:55 | the IHDR payload is exactly 13 bytes: width as big-endian u32, height as big-endian u32, then 8, 6, 0, 0, 0 |
| PngWriter.ParseIhdrPayload | assets/icons/create_simple_png.py:55 | reading the IHDR payload gives back width, height, bit depth 8, colour type 6 (RGBA) and compression, filter and interlace 0 |
| PngWriter.IendChunk | assets/icons/create_simple_png.py:66-67 | the IEND chunk is exactly 12 bytes |
| PngWriter.IendIsEmptyChunk | assets/icons/create_simple_png.py:66-67 | the hand-built IEND equals the general chunk with an empty payload: length field 0, type IEND, CRC over the four type bytes only |
| PngWriter.RawStream | assets/icons/create_simple_png.py:60 | the stream handed to the compressor unframes back to the pixel buffer |
| PngWriter.RawStreamLayout | assets/icons/create_simple_png.py:60 | for a buffer of `h * w * 4` bytes the raw stream has `h * (4w + 1)` bytes; byte `r * (4w + 1)` is 0 and the next `4w` bytes are buffer bytes `[r * 4w, (r + 1) * 4w)` |
| PngWriter.CreatePngData | assets/icons/create_simple_png.py:50-69 | the error raised for each bad input, in the code's order, a compressed stream of `2^32` bytes or more giving the IDAT length error; success exactly when width is 1 to 2^32 - 1, height fits 32 bits, every value is a byte and the compressed stream is below 2^32 bytes; the file is 57 bytes longer than the compressed stream and starts with 137 80 78 71 13 10 26 10 |
| PngWriter.PngLayout | assets/icons/create_simple_png.py:52-69 | signature at bytes 0-7, the 25-byte IHDR chunk at 8-32, the IDAT chunk from 33, and the 12-byte IEND chunk as the last bytes |
| PngWriter.ParseWrittenChunks | assets/icons/create_simple_png.py:57-69 | after the signature the file splits into exactly three chunks, IHDR, IDAT and IEND in that order, each with a valid CRC |
| PngWriter.DecodeWritten | assets/icons/create_simple_png.py:52-69 | a file of signature, IHDR, IDAT and IEND decodes to its header fields and its IDAT payload |
| PngWriter.DecodeCreatePngData | assets/icons/create_simple_png.py:50-69 | decoding any written file gives back the requested width and height, 8-bit RGBA, and the compressed raw stream as the single IDAT payload; unframing that raw stream gives back the pixel buffer |
| SimpleIcon.Paint | assets/icons/create_simple_png.py:21-37 | given the distance test's outcome: alpha is 255 exactly when it passed and 0 exactly when it failed; a failed test gives (0,0,0,0) whatever the rectangles say; otherwise badge gives (78,205,196,255) even inside the panel, panel but not badge gives (255,255,255,255), neither gives (108,99,255,255) |
| SimpleIcon.Classify | assets/icons/create_simple_png.py:17-37 | the same table for pixel `(x, y)`, with the test "squared distance from `(width // 2, height // 2)` below 480 squared": alpha 255 exactly inside the circle, (0,0,0,0) outside it, and the last matching region's colour inside it |
| SimpleIcon.ColorBytes | assets/icons/create_simple_png.py:39 | each pixel contributes exactly four bytes |
| SimpleIcon.AppendRow | assets/icons/create_simple_png.py:39-40 | appending a finished row to the finished rows keeps every earlier pixel and places the new row's pixels at their row-major offsets |
| SimpleIcon.RenderPixels | assets/icons/create_simple_png.py:13-40 | the buffer has `width * height * 4` bytes and pixel `(x, y)` occupies bytes `[(y * width + x) * 4, +4)` with its classified colour |
| SimpleIcon.IconBufferByte | assets/icons/create_simple_png.py:14-16 | every byte of the buffer is a channel of the pixel it lies in: byte `i` is channel `i % 4` of pixel `((i / 4) % width, (i / 4) / width)` |
| SimpleIcon.IconBufferUnique | assets/icons/create_simple_png.py:13-40 | the row-major layout fixes every byte, so the pixel loop has exactly one possible result |
| SimpleIcon.CreateSimplePng | assets/icons/create_simple_png.py:8-43 | the 1024 by 1024 buffer is the icon buffer; encoding fails only when the compressed stream is too long, and otherwise decodes to a 1024 by 1024 8-bit RGBA header with the compressed raw stream as image data |
| SimpleIcon.RectanglesInsideCircle | assets/icons/create_simple_png.py:30-35 | at 1024 by 1024 both rectangles lie wholly inside the radius-480 circle |
| SimpleIcon.IconRegions | assets/icons/create_simple_png.py:21-37 | at 1024 by 1024 the colour is the painting order badge over panel over circle over transparent, so the circle test in the two rectangle checks never changes a pixel |
| SimpleIcon.CentrePixelIsWhite | assets/icons/create_simple_png.py:18-32 | the centre pixel (512, 512) lies in the panel and is white |
| SimpleIcon.BadgeOverPanel | assets/icons/create_simple_png.py:30-37 | at 1024 by 1024 every badge pixel is badge-coloured, so the badge wins wherever it overlaps the panel; every pixel in columns 745-750, rows 310-410 is in the badge and outside the panel |

## Left out

- `assets/icons/create_png_icon.py` is not part of this model. It is a thin wrapper over Pillow, and its ellipse, rounded-rectangle and line rasterisation and its Lanczos resampling happen inside that library, in floating point.
- `zlib.compress` (deflate) is the parameter `compress`. Only the placement and length of its output are modelled. Its failure is not modelled, since it does not fail on a byte string.
- `zlib.crc32` is the parameter `crc`. The CRC-32 of section 5.5 and Annex D is not defined, so nothing is proved about which corruptions a reader detects.
- Writing the file and printing the confirmation (lines 45-48), and the `__main__` entry point (lines 71-72), are I/O and are left out.
- Floating-point `** 0.5` is replaced by the equivalent integer squared-distance test, as argued above.
- CreatePngData: takes integers only. The `struct.error` that `struct.pack` raises for a non-integer width or height, and the `TypeError` that `bytes()` raises for a non-integer element, are not modelled.
- Decode: reads only the writer's shape, one IHDR, one IDAT and one IEND. It is not a general PNG reader: no ancillary chunks, no split IDAT, and the IHDR field values are not checked.
- CreateSimplePng: also returns the pixel buffer it built, so that the contract can name it. `create_simple_png` keeps that buffer in a local variable.
