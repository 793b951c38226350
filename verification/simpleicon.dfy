/**
  `create_simple_png`: the launcher icon computed pixel by pixel. Each pixel
  gets a colour from three region tests applied in order, the last one that
  matches winning: the background circle of radius 480 around the centre, the
  white task-list panel, and the teal "completed" badge. The pixels are laid
  out row-major, four bytes (R, G, B, A) each, and handed to `create_png_data`.

  The source tests `((x - cx) ** 2 + (y - cy) ** 2) ** 0.5 < 480` in floating
  point; here it is the exact integer test `dx * dx + dy * dy < 480 * 480`.
*/
module SimpleIcon {
  import opened Wrappers
  import opened ByteCodec
  import opened Arith
  import opened PngWriter

  /** Width and height of the generated icon. */
  const Size: int := 1024

  /** The square of the background circle's radius, 480. */
  const RadiusSquared: int := 230400

  datatype Rgba = Rgba(r: Byte, g: Byte, b: Byte, a: Byte)

  const Transparent: Rgba := Rgba(0, 0, 0, 0)
  /** #6C63FF, the background circle. */
  const Primary: Rgba := Rgba(108, 99, 255, 255)
  /** The task-list panel. */
  const White: Rgba := Rgba(255, 255, 255, 255)
  /** #4ECDC4, the checkmark badge. */
  const Completed: Rgba := Rgba(78, 205, 196, 255)

  /** Strictly closer than 480 to the centre `(width // 2, height // 2)`. */
  predicate InCircle(width: int, height: int, x: int, y: int)
  {
    var dx := x - width / 2;
    var dy := y - height / 2;
    dx * dx + dy * dy < RadiusSquared
  }

  /** The task-list panel rectangle, bounds included. */
  predicate InPanel(x: int, y: int)
  {
    280 <= x <= 744 && 240 <= y <= 800
  }

  /** The checkmark badge rectangle, bounds included. */
  predicate InBadge(x: int, y: int)
  {
    650 <= x <= 750 && 310 <= y <= 410
  }

  /**
    The three colour assignments of the pixel loop, given the outcome of the distance
    test: each one that applies overrides the one before.
  */
  function Paint(inCircle: bool, x: int, y: int): (c: Rgba)
    ensures c.a == 255 <==> inCircle
    ensures c.a == 0 <==> !inCircle
    ensures !inCircle ==> c == Transparent
    ensures inCircle && InBadge(x, y) ==> c == Completed
    ensures inCircle && InPanel(x, y) && !InBadge(x, y) ==> c == White
    ensures inCircle && !InPanel(x, y) && !InBadge(x, y) ==> c == Primary
  {
    var background := if inCircle then Primary else Transparent;
    var panel := if InPanel(x, y) && inCircle then White else background;
    if InBadge(x, y) && inCircle then Completed else panel
  }

  /** The colour of pixel `(x, y)` of a `width` by `height` icon. */
  function Classify(width: int, height: int, x: int, y: int): (c: Rgba)
    ensures c.a == 255 <==> InCircle(width, height, x, y)
    ensures !InCircle(width, height, x, y) ==> c == Transparent
    ensures InCircle(width, height, x, y) && InBadge(x, y) ==> c == Completed
    ensures InCircle(width, height, x, y) && InPanel(x, y) && !InBadge(x, y) ==> c == White
    ensures InCircle(width, height, x, y) && !InPanel(x, y) && !InBadge(x, y) ==> c == Primary
  {
    Paint(InCircle(width, height, x, y), x, y)
  }

  /** The four bytes `row.extend([r, g, b, a])` appends for a pixel. */
  function ColorBytes(c: Rgba): (s: Bytes)
    ensures |s| == 4
  {
    [c.r, c.g, c.b, c.a]
  }

  /** Where pixel `(x, y)` starts in a row-major buffer with four bytes per pixel. */
  function PixelOffset(width: int, x: int, y: int): int
  {
    (y * width + x) * 4
  }

  lemma PixelOffsetParts(width: int, x: int, y: int)
    ensures PixelOffset(width, x, y) == PixelOffset(width, 0, y) + 4 * x
    ensures PixelOffset(width, 0, y + 1) == PixelOffset(width, 0, y) + 4 * width
  {
  }

  /** Rows `0 .. y` of the icon buffer are in place: pixel `(x, yy)` occupies bytes
      `PixelOffset(width, x, yy)` up to four further. */
  ghost predicate RowsDone(data: seq<int>, width: nat, height: nat, y: nat)
  {
    && |data| == PixelOffset(width, 0, y)
    && forall x, yy :: 0 <= x < width && 0 <= yy < y ==>
         && 0 <= PixelOffset(width, x, yy)
         && PixelOffset(width, x, yy) + 4 <= |data|
         && data[PixelOffset(width, x, yy) .. PixelOffset(width, x, yy) + 4]
            == ColorBytes(Classify(width, height, x, yy))
  }

  /** The pixel buffer of a `width` by `height` icon: all `height` rows in place. */
  ghost predicate IsIconBuffer(data: seq<int>, width: nat, height: nat)
  {
    RowsDone(data, width, height, height)
  }

  /** Pixels `0 .. x` of row `y` are in place in `row`. */
  ghost predicate RowPrefix(row: seq<int>, width: nat, height: nat, y: nat, x: nat)
  {
    && |row| == 4 * x
    && forall xx :: 0 <= xx < x ==> row[4 * xx .. 4 * xx + 4] == ColorBytes(Classify(width, height, xx, y))
  }

  /** Appending a finished row `y` to the first `y` rows gives the first `y + 1` rows. */
  lemma AppendRow(data: seq<int>, row: seq<int>, width: nat, height: nat, y: nat)
    requires RowsDone(data, width, height, y)
    requires RowPrefix(row, width, height, y, width)
    ensures RowsDone(data + row, width, height, y + 1)
  {
    PixelOffsetParts(width, 0, y);
    forall x, yy | 0 <= x < width && 0 <= yy < y + 1
      ensures 0 <= PixelOffset(width, x, yy)
      ensures PixelOffset(width, x, yy) + 4 <= |data + row|
      ensures (data + row)[PixelOffset(width, x, yy) .. PixelOffset(width, x, yy) + 4]
              == ColorBytes(Classify(width, height, x, yy))
    {
      PixelOffsetParts(width, x, yy);
      MulNonneg(yy, width);
      if yy < y {
        assert (data + row)[PixelOffset(width, x, yy) .. PixelOffset(width, x, yy) + 4]
            == data[PixelOffset(width, x, yy) .. PixelOffset(width, x, yy) + 4];
      } else {
        assert (data + row)[PixelOffset(width, x, yy) .. PixelOffset(width, x, yy) + 4]
            == row[4 * x .. 4 * x + 4];
      }
    }
  }

  /** The nested pixel loop of `create_simple_png`, building the row-major RGBA buffer. */
  method RenderPixels(width: nat, height: nat) returns (data: Bytes)
    ensures |data| == width * height * 4
    ensures IsIconBuffer(data, width, height)
  {
    data := [];
    var y := 0;
    while y < height
      invariant y <= height
      invariant RowsDone(data, width, height, y)
    {
      var row: Bytes := [];
      var x := 0;
      while x < width
        invariant x <= width
        invariant RowPrefix(row, width, height, y, x)
      {
        var pixel := ColorBytes(Classify(width, height, x, y));
        assert (row + pixel)[4 * x .. 4 * x + 4] == pixel;
        assert forall xx :: 0 <= xx < x ==> (row + pixel)[4 * xx .. 4 * xx + 4] == row[4 * xx .. 4 * xx + 4];
        row := row + pixel;
        x := x + 1;
      }
      AppendRow(data, row, width, height, y);
      data := data + row;
      y := y + 1;
    }
    assert |data| == width * height * 4;
  }

  /**
    `create_simple_png` up to writing the file: the 1024 by 1024 pixel buffer and the
    PNG bytes `create_png_data` makes of it. The only way it can fail is a compressed
    stream too long for the IDAT length field.
  */
  method CreateSimplePng(crc: Bytes -> int, compress: Bytes -> Bytes)
    returns (pixels: Bytes, png: Result<Bytes, PngError>)
    ensures IsIconBuffer(pixels, Size, Size)
    ensures png.Success? <==> |compress(RawStream(Size, pixels))| < U32Limit
    ensures png.Failure? ==> png.error == IdatTooLong
    ensures png.Success? ==>
      Decode(png.value, crc) == Some(Decoded(Header(Size, Size, 8, 6, 0, 0, 0), compress(RawStream(Size, pixels))))
  {
    pixels := RenderPixels(Size, Size);
    png := CreatePngData(Size, Size, pixels, crc, compress);
    if png.Success? {
      DecodeCreatePngData(Size, Size, pixels, crc, compress);
    }
  }

  /** Every byte of an icon buffer is fixed: byte `i` is channel `i % 4` of the pixel it belongs to. */
  lemma IconBufferByte(data: seq<int>, width: nat, height: nat, i: int)
    requires IsIconBuffer(data, width, height)
    requires 0 <= i < |data|
    ensures 0 < width
    ensures data[i] == ColorBytes(Classify(width, height, (i / 4) % width, (i / 4) / width))[i % 4]
  {
    var p := i / 4;
    assert |data| == (height * width) * 4;
    DivMod(i, 4);
    assert p < height * width;
    assert 0 < width by {
      if width == 0 {
        assert false;
      }
    }
    var x := p % width;
    var y := p / width;
    DivMod(p, width);
    assert y < height by {
      if y >= height {
        MulMono(height, y, width);
      }
    }
    assert 0 <= y;
    assert PixelOffset(width, x, y) == i - i % 4;
    assert data[PixelOffset(width, x, y) .. PixelOffset(width, x, y) + 4][i % 4] == data[i];
  }

  /** The icon buffer of a given size is unique: the pixel loop has exactly one possible result. */
  lemma IconBufferUnique(a: seq<int>, b: seq<int>, width: nat, height: nat)
    requires IsIconBuffer(a, width, height) && IsIconBuffer(b, width, height)
    ensures a == b
  {
    forall i | 0 <= i < |a|
      ensures a[i] == b[i]
    {
      IconBufferByte(a, width, height, i);
      IconBufferByte(b, width, height, i);
    }
  }

  lemma SquareBound(d: int, k: int)
    requires -k <= d <= k
    ensures d * d <= k * k
  {
    if d >= 0 {
      MulMono(d, k, d);
      MulMono(d, k, k);
    } else {
      MulMono(-d, k, -d);
      MulMono(-d, k, k);
    }
  }

  /** In the 1024 by 1024 icon both rectangles lie wholly inside the circle. */
  lemma RectanglesInsideCircle(x: int, y: int)
    requires InPanel(x, y) || InBadge(x, y)
    ensures InCircle(Size, Size, x, y)
  {
    var dx := x - Size / 2;
    var dy := y - Size / 2;
    SquareBound(dx, 238);
    SquareBound(dy, 288);
  }

  /**
    The 1024 by 1024 icon by painting order: the badge over the panel over the
    circle over a transparent background. The circle test inside the two
    rectangle checks never changes a pixel at this size.
  */
  lemma IconRegions(x: int, y: int)
    ensures Classify(Size, Size, x, y)
         == if InBadge(x, y) then Completed
            else if InPanel(x, y) then White
            else if InCircle(Size, Size, x, y) then Primary
            else Transparent
  {
    if InPanel(x, y) || InBadge(x, y) {
      RectanglesInsideCircle(x, y);
    }
  }

  /** The centre pixel lies in the panel, so it is white, not the primary colour. */
  lemma CentrePixelIsWhite()
    ensures InCircle(Size, Size, Size / 2, Size / 2) && InPanel(Size / 2, Size / 2)
    ensures Classify(Size, Size, Size / 2, Size / 2) == White
  {
  }

  /**
    Where badge and panel overlap the badge wins; the badge's right edge, columns
    745 to 750, sticks out of the panel and is badge-coloured as well.
  */
  lemma BadgeOverPanel()
    ensures forall x, y :: InBadge(x, y) ==> Classify(Size, Size, x, y) == Completed
    ensures forall x, y :: 745 <= x <= 750 && 310 <= y <= 410 ==> !InPanel(x, y) && InBadge(x, y)
  {
    forall x, y | InBadge(x, y)
      ensures Classify(Size, Size, x, y) == Completed
    {
      IconRegions(x, y);
    }
  }
}
