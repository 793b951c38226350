/**
  `create_png_data`: the PNG file for an RGBA buffer, following the PNG
  Specification, Second Edition (ISO/IEC 15948): the signature (section 5.2),
  then an IHDR chunk (section 11.2.2), one IDAT chunk (section 11.2.4) and an
  empty IEND chunk (section 11.2.5), in that order (section 5.6).

  `crc` stands for `zlib.crc32` and `compress` for `zlib.compress`; both are
  parameters because the model does not define them.
*/
module PngWriter {
  import opened Wrappers
  import opened ByteCodec
  import opened Chunks
  import opened Scanlines

  /** The eight bytes every PNG file starts with: 137 'P' 'N' 'G' CR LF SUB LF. */
  const Signature: Bytes := [137, 80, 78, 71, 13, 10, 26, 10]

  /** The fixed IHDR fields after width and height: bit depth 8, colour type 6 (RGBA),
      compression method 0, filter method 0, no interlace. */
  const IhdrFlags: Bytes := [8, 6, 0, 0, 0]

  /** The decoded contents of an IHDR payload. */
  datatype Header = Header(
    width: int, height: int,
    bitDepth: Byte, colorType: Byte, compression: Byte, filter: Byte, interlace: Byte)

  /** What the writer raises instead of returning a file. */
  datatype PngError =
    | WidthOutOfRange   // struct.error packing width into '>I'
    | HeightOutOfRange  // struct.error packing height into '>I'
    | ZeroRowStride     // ValueError: range() step width * 4 is zero
    | NotAByte          // ValueError: bytes() of a value outside 0..255
    | IdatTooLong       // struct.error packing the compressed length into '>I'

  /** The 13-byte IHDR payload: `struct.pack('>IIBBBBB', width, height, 8, 6, 0, 0, 0)`. */
  function IhdrPayload(width: int, height: int): (p: Bytes)
    requires 0 <= width < U32Limit && 0 <= height < U32Limit
    ensures |p| == 13
    ensures FromBE32(p[..4]) == width && FromBE32(p[4..8]) == height
    ensures p[8..] == IhdrFlags
  {
    FromBE32OfBE32(width);
    FromBE32OfBE32(height);
    var p := BE32(width) + BE32(height) + IhdrFlags;
    assert p[..4] == BE32(width);
    assert p[4..8] == BE32(height);
    p
  }

  /** A reader's view of an IHDR payload; None unless it is exactly 13 bytes. */
  function ParseIhdr(p: Bytes): (h: Option<Header>)
    ensures h.Some? <==> |p| == 13
  {
    if |p| != 13 then None
    else Some(Header(FromBE32(p[..4]), FromBE32(p[4..8]), p[8], p[9], p[10], p[11], p[12]))
  }

  /** The IHDR payload reads back as the given size, 8-bit RGBA, default methods, not interlaced. */
  lemma ParseIhdrPayload(width: int, height: int)
    requires 0 <= width < U32Limit && 0 <= height < U32Limit
    ensures ParseIhdr(IhdrPayload(width, height)) == Some(Header(width, height, 8, 6, 0, 0, 0))
  {
    var p := IhdrPayload(width, height);
    assert p[8..][0] == p[8];
  }

  /** The IEND chunk, spelled out as the writer spells it: zero length, type, CRC of the type. */
  function IendChunk(crc: Bytes -> int): (c: Bytes)
    ensures |c| == 12
  {
    BE32(0) + IEND + BE32(crc(IEND) % U32Limit)
  }

  /** IEND is the chunk with an empty payload: length field 0, CRC over the four type bytes only. */
  lemma IendIsEmptyChunk(crc: Bytes -> int)
    ensures IendChunk(crc) == MakeChunk(IEND, [], crc)
    ensures FromBE32(IendChunk(crc)[..4]) == 0
    ensures IendChunk(crc)[4..8] == IEND
    ensures FromBE32(IendChunk(crc)[8..]) == crc(IEND) % U32Limit
  {
    assert IEND + [] == IEND;
  }

  /** The raw stream the writer compresses, for an input it accepts. */
  function RawStream(width: int, rgba: seq<int>): (raw: Bytes)
    requires 0 < width
    requires AllBytes(rgba)
    ensures Unframe(raw, 4 * width) == rgba
  {
    UnframeFrame(ToBytes(rgba), 4 * width);
    Frame(ToBytes(rgba), 4 * width)
  }

  /**
    For a buffer of `height` full rows of `width` RGBA pixels, the raw stream has
    `height * (4 * width + 1)` bytes, and scanline `r` is filter byte 0 at
    `r * (4 * width + 1)` followed by buffer bytes `r * (4 * width)` up to `(r + 1) * (4 * width)`.
  */
  lemma RawStreamLayout(width: int, height: nat, rgba: seq<int>)
    requires 0 < width
    requires AllBytes(rgba)
    requires |rgba| == height * (4 * width)
    ensures |RawStream(width, rgba)| == height * (4 * width + 1)
    ensures forall r :: 0 <= r < height ==> ScanlineAt(RawStream(width, rgba), rgba, 4 * width, r)
  {
    var data := ToBytes(rgba);
    assert data == rgba;
    FrameLayout(data, 4 * width, height);
  }

  /** `create_png_data(width, height, rgba_data)`, with its exceptions as failures. */
  function CreatePngData(width: int, height: int, rgba: seq<int>,
                         crc: Bytes -> int, compress: Bytes -> Bytes): (r: Result<Bytes, PngError>)
    ensures !(0 <= width < U32Limit) ==> r == Failure(WidthOutOfRange)
    ensures 0 <= width < U32Limit && !(0 <= height < U32Limit) ==> r == Failure(HeightOutOfRange)
    ensures 0 <= height < U32Limit && width == 0 ==> r == Failure(ZeroRowStride)
    ensures 0 < width < U32Limit && 0 <= height < U32Limit && !AllBytes(rgba) ==> r == Failure(NotAByte)
    ensures && 0 < width < U32Limit && 0 <= height < U32Limit && AllBytes(rgba)
            && |compress(RawStream(width, rgba))| >= U32Limit
            ==> r == Failure(IdatTooLong)
    ensures r.Success? <==>
      && 0 < width < U32Limit && 0 <= height < U32Limit && AllBytes(rgba)
      && |compress(RawStream(width, rgba))| < U32Limit
    ensures r.Success? ==> |r.value| == 57 + |compress(RawStream(width, rgba))|
    ensures r.Success? ==> r.value[..8] == Signature
  {
    if !(0 <= width < U32Limit) then Failure(WidthOutOfRange)
    else if !(0 <= height < U32Limit) then Failure(HeightOutOfRange)
    else if width == 0 then Failure(ZeroRowStride)
    else if !AllBytes(rgba) then Failure(NotAByte)
    else
      var compressed := compress(RawStream(width, rgba));
      if |compressed| >= U32Limit then Failure(IdatTooLong)
      else
        var file := Signature + MakeChunk(IHDR, IhdrPayload(width, height), crc)
                    + MakeChunk(IDAT, compressed, crc) + IendChunk(crc);
        assert file[..8] == Signature;
        Success(file)
  }

  /** What a reader gets from a file of the writer's shape. */
  datatype Decoded = Decoded(header: Header, idat: Bytes)

  /**
    A reader for files of the writer's shape: the signature, then exactly the chunks
    IHDR, IDAT, IEND with valid CRCs, a 13-byte IHDR and an empty IEND.
  */
  function Decode(file: Bytes, crc: Bytes -> int): (d: Option<Decoded>)
    ensures d.Some? ==> |file| >= 8 && file[..8] == Signature
  {
    if |file| < 8 || file[..8] != Signature then None
    else
      match ParseChunks(file[8..])
      case None => None
      case Some(cs) =>
        if && |cs| == 3
           && cs[0].kind == IHDR && cs[1].kind == IDAT && cs[2].kind == IEND
           && cs[2].payload == []
           && CrcValid(cs[0], crc) && CrcValid(cs[1], crc) && CrcValid(cs[2], crc)
        then
          match ParseIhdr(cs[0].payload)
          case None => None
          case Some(h) => Some(Decoded(h, cs[1].payload))
        else None
  }

  /**
    Byte layout of a written file: signature at 0, the 25-byte IHDR chunk at 8, the
    IDAT chunk at 33, and the 12-byte IEND chunk at the very end.
  */
  lemma PngLayout(width: int, height: int, rgba: seq<int>,
                  crc: Bytes -> int, compress: Bytes -> Bytes)
    requires CreatePngData(width, height, rgba, crc, compress).Success?
    ensures var file := CreatePngData(width, height, rgba, crc, compress).value;
            var idat := compress(RawStream(width, rgba));
            && |file| == 57 + |idat|
            && file[..8] == Signature
            && file[8..33] == MakeChunk(IHDR, IhdrPayload(width, height), crc)
            && file[33..45 + |idat|] == MakeChunk(IDAT, idat, crc)
            && file[45 + |idat|..] == IendChunk(crc)
  {
    var idat := compress(RawStream(width, rgba));
    var a := MakeChunk(IHDR, IhdrPayload(width, height), crc);
    var b := MakeChunk(IDAT, idat, crc);
    var c := IendChunk(crc);
    var file := Signature + a + b + c;
    assert file == CreatePngData(width, height, rgba, crc, compress).value;
    assert file[8..33] == a;
    assert file[33..45 + |idat|] == b;
    assert file[45 + |idat|..] == c;
  }

  /** The three chunks the writer emits read back as three chunks with valid CRCs. */
  lemma ParseWrittenChunks(payload: Bytes, idat: Bytes, crc: Bytes -> int)
    requires |payload| == 13 && |idat| < U32Limit
    ensures ParseChunks(MakeChunk(IHDR, payload, crc) + MakeChunk(IDAT, idat, crc) + IendChunk(crc))
         == Some([Chunk(IHDR, payload, crc(IHDR + payload) % U32Limit),
                  Chunk(IDAT, idat, crc(IDAT + idat) % U32Limit),
                  Chunk(IEND, [], crc(IEND + []) % U32Limit)])
  {
    var b := MakeChunk(IDAT, idat, crc);
    var c := IendChunk(crc);
    var cb := Chunk(IDAT, idat, crc(IDAT + idat) % U32Limit);
    var cc := Chunk(IEND, [], crc(IEND + []) % U32Limit);
    IendIsEmptyChunk(crc);
    ParseChunksCons(IEND, [], crc, [], []);
    assert c + [] == c;
    assert [cc] + [] == [cc];
    assert ParseChunks(c) == Some([cc]);
    ParseChunksCons(IDAT, idat, crc, c, [cc]);
    assert [cb] + [cc] == [cb, cc];
    assert ParseChunks(b + c) == Some([cb, cc]);
    ParseChunksCons(IHDR, payload, crc, b + c, [cb, cc]);
    assert [Chunk(IHDR, payload, crc(IHDR + payload) % U32Limit)] + [cb, cc]
        == [Chunk(IHDR, payload, crc(IHDR + payload) % U32Limit), cb, cc];
    assert MakeChunk(IHDR, payload, crc) + b + c == MakeChunk(IHDR, payload, crc) + (b + c);
  }

  /** A file of the writer's shape decodes to its IHDR fields and its IDAT payload. */
  lemma DecodeWritten(width: int, height: int, idat: Bytes, crc: Bytes -> int)
    requires 0 <= width < U32Limit && 0 <= height < U32Limit && |idat| < U32Limit
    ensures Decode(Signature + MakeChunk(IHDR, IhdrPayload(width, height), crc)
                   + MakeChunk(IDAT, idat, crc) + IendChunk(crc), crc)
         == Some(Decoded(Header(width, height, 8, 6, 0, 0, 0), idat))
  {
    var payload := IhdrPayload(width, height);
    var chunks := MakeChunk(IHDR, payload, crc) + MakeChunk(IDAT, idat, crc) + IendChunk(crc);
    var file := Signature + MakeChunk(IHDR, payload, crc) + MakeChunk(IDAT, idat, crc) + IendChunk(crc);
    assert file[..8] == Signature;
    assert file[8..] == chunks;
    ParseWrittenChunks(payload, idat, crc);
    ParseMakeChunk(IHDR, payload, crc, []);
    ParseMakeChunk(IDAT, idat, crc, []);
    ParseMakeChunk(IEND, [], crc, []);
    ParseIhdrPayload(width, height);
  }

  /**
    Reading a written file gives back the header the writer was asked for and, as
    the single image-data payload, the compressed raw stream; removing the filter
    bytes from that raw stream gives back the pixel buffer.
  */
  lemma DecodeCreatePngData(width: int, height: int, rgba: seq<int>,
                            crc: Bytes -> int, compress: Bytes -> Bytes)
    requires CreatePngData(width, height, rgba, crc, compress).Success?
    ensures Decode(CreatePngData(width, height, rgba, crc, compress).value, crc)
         == Some(Decoded(Header(width, height, 8, 6, 0, 0, 0), compress(RawStream(width, rgba))))
    ensures Unframe(RawStream(width, rgba), 4 * width) == rgba
  {
    DecodeWritten(width, height, compress(RawStream(width, rgba)), crc);
  }
}
