/**
  PNG chunks (section 5.3 of the PNG Specification, Second Edition): a
  big-endian length, a four-byte type, the payload, then a CRC over type and
  payload (section 5.5). The CRC itself is a parameter `crc`, standing for
  Python's `zlib.crc32`; its `& 0xffffffff` mask is `% U32Limit`.
*/
module Chunks {
  import opened Wrappers
  import opened ByteCodec

  /** A chunk as a reader sees it: type, payload and the stored CRC field. */
  datatype Chunk = Chunk(kind: Bytes, payload: Bytes, crc: int)

  const IHDR: Bytes := [73, 72, 68, 82]
  const IDAT: Bytes := [73, 68, 65, 84]
  const IEND: Bytes := [73, 69, 78, 68]

  /** The masked checksum the writer stores for a chunk of this type and payload. */
  function ChunkCrc(kind: Bytes, payload: Bytes, crc: Bytes -> int): (c: int)
    ensures 0 <= c < U32Limit
  {
    crc(kind + payload) % U32Limit
  }

  /** The serialised chunk, as the writer builds IHDR and IDAT. */
  function MakeChunk(kind: Bytes, payload: Bytes, crc: Bytes -> int): (r: Bytes)
    requires |kind| == 4
    requires |payload| < U32Limit
    ensures |r| == 12 + |payload|
    ensures FromBE32(r[..4]) == |payload|
    ensures r[4..8] == kind
    ensures r[8..8 + |payload|] == payload
    ensures FromBE32(r[8 + |payload|..]) == crc(kind + payload) % U32Limit
  {
    FromBE32OfBE32(|payload|);
    FromBE32OfBE32(ChunkCrc(kind, payload, crc));
    var r := BE32(|payload|) + kind + payload + BE32(ChunkCrc(kind, payload, crc));
    assert r[..4] == BE32(|payload|);
    assert r[8 + |payload|..] == BE32(ChunkCrc(kind, payload, crc));
    r
  }

  /** True when the stored CRC matches the one computed over type and payload. */
  predicate CrcValid(c: Chunk, crc: Bytes -> int)
  {
    c.crc == crc(c.kind + c.payload) % U32Limit
  }

  /** Reads one chunk off the front of `s`; None when `s` is too short for it. */
  function ParseChunk(s: Bytes): (r: Option<(Chunk, Bytes)>)
    ensures r.Some? ==> |r.value.1| + 12 <= |s|
    ensures r.Some? ==> |r.value.0.kind| == 4 && |r.value.1| == |s| - 12 - |r.value.0.payload|
  {
    if |s| < 12 then None
    else
      var n := FromBE32(s[..4]);
      if |s| < 12 + n then None
      else Some((Chunk(s[4..8], s[8..8 + n], FromBE32(s[8 + n..12 + n])), s[12 + n..]))
  }

  /** Reads a whole stream of chunks; None unless it splits into chunks exactly. */
  function ParseChunks(s: Bytes): Option<seq<Chunk>>
    decreases |s|
  {
    if |s| == 0 then Some([])
    else
      match ParseChunk(s)
      case None => None
      case Some((c, rest)) =>
        match ParseChunks(rest)
        case None => None
        case Some(cs) => Some([c] + cs)
  }

  /** A reader recovers type, payload and CRC of a written chunk, and stops exactly at its end. */
  lemma ParseMakeChunk(kind: Bytes, payload: Bytes, crc: Bytes -> int, rest: Bytes)
    requires |kind| == 4 && |payload| < U32Limit
    ensures ParseChunk(MakeChunk(kind, payload, crc) + rest)
         == Some((Chunk(kind, payload, crc(kind + payload) % U32Limit), rest))
    ensures CrcValid(Chunk(kind, payload, crc(kind + payload) % U32Limit), crc)
  {
    var m := MakeChunk(kind, payload, crc);
    var s := m + rest;
    var n := |payload|;
    assert s[..4] == m[..4];
    assert s[4..8] == m[4..8];
    assert s[8..8 + n] == m[8..8 + n];
    assert s[8 + n..12 + n] == m[8 + n..];
    assert s[12 + n..] == rest;
  }

  /** Reading a written chunk followed by more chunks yields that chunk, then the rest's chunks. */
  lemma ParseChunksCons(kind: Bytes, payload: Bytes, crc: Bytes -> int, rest: Bytes, cs: seq<Chunk>)
    requires |kind| == 4 && |payload| < U32Limit
    requires ParseChunks(rest) == Some(cs)
    ensures ParseChunks(MakeChunk(kind, payload, crc) + rest)
         == Some([Chunk(kind, payload, crc(kind + payload) % U32Limit)] + cs)
  {
    ParseMakeChunk(kind, payload, crc, rest);
  }
}
