/**
  Scanline framing before compression: the pixel bytes are cut into rows of
  `stride` bytes and each row is preceded by filter-type byte 0 ("None",
  sections 7.3 and 9.2 of the PNG Specification, Second Edition). As with
  Python slicing, a last row shorter than `stride` is kept as it is.
*/
module Scanlines {
  import opened ByteCodec
  import opened Arith

  /** The filter type byte the writer puts before every row. */
  const FilterNone: Byte := 0

  /** The length of the next row: `stride`, or what is left if that is less. */
  function RowLength(n: int, stride: int): (k: int)
    requires 0 < n && 0 < stride
    ensures 0 < k <= n && k <= stride
    ensures k == stride || k == n
  {
    if n < stride then n else stride
  }

  /** The raw (uncompressed) image stream. */
  function Frame(data: Bytes, stride: int): (raw: Bytes)
    requires 0 < stride
    ensures |raw| >= |data|
    ensures |data| > 0 <==> |raw| > 0
    ensures |data| > 0 ==> raw[0] == FilterNone
    decreases |data|
  {
    if |data| == 0 then []
    else
      var n := RowLength(|data|, stride);
      [FilterNone] + data[..n] + Frame(data[n..], stride)
  }

  /** A reader's view of the raw stream: drop the first byte of every `stride + 1` bytes. */
  function Unframe(raw: Bytes, stride: int): (data: Bytes)
    requires 0 < stride
    ensures |data| <= |raw|
    decreases |raw|
  {
    if |raw| == 0 then []
    else
      var n := RowLength(|raw|, stride + 1);
      raw[1..n] + Unframe(raw[n..], stride)
  }

  /** Unframing a stream whose first scanline is `line` peels `line`'s filter byte off. */
  lemma UnframeCons(line: Bytes, rest: Bytes, stride: int)
    requires 0 < stride
    requires 1 <= |line| <= stride + 1
    requires |line| < stride + 1 ==> rest == []
    ensures Unframe(line + rest, stride) == line[1..] + Unframe(rest, stride)
  {
    var raw := line + rest;
    assert RowLength(|raw|, stride + 1) == |line|;
    assert raw[1..|line|] == line[1..];
    assert raw[|line|..] == rest;
  }

  /** Removing the filter bytes gives back exactly the bytes that were framed. */
  lemma {:induction false} UnframeFrame(data: Bytes, stride: int)
    requires 0 < stride
    ensures Unframe(Frame(data, stride), stride) == data
    decreases |data|
  {
    if |data| > 0 {
      var n := RowLength(|data|, stride);
      var line := [FilterNone] + data[..n];
      var rest := Frame(data[n..], stride);
      assert Frame(data, stride) == line + rest;
      UnframeCons(line, rest, stride);
      assert line[1..] == data[..n];
      UnframeFrame(data[n..], stride);
      assert data == data[..n] + data[n..];
    }
  }

  /** The first full row of a buffer, then the rest framed the same way. */
  lemma FrameFirstRow(data: Bytes, stride: int)
    requires 0 < stride <= |data|
    ensures Frame(data, stride) == [FilterNone] + data[..stride] + Frame(data[stride..], stride)
  {
  }

  lemma {:induction false} FrameLength(data: Bytes, stride: int, rows: nat)
    requires 0 < stride
    requires |data| == rows * stride
    ensures |Frame(data, stride)| == rows * (stride + 1)
    decreases rows
  {
    if rows > 0 {
      MulStep(rows - 1, stride);
      MulStep(rows - 1, stride + 1);
      FrameFirstRow(data, stride);
      FrameLength(data[stride..], stride, rows - 1);
    }
  }

  /** Where input row `r` starts when every row has `stride` bytes. */
  function RowStart(r: nat, stride: int): (i: int)
    requires 0 < stride
    ensures 0 <= i
  {
    if r == 0 then 0 else RowStart(r - 1, stride) + stride
  }

  lemma {:induction false} RowStartProduct(r: nat, stride: int)
    requires 0 < stride
    ensures RowStart(r, stride) == r * stride
    decreases r
  {
    if r > 0 {
      RowStartProduct(r - 1, stride);
      MulStep(r - 1, stride);
    }
  }

  /** Carries a row of the framing of `data[stride..]` over to the framing of `data`. */
  lemma FrameRowNext(data: Bytes, stride: int, i: int, o: int)
    requires 0 < stride <= |data|
    requires 0 <= i <= o && i + stride <= |data| - stride
    requires o + stride + 1 <= |Frame(data[stride..], stride)|
    requires Frame(data[stride..], stride)[o] == FilterNone
    requires Frame(data[stride..], stride)[o + 1 .. o + 1 + stride] == data[stride..][i .. i + stride]
    ensures o + stride + 1 + stride + 1 <= |Frame(data, stride)|
    ensures Frame(data, stride)[o + stride + 1] == FilterNone
    ensures Frame(data, stride)[o + stride + 2 .. o + stride + 2 + stride] == data[i + stride .. i + stride + stride]
  {
    FrameFirstRow(data, stride);
    ShiftedRow([FilterNone] + data[..stride], Frame(data[stride..], stride), data, stride, i, o);
  }

  /** Plain sequence fact behind FrameRowNext: a row found in `rest` and in `data[k..]` moves by `|head|` and `k`. */
  lemma ShiftedRow(head: Bytes, rest: Bytes, data: Bytes, k: int, i: int, o: int)
    requires |head| == k + 1 && 0 < k <= |data|
    requires 0 <= i && i + k <= |data| - k
    requires 0 <= o && o + k + 1 <= |rest|
    requires rest[o] == FilterNone
    requires rest[o + 1 .. o + 1 + k] == data[k..][i .. i + k]
    ensures (head + rest)[o + k + 1] == FilterNone
    ensures (head + rest)[o + k + 2 .. o + k + 2 + k] == data[i + k .. i + k + k]
  {
    assert (head + rest)[o + k + 2 .. o + k + 2 + k] == rest[o + 1 .. o + 1 + k];
    assert data[k..][i .. i + k] == data[i + k .. i + k + k];
  }

  /** Row `r` of the raw stream, when input rows 0 to `r` are full: the filter byte, then input row `r`. */
  lemma {:induction false} FrameRow(data: Bytes, stride: int, r: nat)
    requires 0 < stride
    requires RowStart(r, stride) + stride <= |data|
    ensures RowStart(r, stride) + r + stride + 1 <= |Frame(data, stride)|
    ensures Frame(data, stride)[RowStart(r, stride) + r] == FilterNone
    ensures Frame(data, stride)[RowStart(r, stride) + r + 1 .. RowStart(r, stride) + r + 1 + stride]
         == data[RowStart(r, stride) .. RowStart(r, stride) + stride]
    decreases r
  {
    if r == 0 {
      assert RowStart(r, stride) == 0;
      FrameFirstRow(data, stride);
      assert Frame(data, stride)[1..1 + stride] == data[..stride];
    } else {
      var i' := RowStart(r - 1, stride);
      assert RowStart(r, stride) == i' + stride;
      FrameRow(data[stride..], stride, r - 1);
      FrameRowNext(data, stride, i', i' + r - 1);
    }
  }

  /** Plain sequence fact: position `o` of `rest` is position `o + |head|` of `head + rest`. */
  lemma ShiftedTail(head: Bytes, rest: Bytes, o: int)
    requires 0 <= o < |rest|
    ensures (head + rest)[o + |head|] == rest[o]
    ensures (head + rest)[o + |head|..] == rest[o..]
  {
  }

  /** Every scanline starts with the filter byte, a short last row included. */
  lemma {:induction false} FrameFilterByte(data: Bytes, stride: int, r: nat)
    requires 0 < stride
    requires RowStart(r, stride) < |data|
    ensures RowStart(r, stride) + r < |Frame(data, stride)|
    ensures Frame(data, stride)[RowStart(r, stride) + r] == FilterNone
    decreases r
  {
    if r > 0 {
      var i' := RowStart(r - 1, stride);
      assert RowStart(r, stride) == i' + stride;
      FrameFirstRow(data, stride);
      FrameFilterByte(data[stride..], stride, r - 1);
      ShiftedTail([FilterNone] + data[..stride], Frame(data[stride..], stride), i' + r - 1);
    }
  }

  /**
    A short last row, starting at `RowStart(r)`, ends the raw stream: its filter byte,
    then the remaining input bytes as they are.
  */
  lemma {:induction false} FrameShortRow(data: Bytes, stride: int, r: nat)
    requires 0 < stride
    requires RowStart(r, stride) < |data| < RowStart(r, stride) + stride
    ensures RowStart(r, stride) + r < |Frame(data, stride)|
    ensures Frame(data, stride)[RowStart(r, stride) + r..] == [FilterNone] + data[RowStart(r, stride)..]
    decreases r
  {
    if r == 0 {
      assert RowStart(r, stride) == 0;
      assert data[|data|..] == [];
      assert Frame(data, stride) == [FilterNone] + data[..|data|] + Frame([], stride);
      assert data[..|data|] == data;
    } else {
      var i' := RowStart(r - 1, stride);
      assert RowStart(r, stride) == i' + stride;
      FrameFirstRow(data, stride);
      FrameShortRow(data[stride..], stride, r - 1);
      ShiftedTail([FilterNone] + data[..stride], Frame(data[stride..], stride), i' + r - 1);
      assert data[stride..][i'..] == data[i' + stride..];
    }
  }

  /**
    Scanline `r` of `raw` frames row `r` of `data`: filter byte 0 at `r * (stride + 1)`,
    then input bytes `r * stride` up to `(r + 1) * stride`.
  */
  predicate ScanlineAt(raw: seq<int>, data: seq<int>, stride: int, r: int)
  {
    && 0 <= stride
    && 0 <= r * (stride + 1) && r * (stride + 1) + stride + 1 <= |raw|
    && 0 <= r * stride && r * stride + stride <= |data|
    && raw[r * (stride + 1)] == FilterNone
    && raw[r * (stride + 1) + 1 .. r * (stride + 1) + 1 + stride] == data[r * stride .. r * stride + stride]
  }

  /** One row of FrameLayout, with the arithmetic spelled out. */
  lemma FrameLayoutRow(data: Bytes, stride: int, rows: nat, r: int)
    requires 0 < stride
    requires |data| == rows * stride
    requires 0 <= r < rows
    ensures ScanlineAt(Frame(data, stride), data, stride, r)
  {
    MulAddOne(r, stride);
    MulStep(r, stride);
    MulMono(r + 1, rows, stride);
    MulNonneg(r, stride);
    RowStartProduct(r, stride);
    FrameRow(data, stride, r);
  }

  /**
    With a buffer of exactly `rows` full rows of `stride` bytes, the raw stream has
    `rows * (stride + 1)` bytes and every row `r` is framed at `r * (stride + 1)`.
  */
  lemma FrameLayout(data: Bytes, stride: int, rows: nat)
    requires 0 < stride
    requires |data| == rows * stride
    ensures |Frame(data, stride)| == rows * (stride + 1)
    ensures forall r :: 0 <= r < rows ==> ScanlineAt(Frame(data, stride), data, stride, r)
  {
    FrameLength(data, stride, rows);
    forall r | 0 <= r < rows
      ensures ScanlineAt(Frame(data, stride), data, stride, r)
    {
      FrameLayoutRow(data, stride, rows, r);
    }
  }
}
