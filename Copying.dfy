/** The strided row copy a frame performs into a caller's byte array
    (WPF's BitmapSource.CopyPixels(pixels, stride, offset)): row `r` of the
    frame, RowBytes long, lands at `offset + r * stride`. */
module Copying {
  import opened Imaging

  /** The argument checks the copy makes before writing `rows` rows of
      `rowBytes` bytes; when one fails it throws and the array is left as it
      was. */
  predicate CopyFits(rows: int, rowBytes: int, bufferLength: int, stride: int, offset: int)
  {
    && 0 <= offset < bufferLength
    && stride > 0
    && stride >= rowBytes
    && bufferLength - offset >= stride * (rows - 1) + rowBytes
  }

  /** The copy first computes the unpadded row length of the frame,
      `(width * bitsPerPixel + 7) / 8`, in checked 32-bit arithmetic: it throws
      when the intermediate `width * bitsPerPixel + 7` leaves the int range. */
  predicate RowLengthFits(width: int, bitsPerPixel: int)
  {
    width * bitsPerPixel + 7 <= Int32Max
  }

  /** Position `i` of the array lies in one of the first `rows` rows written
      at `offset` with `stride`, within the row's first `rowBytes` bytes. */
  predicate InRows(i: int, offset: int, stride: int, rows: int, rowBytes: int)
    requires stride > 0
  {
    offset <= i && (i - offset) / stride < rows && (i - offset) % stride < rowBytes
  }

  /** The byte of the source buffer that a copy puts at position `i`. */
  function SourceIndex(i: int, offset: int, stride: int, rowBytes: int): int
    requires stride > 0
  {
    ((i - offset) / stride) * rowBytes + (i - offset) % stride
  }

  /** A positive multiple of `stride` is at least `stride`. */
  lemma MultipleAtLeast(d: int, stride: int)
    requires d >= 1 && stride > 0
    ensures d * stride >= stride
  {
    assert d * stride == (d - 1) * stride + stride;
  }

  /** Byte `col` of row `row` of `height` rows of `width` bytes lies inside them. */
  lemma RowFits(row: int, col: int, width: int, height: int)
    requires 0 <= row < height && 0 <= col < width
    ensures 0 <= row * width + col < width * height
  {
    assert row * width + width == (row + 1) * width;
    assert (row + 1) * width <= height * width;
  }

  /** Multiplying by a non-negative factor keeps the order. */
  lemma MulMonotone(x: int, y: int, s: int)
    requires s >= 0
    ensures x >= y ==> x * s >= y * s
  {
    if x >= y {
      assert x * s - y * s == (x - y) * s;
    }
  }

  /** A non-empty range of `stride * height` positions has a positive stride. */
  lemma PositiveStride(i: int, stride: int, height: int)
    requires stride >= 0 && height >= 0 && 0 <= i < stride * height
    ensures stride > 0
  {
    MulMonotone(0, stride, height);
  }

  /** Position `i` of `height` rows of `stride` bytes lies in one of those rows. */
  lemma RowOfIndex(i: int, stride: int, height: int)
    requires stride > 0 && 0 <= i < stride * height
    ensures 0 <= i / stride < height
  {
    assert i == (i / stride) * stride + i % stride;
    MulMonotone(i / stride, height, stride);
  }

  /** Splitting `row * stride + col` back into its row and column. */
  lemma RowAndColumn(stride: int, row: int, col: int)
    requires stride > 0 && row >= 0 && 0 <= col < stride
    ensures (row * stride + col) / stride == row
    ensures (row * stride + col) % stride == col
  {
    var j := row * stride + col;
    var q, m := j / stride, j % stride;
    assert j == q * stride + m;
    assert (row - q) * stride == m - col by {
      assert (row - q) * stride == row * stride - q * stride;
    }
    if row > q {
      MultipleAtLeast(row - q, stride);
    } else if row < q {
      MultipleAtLeast(q - row, stride);
    }
  }

  /** Position `i` is in row `row` of the copy, within its first `rowBytes`
      bytes, exactly when it lies in that row's byte range. */
  lemma InRowRange(i: int, offset: int, stride: int, row: int, rowBytes: int)
    requires stride > 0 && row >= 0 && 0 <= rowBytes <= stride
    ensures (offset <= i && (i - offset) / stride == row && (i - offset) % stride < rowBytes)
        <==> (offset + row * stride <= i < offset + row * stride + rowBytes)
  {
    if offset + row * stride <= i < offset + row * stride + rowBytes {
      RowAndColumn(stride, row, i - offset - row * stride);
    }
    if offset <= i {
      var j := i - offset;
      assert j == (j / stride) * stride + j % stride;
    }
  }

  /** Every position a copy covers reads a byte inside the source buffer. */
  lemma SourceIndexInBounds(i: int, offset: int, stride: int, rows: int, rowBytes: nat)
    requires stride > 0 && InRows(i, offset, stride, rows, rowBytes)
    ensures 0 <= SourceIndex(i, offset, stride, rowBytes) < rows * rowBytes
  {
    var q, m := (i - offset) / stride, (i - offset) % stride;
    assert 0 <= q && q + 1 <= rows;
    assert q * rowBytes + rowBytes == (q + 1) * rowBytes;
    assert (q + 1) * rowBytes <= rows * rowBytes;
  }

  /** A covered position lies before the end of the covered rows. */
  lemma InRowsBelowEnd(i: int, offset: int, stride: int, rows: int, rowBytes: int)
    requires stride > 0 && 0 <= rowBytes <= stride && InRows(i, offset, stride, rows, rowBytes)
    ensures i < offset + (rows - 1) * stride + rowBytes
  {
    var q := (i - offset) / stride;
    assert i - offset == q * stride + (i - offset) % stride;
    MulMonotone(rows - 1, q, stride);
  }

  /** `dst` after the copy of `src`, `rows` rows of `rowBytes` bytes, has
      written every covered position before `limit`. */
  function PartialBlit(dst: seq<byte>, src: seq<byte>, rows: nat, rowBytes: nat, stride: int, offset: int,
                       limit: int): (r: seq<byte>)
    requires |src| == rows * rowBytes && CopyFits(rows, rowBytes, |dst|, stride, offset)
    ensures |r| == |dst|
  {
    seq(|dst|, i requires 0 <= i < |dst| =>
      if i < limit && InRows(i, offset, stride, rows, rowBytes) then
        SourceIndexInBounds(i, offset, stride, rows, rowBytes);
        src[SourceIndex(i, offset, stride, rowBytes)]
      else dst[i])
  }

  /** `dst` after the whole copy. */
  function Blit(dst: seq<byte>, src: seq<byte>, rows: nat, rowBytes: nat, stride: int, offset: int): (r: seq<byte>)
    requires |src| == rows * rowBytes && CopyFits(rows, rowBytes, |dst|, stride, offset)
    ensures |r| == |dst|
  {
    PartialBlit(dst, src, rows, rowBytes, stride, offset, |dst|)
  }

  /** The copy puts byte `col` of source row `row` at `offset + row * stride + col`. */
  lemma BlitWrites(dst: seq<byte>, src: seq<byte>, rows: nat, rowBytes: nat, stride: int, offset: int,
                   row: int, col: int)
    requires |src| == rows * rowBytes && CopyFits(rows, rowBytes, |dst|, stride, offset)
    requires 0 <= row < rows && 0 <= col < rowBytes
    ensures 0 <= offset + row * stride + col < |dst|
    ensures 0 <= row * rowBytes + col < |src|
    ensures Blit(dst, src, rows, rowBytes, stride, offset)[offset + row * stride + col]
         == src[row * rowBytes + col]
  {
    var i := offset + row * stride + col;
    RowAndColumn(stride, row, col);
    assert InRows(i, offset, stride, rows, rowBytes);
    InRowsBelowEnd(i, offset, stride, rows, rowBytes);
    SourceIndexInBounds(i, offset, stride, rows, rowBytes);
  }

  /** A covered position holds the source byte the copy reads for it. */
  lemma BlitCovered(dst: seq<byte>, src: seq<byte>, rows: nat, rowBytes: nat, stride: int, offset: int, i: int)
    requires |src| == rows * rowBytes && CopyFits(rows, rowBytes, |dst|, stride, offset)
    requires 0 <= i < |dst| && InRows(i, offset, stride, rows, rowBytes)
    ensures 0 <= SourceIndex(i, offset, stride, rowBytes) < |src|
    ensures Blit(dst, src, rows, rowBytes, stride, offset)[i] == src[SourceIndex(i, offset, stride, rowBytes)]
  {
    SourceIndexInBounds(i, offset, stride, rows, rowBytes);
  }

  /** The copy leaves every position outside its rows' byte ranges as it was. */
  lemma BlitKeeps(dst: seq<byte>, src: seq<byte>, rows: nat, rowBytes: nat, stride: int, offset: int, i: int)
    requires |src| == rows * rowBytes && CopyFits(rows, rowBytes, |dst|, stride, offset)
    requires 0 <= i < |dst| && !InRows(i, offset, stride, rows, rowBytes)
    ensures Blit(dst, src, rows, rowBytes, stride, offset)[i] == dst[i]
  {
  }

  /** Writing the byte at `offset + row * stride + col` extends the copy by one position. */
  lemma PartialBlitStep(dst: seq<byte>, src: seq<byte>, rows: nat, rowBytes: nat, stride: int, offset: int,
                        row: int, col: int)
    requires |src| == rows * rowBytes && CopyFits(rows, rowBytes, |dst|, stride, offset)
    requires 0 <= row < rows && 0 <= col < rowBytes
    ensures 0 <= offset + row * stride + col < |dst|
    ensures 0 <= row * rowBytes + col < |src|
    ensures PartialBlit(dst, src, rows, rowBytes, stride, offset, offset + row * stride + col + 1)
         == PartialBlit(dst, src, rows, rowBytes, stride, offset, offset + row * stride + col)
              [offset + row * stride + col := src[row * rowBytes + col]]
  {
    var p := offset + row * stride + col;
    RowAndColumn(stride, row, col);
    assert InRows(p, offset, stride, rows, rowBytes);
    assert SourceIndex(p, offset, stride, rowBytes) == row * rowBytes + col;
    InRowsBelowEnd(p, offset, stride, rows, rowBytes);
    SourceIndexInBounds(p, offset, stride, rows, rowBytes);
    var before := PartialBlit(dst, src, rows, rowBytes, stride, offset, p);
    var after := PartialBlit(dst, src, rows, rowBytes, stride, offset, p + 1);
    forall j | 0 <= j < |dst| && j != p
      ensures after[j] == before[j]
    {
    }
    assert after[p] == src[row * rowBytes + col];
  }

  /** Between the end of one row's bytes and the start of the next row the
      copy covers nothing. */
  lemma PartialBlitGap(dst: seq<byte>, src: seq<byte>, rows: nat, rowBytes: nat, stride: int, offset: int,
                       row: int)
    requires |src| == rows * rowBytes && CopyFits(rows, rowBytes, |dst|, stride, offset)
    requires 0 <= row < rows
    ensures PartialBlit(dst, src, rows, rowBytes, stride, offset, offset + row * stride + rowBytes)
         == PartialBlit(dst, src, rows, rowBytes, stride, offset, offset + (row + 1) * stride)
  {
    var lo, hi := offset + row * stride + rowBytes, offset + (row + 1) * stride;
    forall i | 0 <= i < |dst| && lo <= i < hi
      ensures !InRows(i, offset, stride, rows, rowBytes)
    {
      InRowRange(i, offset, stride, row, rowBytes);
      InRowRange(i, offset, stride, row, stride);
      assert offset + row * stride + stride == hi;
    }
  }

  /** Once every row is written the copy is complete. */
  lemma PartialBlitDone(dst: seq<byte>, src: seq<byte>, rows: nat, rowBytes: nat, stride: int, offset: int)
    requires |src| == rows * rowBytes && CopyFits(rows, rowBytes, |dst|, stride, offset)
    ensures PartialBlit(dst, src, rows, rowBytes, stride, offset, offset + rows * stride)
         == Blit(dst, src, rows, rowBytes, stride, offset)
  {
    forall i | 0 <= i < |dst| && InRows(i, offset, stride, rows, rowBytes)
      ensures i < offset + rows * stride
    {
      InRowsBelowEnd(i, offset, stride, rows, rowBytes);
      assert (rows - 1) * stride + stride == rows * stride;
    }
  }

  /** Copy the frame's rows into `buffer`: row `r` goes to `offset + r * stride`.
      When an argument check fails nothing is written and `ok` is false. */
  method CopyPixels(src: Bitmap, buffer: array<byte>, stride: int, offset: int) returns (ok: bool)
    requires Decoded(src)
    modifies buffer
    ensures ok == (RowLengthFits(src.width, BitsPerPixel(src.format)) &&
                   CopyFits(src.height, RowBytes(src.format, src.width), buffer.Length, stride, offset))
    ensures ok ==> buffer[..] == Blit(old(buffer[..]), src.pixels, src.height, RowBytes(src.format, src.width),
                                      stride, offset)
    ensures !ok ==> buffer[..] == old(buffer[..])
  {
    var rows, rowBytes := src.height, RowBytes(src.format, src.width);
    if !RowLengthFits(src.width, BitsPerPixel(src.format)) || !CopyFits(rows, rowBytes, buffer.Length, stride, offset) {
      return false;
    }
    ghost var dst := buffer[..];
    var row := 0;
    while row < rows
      invariant 0 <= row <= rows
      invariant buffer[..] == PartialBlit(dst, src.pixels, rows, rowBytes, stride, offset, offset + row * stride)
    {
      var col := 0;
      while col < rowBytes
        invariant 0 <= col <= rowBytes
        invariant buffer[..] == PartialBlit(dst, src.pixels, rows, rowBytes, stride, offset,
                                            offset + row * stride + col)
      {
        PartialBlitStep(dst, src.pixels, rows, rowBytes, stride, offset, row, col);
        buffer[offset + row * stride + col] := src.pixels[row * rowBytes + col];
        col := col + 1;
      }
      PartialBlitGap(dst, src.pixels, rows, rowBytes, stride, offset, row);
      row := row + 1;
    }
    PartialBlitDone(dst, src.pixels, rows, rowBytes, stride, offset);
    return true;
  }
}
