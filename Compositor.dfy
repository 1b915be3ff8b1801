/** Side-by-side compositing of a CMYK frame A and a frame B of the same
    height: B is converted to A's format and the output's rows are A's row
    followed by B's row. */
module Compositor {
  import opened Imaging
  import opened Copying

  /** Why compositing stops before producing an output. */
  datatype Error =
    | NotCmyk          // image A is not Cmyk32
    | HeightMismatch   // image B's height differs from image A's
    | LayoutOverflow   // the output's byte count does not fit a 32-bit int
    | RowLengthOverflow // a copy's checked row-length arithmetic leaves the int range

  datatype Result<T> = Ok(value: T) | Err(error: Error)

  /** The reference layout of `height` rows of `rowA + rowC` bytes: byte
      `col` of row `row` is byte `col` of the left image's row when `col` is
      within that row, and otherwise the matching byte of the right image's row. */
  function Juxtapose(left: seq<byte>, right: seq<byte>, rowA: nat, rowC: nat, height: nat): (s: seq<byte>)
    requires |left| == rowA * height && |right| == rowC * height
    ensures |s| == (rowA + rowC) * height
  {
    var stride := rowA + rowC;
    seq(stride * height, i requires 0 <= i < stride * height =>
      PositiveStride(i, stride, height);
      RowOfIndex(i, stride, height);
      var row, col := i / stride, i % stride;
      if col < rowA then
        RowFits(row, col, rowA, height);
        left[row * rowA + col]
      else
        RowFits(row, col - rowA, rowC, height);
        right[row * rowC + (col - rowA)])
  }

  /** The side-by-side image of two frames of equal height. */
  function SideBySide(a: Bitmap, c: Bitmap): (s: seq<byte>)
    requires Decoded(a) && Decoded(c) && a.height == c.height
    ensures |s| == (RowBytes(a.format, a.width) + RowBytes(c.format, c.width)) * a.height
  {
    Juxtapose(a.pixels, c.pixels, RowBytes(a.format, a.width), RowBytes(c.format, c.width), a.height)
  }

  /** The output built row by row: the left image's first row, then the right
      image's first row, then the side-by-side image of the remaining rows. */
  function Interleave(left: seq<byte>, right: seq<byte>, rowA: nat, rowC: nat, height: nat): (s: seq<byte>)
    requires |left| == rowA * height && |right| == rowC * height
    ensures |s| == (rowA + rowC) * height
    decreases height
  {
    if height == 0 then []
    else
      MulMonotone(height, 1, rowA);
      MulMonotone(height, 1, rowC);
      left[..rowA] + right[..rowC] + Interleave(left[rowA..], right[rowC..], rowA, rowC, height - 1)
  }

  /** Left region: the left image's rows appear unchanged at the start of
      each output row. */
  lemma JuxtaposeLeft(left: seq<byte>, right: seq<byte>, rowA: nat, rowC: nat, height: nat, row: int, col: int)
    requires |left| == rowA * height && |right| == rowC * height
    requires 0 <= row < height && 0 <= col < rowA
    ensures 0 <= row * rowA + col < |left|
    ensures 0 <= row * (rowA + rowC) + col < (rowA + rowC) * height
    ensures Juxtapose(left, right, rowA, rowC, height)[row * (rowA + rowC) + col] == left[row * rowA + col]
  {
    var stride := rowA + rowC;
    RowAndColumn(stride, row, col);
    RowFits(row, col, stride, height);
    RowFits(row, col, rowA, height);
  }

  /** Right region: the right image's rows appear unchanged after the left
      image's bytes in each output row. */
  lemma JuxtaposeRight(left: seq<byte>, right: seq<byte>, rowA: nat, rowC: nat, height: nat, row: int, col: int)
    requires |left| == rowA * height && |right| == rowC * height
    requires 0 <= row < height && 0 <= col < rowC
    ensures 0 <= row * rowC + col < |right|
    ensures 0 <= row * (rowA + rowC) + rowA + col < (rowA + rowC) * height
    ensures Juxtapose(left, right, rowA, rowC, height)[row * (rowA + rowC) + rowA + col]
         == right[row * rowC + col]
  {
    var stride := rowA + rowC;
    RowAndColumn(stride, row, rowA + col);
    RowFits(row, rowA + col, stride, height);
    RowFits(row, col, rowC, height);
  }

  /** A position of an output of `rows` rows of `stride` bytes, as a row and
      a column. */
  lemma RowColumnOf(j: int, stride: nat, rows: nat) returns (row: int, col: int)
    requires 0 <= j < stride * rows
    ensures 0 <= row < rows && 0 <= col < stride && j == row * stride + col
  {
    PositiveStride(j, stride, rows);
    RowOfIndex(j, stride, rows);
    row, col := j / stride, j % stride;
  }

  /** Below the first row, the left region is the left region of the
      side-by-side image of the remaining rows. */
  lemma ShiftLeft(left: seq<byte>, right: seq<byte>, rowA: nat, rowC: nat, height: nat, row: int, col: int)
    requires |left| == rowA * height && |right| == rowC * height
    requires 0 <= row < height - 1 && 0 <= col < rowA
    ensures |left[rowA..]| == rowA * (height - 1) && |right[rowC..]| == rowC * (height - 1)
    ensures 0 <= row * (rowA + rowC) + col < (rowA + rowC) * (height - 1)
    ensures Juxtapose(left, right, rowA, rowC, height)[(rowA + rowC) + (row * (rowA + rowC) + col)]
         == Juxtapose(left[rowA..], right[rowC..], rowA, rowC, height - 1)[row * (rowA + rowC) + col]
  {
    var stride := rowA + rowC;
    assert (row + 1) * stride == stride + row * stride;
    assert (row + 1) * rowA + col == rowA + (row * rowA + col);
    JuxtaposeLeft(left, right, rowA, rowC, height, row + 1, col);
    JuxtaposeLeft(left[rowA..], right[rowC..], rowA, rowC, height - 1, row, col);
  }

  /** Below the first row, the right region is the right region of the
      side-by-side image of the remaining rows. */
  lemma ShiftRight(left: seq<byte>, right: seq<byte>, rowA: nat, rowC: nat, height: nat, row: int, col: int)
    requires |left| == rowA * height && |right| == rowC * height
    requires 0 <= row < height - 1 && 0 <= col < rowC
    ensures |left[rowA..]| == rowA * (height - 1) && |right[rowC..]| == rowC * (height - 1)
    ensures 0 <= row * (rowA + rowC) + rowA + col < (rowA + rowC) * (height - 1)
    ensures Juxtapose(left, right, rowA, rowC, height)[(rowA + rowC) + (row * (rowA + rowC) + rowA + col)]
         == Juxtapose(left[rowA..], right[rowC..], rowA, rowC, height - 1)[row * (rowA + rowC) + rowA + col]
  {
    var stride := rowA + rowC;
    assert (row + 1) * stride == stride + row * stride;
    assert (row + 1) * rowC + col == rowC + (row * rowC + col);
    JuxtaposeRight(left, right, rowA, rowC, height, row + 1, col);
    JuxtaposeRight(left[rowA..], right[rowC..], rowA, rowC, height - 1, row, col);
  }

  /** The output is its first row, the left image's row followed by the right
      image's row, then the side-by-side image of the remaining rows. */
  lemma JuxtaposeFirstRow(left: seq<byte>, right: seq<byte>, rowA: nat, rowC: nat, height: nat)
    requires |left| == rowA * height && |right| == rowC * height && height >= 1
    ensures |left[rowA..]| == rowA * (height - 1) && |right[rowC..]| == rowC * (height - 1)
    ensures Juxtapose(left, right, rowA, rowC, height)
         == left[..rowA] + right[..rowC] + Juxtapose(left[rowA..], right[rowC..], rowA, rowC, height - 1)
  {
    MulMonotone(height, 1, rowA);
    MulMonotone(height, 1, rowC);
    var stride := rowA + rowC;
    var s := Juxtapose(left, right, rowA, rowC, height);
    var rest := Juxtapose(left[rowA..], right[rowC..], rowA, rowC, height - 1);
    var t := left[..rowA] + right[..rowC] + rest;
    assert |t| == |s|;
    forall i | 0 <= i < |s|
      ensures s[i] == t[i]
    {
      if i < rowA {
        JuxtaposeLeft(left, right, rowA, rowC, height, 0, i);
      } else if i < stride {
        JuxtaposeRight(left, right, rowA, rowC, height, 0, i - rowA);
      } else {
        var row, col := RowColumnOf(i - stride, stride, height - 1);
        if col < rowA {
          ShiftLeft(left, right, rowA, rowC, height, row, col);
        } else {
          ShiftRight(left, right, rowA, rowC, height, row, col - rowA);
        }
      }
    }
  }

  /** The closed-form layout and the row-by-row layout are the same image. */
  lemma {:induction false} JuxtaposeIsInterleave(left: seq<byte>, right: seq<byte>, rowA: nat, rowC: nat, height: nat)
    requires |left| == rowA * height && |right| == rowC * height
    ensures Juxtapose(left, right, rowA, rowC, height) == Interleave(left, right, rowA, rowC, height)
    decreases height
  {
    if height > 0 {
      JuxtaposeFirstRow(left, right, rowA, rowC, height);
      JuxtaposeIsInterleave(left[rowA..], right[rowC..], rowA, rowC, height - 1);
    }
  }

  /** Each output row is the left image's row followed by the right image's row. */
  lemma JuxtaposeRow(left: seq<byte>, right: seq<byte>, rowA: nat, rowC: nat, height: nat, row: int)
    requires |left| == rowA * height && |right| == rowC * height
    requires 0 <= row < height
    ensures 0 <= row * rowA <= (row + 1) * rowA <= |left|
    ensures 0 <= row * rowC <= (row + 1) * rowC <= |right|
    ensures 0 <= row * (rowA + rowC) <= (row + 1) * (rowA + rowC) <= (rowA + rowC) * height
    ensures Juxtapose(left, right, rowA, rowC, height)[row * (rowA + rowC) .. (row + 1) * (rowA + rowC)]
         == left[row * rowA .. (row + 1) * rowA] + right[row * rowC .. (row + 1) * rowC]
  {
    var stride := rowA + rowC;
    MulMonotone(height, row + 1, rowA);
    MulMonotone(height, row + 1, rowC);
    MulMonotone(height, row + 1, stride);
    MulMonotone(row + 1, row, rowA);
    MulMonotone(row + 1, row, rowC);
    MulMonotone(row, 0, stride);
    assert (row + 1) * stride == row * stride + rowA + rowC;
    assert (row + 1) * rowA == row * rowA + rowA;
    assert (row + 1) * rowC == row * rowC + rowC;
    var out := Juxtapose(left, right, rowA, rowC, height)[row * stride .. (row + 1) * stride];
    var expected := left[row * rowA .. (row + 1) * rowA] + right[row * rowC .. (row + 1) * rowC];
    forall k | 0 <= k < stride
      ensures out[k] == expected[k]
    {
      if k < rowA {
        JuxtaposeLeft(left, right, rowA, rowC, height, row, k);
      } else {
        JuxtaposeRight(left, right, rowA, rowC, height, row, k - rowA);
      }
    }
  }

  /** In an output of `height` rows of `rowA + rowC` bytes, the bytes the
      copy of the left image writes (at offset 0) and those the copy of the
      right image writes (at offset `rowA`) are disjoint and together cover
      every byte of the output. */
  lemma CopyRegionsPartition(rowA: nat, rowC: nat, height: nat, i: int)
    requires rowA > 0 && rowC > 0
    requires 0 <= i < (rowA + rowC) * height
    ensures InRows(i, 0, rowA + rowC, height, rowA) <==> !InRows(i, rowA, rowA + rowC, height, rowC)
  {
    var stride := rowA + rowC;
    var q, m := i / stride, i % stride;
    RowOfIndex(i, stride, height);
    assert i == q * stride + m;
    if m < rowA {
      if i >= rowA {
        assert q >= 1;
        assert i - rowA == (q - 1) * stride + (m + rowC);
        RowAndColumn(stride, q - 1, m + rowC);
      }
    } else {
      assert i - rowA == q * stride + (m - rowA);
      RowAndColumn(stride, q, m - rowA);
    }
  }

  /** Both copies into an output of `height` rows of `rowA + rowC` bytes pass
      the copy's argument checks, so every byte they write lies inside the output. */
  lemma CopiesFit(rowA: nat, rowC: nat, height: nat)
    requires rowA > 0 && rowC > 0 && height > 0
    ensures CopyFits(height, rowA, (rowA + rowC) * height, rowA + rowC, 0)
    ensures CopyFits(height, rowC, (rowA + rowC) * height, rowA + rowC, rowA)
  {
    assert (rowA + rowC) * (height - 1) + (rowA + rowC) == (rowA + rowC) * height;
  }

  /** A position in the left region after both copies: the second copy
      does not touch it, the first put the left image's byte there. */
  lemma TwoCopiesAtLeft(left: seq<byte>, right: seq<byte>, rowA: nat, rowC: nat, height: nat, dst: seq<byte>, i: int)
    requires rowA > 0 && rowC > 0 && height > 0
    requires |left| == rowA * height && |right| == rowC * height
    requires |dst| == (rowA + rowC) * height
    requires CopyFits(height, rowA, |dst|, rowA + rowC, 0)
    requires CopyFits(height, rowC, |dst|, rowA + rowC, rowA)
    requires 0 <= i < |dst| && i % (rowA + rowC) < rowA
    ensures Blit(Blit(dst, left, height, rowA, rowA + rowC, 0), right, height, rowC, rowA + rowC, rowA)[i]
         == Juxtapose(left, right, rowA, rowC, height)[i]
  {
    var stride := rowA + rowC;
    var first := Blit(dst, left, height, rowA, stride, 0);
    var q, m := i / stride, i % stride;
    RowOfIndex(i, stride, height);
    CopyRegionsPartition(rowA, rowC, height, i);
    assert InRows(i, 0, stride, height, rowA);
    BlitKeeps(first, right, height, rowC, stride, rowA, i);
    BlitCovered(dst, left, height, rowA, stride, 0, i);
    assert SourceIndex(i, 0, stride, rowA) == q * rowA + m;
  }

  /** A position in the right region after both copies: the second copy put
      the right image's byte there. */
  lemma TwoCopiesAtRight(left: seq<byte>, right: seq<byte>, rowA: nat, rowC: nat, height: nat, dst: seq<byte>, i: int)
    requires rowA > 0 && rowC > 0 && height > 0
    requires |left| == rowA * height && |right| == rowC * height
    requires |dst| == (rowA + rowC) * height
    requires CopyFits(height, rowA, |dst|, rowA + rowC, 0)
    requires CopyFits(height, rowC, |dst|, rowA + rowC, rowA)
    requires 0 <= i < |dst| && i % (rowA + rowC) >= rowA
    ensures Blit(Blit(dst, left, height, rowA, rowA + rowC, 0), right, height, rowC, rowA + rowC, rowA)[i]
         == Juxtapose(left, right, rowA, rowC, height)[i]
  {
    var stride := rowA + rowC;
    var first := Blit(dst, left, height, rowA, stride, 0);
    var q, m := RowColumnOf(i, stride, height);
    RowAndColumn(stride, q, m);
    assert i - rowA == q * stride + (m - rowA);
    RowAndColumn(stride, q, m - rowA);
    assert InRows(i, rowA, stride, height, rowC);
    BlitCovered(first, right, height, rowC, stride, rowA, i);
    assert SourceIndex(i, rowA, stride, rowC) == q * rowC + (m - rowA);
    JuxtaposeRight(left, right, rowA, rowC, height, q, m - rowA);
  }

  /** Copying the left image at offset 0 and then the right image at offset
      `rowA` into any buffer of the output's size yields the juxtaposed
      image: no byte of the buffer's initial contents survives. */
  lemma TwoCopiesJuxtapose(left: seq<byte>, right: seq<byte>, rowA: nat, rowC: nat, height: nat, dst: seq<byte>)
    requires rowA > 0 && rowC > 0 && height > 0
    requires |left| == rowA * height && |right| == rowC * height
    requires |dst| == (rowA + rowC) * height
    ensures CopyFits(height, rowA, |dst|, rowA + rowC, 0)
    ensures CopyFits(height, rowC, |dst|, rowA + rowC, rowA)
    ensures Blit(Blit(dst, left, height, rowA, rowA + rowC, 0), right, height, rowC, rowA + rowC, rowA)
         == Juxtapose(left, right, rowA, rowC, height)
  {
    CopiesFit(rowA, rowC, height);
    forall i | 0 <= i < |dst|
      ensures Blit(Blit(dst, left, height, rowA, rowA + rowC, 0), right, height, rowC, rowA + rowC, rowA)[i]
           == Juxtapose(left, right, rowA, rowC, height)[i]
    {
      if i % (rowA + rowC) < rowA {
        TwoCopiesAtLeft(left, right, rowA, rowC, height, dst, i);
      } else {
        TwoCopiesAtRight(left, right, rowA, rowC, height, dst, i);
      }
    }
  }

  /** The second copy (of the right image, at offset `rowA`) leaves the left
      region of every row as it found it. */
  lemma SecondCopyKeepsLeft(right: seq<byte>, rowA: nat, rowC: nat, height: nat, dst: seq<byte>, row: int, col: int)
    requires rowA > 0 && rowC > 0 && height > 0
    requires |right| == rowC * height && |dst| == (rowA + rowC) * height
    requires 0 <= row < height && 0 <= col < rowA
    ensures CopyFits(height, rowC, |dst|, rowA + rowC, rowA)
    ensures 0 <= row * (rowA + rowC) + col < |dst|
    ensures Blit(dst, right, height, rowC, rowA + rowC, rowA)[row * (rowA + rowC) + col]
         == dst[row * (rowA + rowC) + col]
  {
    var stride := rowA + rowC;
    CopiesFit(rowA, rowC, height);
    var i := row * stride + col;
    RowAndColumn(stride, row, col);
    RowFits(row, col, stride, height);
    assert InRows(i, 0, stride, height, rowA);
    CopyRegionsPartition(rowA, rowC, height, i);
    BlitKeeps(dst, right, height, rowC, stride, rowA, i);
  }

  /** For two Cmyk32 frames of equal height, the two copies `Compose` makes
      into an output of `(A.width + C.width) * 4`-byte rows pass their
      argument checks and together produce the side-by-side image. */
  lemma CmykCopiesMakeSideBySide(a: Bitmap, c: Bitmap, dst: seq<byte>)
    requires Decoded(a) && Decoded(c) && a.format == Cmyk32 && c.format == Cmyk32 && a.height == c.height
    requires |dst| == (a.width + c.width) * 4 * a.height
    ensures CopyFits(a.height, RowBytes(a.format, a.width), |dst|, (a.width + c.width) * 4, 0)
    ensures CopyFits(c.height, RowBytes(c.format, c.width), |dst|, (a.width + c.width) * 4, a.width * 4)
    ensures Blit(Blit(dst, a.pixels, a.height, RowBytes(a.format, a.width), (a.width + c.width) * 4, 0),
                 c.pixels, c.height, RowBytes(c.format, c.width), (a.width + c.width) * 4, a.width * 4)
         == SideBySide(a, c)
  {
    CmykRowBytes(a.width);
    CmykRowBytes(c.width);
    assert (a.width + c.width) * 4 == a.width * 4 + c.width * 4;
    TwoCopiesJuxtapose(a.pixels, c.pixels, a.width * 4, c.width * 4, a.height, dst);
  }

  /** Two one-pixel-wide, two-row images side by side: the output's first
      column is the left image and its second column the right image. */
  lemma TwoRowExample()
    ensures Juxtapose([1, 2, 3, 4, 5, 6, 7, 8], [11, 12, 13, 14, 15, 16, 17, 18], 4, 4, 2)
         == [1, 2, 3, 4, 11, 12, 13, 14, 5, 6, 7, 8, 15, 16, 17, 18]
  {
    var left: seq<byte>, right: seq<byte> := [1, 2, 3, 4, 5, 6, 7, 8], [11, 12, 13, 14, 15, 16, 17, 18];
    var s := Juxtapose(left, right, 4, 4, 2);
    assert s[0..8] == [1, 2, 3, 4, 11, 12, 13, 14] by {
      JuxtaposeRow(left, right, 4, 4, 2, 0);
      assert left[0..4] == [1, 2, 3, 4] && right[0..4] == [11, 12, 13, 14];
    }
    assert s[8..16] == [5, 6, 7, 8, 15, 16, 17, 18] by {
      JuxtaposeRow(left, right, 4, 4, 2, 1);
      assert left[4..8] == [5, 6, 7, 8] && right[4..8] == [15, 16, 17, 18];
    }
    assert s == s[0..8] + s[8..16];
  }

  /** Composite A and B side by side: A must be Cmyk32 and B as tall as A;
      B is converted to A's format, a zeroed buffer of `stride * height`
      bytes is allocated, A's rows are copied to offset 0 and the converted
      B's rows to offset `A.width * 4` of each output row. The output carries
      A's format and resolution. */
  method Compose(a: Bitmap, b: Bitmap, convert: ColourTransform) returns (r: Result<Bitmap>)
    requires Decoded(a) && Decoded(b)
    ensures r == Err(NotCmyk) <==> a.format != Cmyk32
    ensures r == Err(HeightMismatch) <==> a.format == Cmyk32 && b.height != a.height
    ensures r == Err(LayoutOverflow) <==>
      a.format == Cmyk32 && b.height == a.height && (a.width + b.width) * 4 * a.height > Int32Max
    ensures r == Err(RowLengthOverflow) <==>
      && a.format == Cmyk32 && b.height == a.height && (a.width + b.width) * 4 * a.height <= Int32Max
      && !(RowLengthFits(a.width, 32) && RowLengthFits(b.width, 32))
    ensures r.Ok? <==>
      && a.format == Cmyk32 && b.height == a.height && (a.width + b.width) * 4 * a.height <= Int32Max
      && RowLengthFits(a.width, 32) && RowLengthFits(b.width, 32)
    ensures r.Ok? ==>
      && Decoded(r.value)
      && r.value.width == a.width + b.width
      && r.value.height == a.height
      && r.value.format == a.format
      && r.value.dpiX == a.dpiX && r.value.dpiY == a.dpiY
      && |r.value.pixels| == (a.width + b.width) * 4 * a.height
      && r.value.pixels == SideBySide(a, ConvertFormat(b, a.format, convert))
  {
    if a.format != Cmyk32 {
      return Err(NotCmyk);
    }
    if b.height != a.height {
      return Err(HeightMismatch);
    }
    var bCmyk := ConvertFormat(b, a.format, convert);

    var width := a.width + b.width;
    var height := a.height;
    var bytesPerPixel := BitsPerPixel(a.format) / 8;
    var stride := width * bytesPerPixel;
    if stride * height > Int32Max {
      return Err(LayoutOverflow);
    }
    var buffer := new byte[stride * height](_ => 0);

    assert bytesPerPixel == 4 && stride == (a.width + b.width) * 4;
    CmykRowBytes(width);
    ghost var zeroed := buffer[..];
    CmykCopiesMakeSideBySide(a, bCmyk, zeroed);
    var ok := CopyPixels(a, buffer, stride, 0);
    if !ok {
      return Err(RowLengthOverflow);
    }
    ok := CopyPixels(bCmyk, buffer, stride, a.width * bytesPerPixel);
    if !ok {
      return Err(RowLengthOverflow);
    }

    r := Ok(Bitmap(width, height, a.dpiX, a.dpiY, a.format, buffer[..]));
  }
}
