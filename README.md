# CmykRgbCompositor: side-by-side compositing of a CMYK and an RGB frame

`CmykRgbCompositor` loads two TIFF frames. Frame A must be CMYK (`Cmyk32`, four bytes per pixel). Frame B can be in any format but must be as tall as A. B is converted to A's pixel format. The program then builds one wider frame whose rows are A's row followed by converted B's row, and saves it as a TIFF. This project models that compositing core in Dafny and proves what it produces.

- `Imaging.dfy`: the data model.
  - `byte` and the pixel formats, each with its bits per pixel.
  - `RowBytes`: the length of an unpadded row.
  - `Bitmap`: width, height, DPI, format and row-major pixels. `Decoded` is what a decoder delivers: a non-empty frame holding exactly `height` unpadded rows.
  - The format conversion, which is opaque. `ColourTransform` is *any* function that yields unpadded rows of the target format over the same pixel grid. `ConvertFormat` builds the converted frame: same size and DPI, the target format.
- `Copying.dfy`: the strided row copy a frame makes into a byte array, `CopyPixels(buffer, stride, offset)`.
  - Row `r`, `RowBytes` long, is written at `offset + r * stride`.
  - `CopyFits` is the framework's argument check: offset inside the array, stride positive and at least one row long, and enough room after `offset` for the last row. `RowLengthFits` is the framework's checked 32-bit computation of the row length, `(width * bitsPerPixel + 7) / 8`, which throws once `width * bitsPerPixel + 7` exceeds 2^31 - 1. When either check fails the copy throws and writes nothing.
  - `CopyPixels` is an in-place nested loop over an `array<byte>`. It is proved against the specification function `Blit`, which gives each array position as either a source byte or the old byte.
- `Compositor.dfy`: the body of `Main` from validation to the result frame.
  - `Compose` checks that A is `Cmyk32` and that B is as tall as A, converts B, and computes width, height, `bytesPerPixel` and stride.
  - It then allocates a zeroed array of `stride * height` bytes and makes the two `CopyPixels` calls: A at offset 0, converted B at offset `A.width * bytesPerPixel`.
  - It returns a frame with A's format and DPI.
  - `Juxtapose` (and `SideBySide` on frames) is an independent reference definition of the output, built row and column directly. `Interleave` states the same output row by row, and `JuxtaposeIsInterleave` proves the two agree. The lemmas prove the two copies produce exactly that output: the left region is A, the right region is converted B, the regions are disjoint and they cover every output byte.

## Model

| member | source | states |
|---|---|---|
| `Compositor.Compose` | CmykRgbCompositor/Program.cs:25-47 | Fails with `NotCmyk` exactly when A is not `Cmyk32`. Fails with `HeightMismatch` exactly when A is `Cmyk32` and B's height differs from A's, whatever their widths. Fails with `LayoutOverflow` exactly when the checks pass and `(A.width + B.width) * 4 * A.height` exceeds the 32-bit int range. Fails with `RowLengthOverflow` exactly when the layout fits but `A.width * 32 + 7` or `B.width * 32 + 7` exceeds it (one of the two copies throws in its checked row-length arithmetic, from a width of 2^26). Succeeds exactly when none of these holds. Then the output is a well-formed frame with width `A.width + B.width`, height `A.height`, A's format and A's DPI. Its buffer is `stride * height` bytes with `stride = width * 4`, and its bytes are `SideBySide(A, converted B)`. |
| `Imaging.ConvertFormat` | CmykRgbCompositor/Program.cs:37 | The converted frame has B's width, height and DPI, the requested format, and exactly `height` unpadded rows of that format, whatever the colour transform. |
| `Imaging.CmykRowBytes` | CmykRgbCompositor/Program.cs:42-43 | A `Cmyk32` row of `w` pixels is `4 * w` bytes (`BitsPerPixel / 8 == 4`, no padding). |
| `Copying.CopyPixels` | CmykRgbCompositor/Program.cs:45-46 | The copy succeeds exactly when its checked 32-bit row-length computation stays in range and its argument checks pass. On success the array becomes `Blit(old array, source rows, stride, offset)`. On failure it is unchanged. |
| `Copying.BlitWrites` | CmykRgbCompositor/Program.cs:45-46 | Byte `col` of source row `row` lands at `offset + row * stride + col`, and that position lies inside the array. |
| `Copying.BlitCovered` | CmykRgbCompositor/Program.cs:45-46 | Every array position in a copied row's byte range holds the source byte for its row and column, and that source byte lies inside the source buffer. |
| `Copying.BlitKeeps` | CmykRgbCompositor/Program.cs:45-46 | A copy leaves every array position outside its rows' byte ranges unchanged. |
| `Copying.PartialBlitStep` | CmykRgbCompositor/Program.cs:45-46 | One write of the copy loop extends the copied region by exactly the one position it writes. |
| `Copying.PartialBlitGap` | CmykRgbCompositor/Program.cs:45-46 | The gap between the end of one copied row and the start of the next row is left untouched. |
| `Copying.PartialBlitDone` | CmykRgbCompositor/Program.cs:45-46 | Once all rows are written, the copy is complete. |
| `Compositor.Interleave` | CmykRgbCompositor/Program.cs:40-46 | The row-by-row statement of the output: A's first row, then converted B's first row, then the same for the remaining rows. It holds exactly `(rowA + rowC) * height` bytes, one stride per row. |
| `Compositor.JuxtaposeIsInterleave` | CmykRgbCompositor/Program.cs:40-46 | The closed-form layout, which takes each byte by row and column, equals the row-by-row layout for every pair of buffers, row lengths and height. |
| `Compositor.JuxtaposeFirstRow` | CmykRgbCompositor/Program.cs:40-46 | The first output row is A's first row followed by B's first row, and the remaining rows are the side-by-side image of the remaining input rows. |
| `Compositor.ShiftLeft` | CmykRgbCompositor/Program.cs:45 | Below the first row, a byte in the left region is the matching byte of the side-by-side image of the remaining rows. |
| `Compositor.ShiftRight` | CmykRgbCompositor/Program.cs:46 | Below the first row, a byte in the right region is the matching byte of the side-by-side image of the remaining rows. |
| `Compositor.JuxtaposeLeft` | CmykRgbCompositor/Program.cs:45 | Left region: for every row `r` and every `k < A.width*4`, output byte `r*stride + k` equals A's byte `r*A.width*4 + k`. |
| `Compositor.JuxtaposeRight` | CmykRgbCompositor/Program.cs:46 | Right region: for every row `r` and every `k < B.width*4`, output byte `r*stride + A.width*4 + k` equals converted B's byte `r*B.width*4 + k`. |
| `Compositor.JuxtaposeRow` | CmykRgbCompositor/Program.cs:40-46 | Each output row is A's row followed by converted B's row. |
| `Compositor.CopyRegionsPartition` | CmykRgbCompositor/Program.cs:40-46 | Every byte of the `stride * height` output is written by exactly one of the two copies: the two regions are disjoint and together cover the output. |
| `Compositor.CopiesFit` | CmykRgbCompositor/Program.cs:44-46 | Both copies into the freshly allocated `stride * height` buffer pass their argument checks, so every write stays inside `[0, stride*height)`. |
| `Compositor.TwoCopiesAtLeft` | CmykRgbCompositor/Program.cs:45-46 | After both copies, a position in the left region holds A's byte for its row and column. |
| `Compositor.TwoCopiesAtRight` | CmykRgbCompositor/Program.cs:45-46 | After both copies, a position in the right region holds converted B's byte for its row and column. |
| `Compositor.TwoCopiesJuxtapose` | CmykRgbCompositor/Program.cs:44-46 | Copying A at offset 0 and then converted B at offset `A.width*4`, into a buffer of any initial contents, yields the reference side-by-side image, so no byte keeps its initial zero. |
| `Compositor.SecondCopyKeepsLeft` | CmykRgbCompositor/Program.cs:46 | The second copy leaves every byte of the left region as the first copy left it. |
| `Compositor.CmykCopiesMakeSideBySide` | CmykRgbCompositor/Program.cs:40-46 | With `bytesPerPixel = 4` and `stride = (A.width + B.width) * 4`, the two copies `Main` makes pass their checks and produce `SideBySide(A, converted B)`. |
| `Compositor.TwoRowExample` | CmykRgbCompositor/Program.cs:40-46 | Two one-pixel-wide, two-row frames give a 2×2 output whose left column is A and whose right column is B. |

## Left out

- Loading and saving TIFF files (`LoadTiff`, `BitmapDecoder`, `TiffBitmapEncoder`, `File.OpenRead`, `File.Create`; Program.cs:16-22, 50-55). These are file I/O and codec calls. Decoded frames are inputs to `Compose`, and its result is the frame handed to the encoder.
- The colorimetry of `FormatConvertedBitmap` (Program.cs:37). It is a framework call whose colour transform is not visible. The model takes it as a parameter, `ColourTransform`, constrained only to keep the pixel grid and to yield unpadded rows of the target format. The conversion is always applied, as in the program, even though B's format is never inspected. Conversion failure is not modelled: the framework throws when it has no converter from B's format to `Cmyk32`, but `ConvertFormat` is total. Nor is the same-format case constrained to be the identity: when B is already `Cmyk32`, the transform may yield bytes other than B's own.
- DPI values are carried from A to the result as uninterpreted `real` metadata. No arithmetic is done on them.
- `Compose`: where C#'s unchecked 32-bit `int` arithmetic (Program.cs:40-44) would overflow, because `(A.width + B.width) * 4 * A.height` exceeds 2^31 - 1, the model reports `LayoutOverflow`. The program itself would compute wrapped values and then throw, either at the allocation (a negative or too large length) or in one of the two copies' argument checks: A's copy when the wrapped length is too short for A's rows, B's copy when a wrapped stride leaves no room for B's rows at offset `A.width * 4`. The wrapped values and the exception types are not modelled. Allocation failure at Program.cs:44 is not modelled either: the runtime refuses byte arrays longer than 0x7FFFFFC7 with `OutOfMemoryException`, so for lengths in (0x7FFFFFC7, 2^31 - 1] the program throws where `Compose` returns `Ok`.
- `Copying.CopyPixels`: the framework's `BitmapSource.CopyPixels` is framework code outside `Program.cs`. Its row placement, its argument checks and its checked 32-bit row-length computation (`RowLengthFits`) are modelled after the framework's `BitmapSource.CriticalCopyPixels`. Its other checked arithmetic, on the required buffer size, cannot overflow where `CopyFits` holds, because an array length fits an `int`. The exception types it throws are not distinguished; a failed check is reported as `ok == false` with nothing written. At both call sites in `Main` the argument checks are proved to pass. The row-length check fails from a width of 2^26, and `Compose` then reports `RowLengthOverflow`.
- `BitmapSource.Create` (Program.cs:47) is modelled only as recording the result tuple (width, height, DPI, format, bytes). Its own argument checks hold for this buffer and stride by construction and are not modelled separately.
- Mask-driven overlay compositing: `Program.cs` contains no such code, so none is modelled.
- Pixel formats: the model lists a common set of framework formats, each with its bits per pixel. Palettes are not modelled. Only A's format feeds the layout arithmetic, and only `Cmyk32` passes validation.
- Empty frames: a decoded frame always has positive width and height, and `Decoded` states this.
- Error vocabulary: the program throws `InvalidOperationException` with a message for both validation failures. The model names the two cases `NotCmyk` and `HeightMismatch`, and keeps the program's order of checks: A's format is checked before B's height.
