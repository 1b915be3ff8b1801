/** Raster images as the compositor sees them: decoded frames with a pixel
    format, a size, a resolution and a row-major, unpadded byte buffer. */
module Imaging {

  newtype byte = x: int | 0 <= x < 256

  /** The largest value of the framework's 32-bit signed `int`. */
  const Int32Max: int := 0x7FFF_FFFF

  /** The pixel formats a decoded frame can report. Only the number of bits
      per pixel matters to the layout arithmetic. */
  datatype PixelFormat =
    | BlackWhite
    | Gray8
    | Indexed8
    | Bgr24
    | Rgb24
    | Bgr32
    | Bgra32
    | Pbgra32
    | Cmyk32
    | Rgb48
    | Rgba64

  function BitsPerPixel(f: PixelFormat): nat
  {
    match f
    case BlackWhite => 1
    case Gray8 => 8
    case Indexed8 => 8
    case Bgr24 => 24
    case Rgb24 => 24
    case Bgr32 => 32
    case Bgra32 => 32
    case Pbgra32 => 32
    case Cmyk32 => 32
    case Rgb48 => 48
    case Rgba64 => 64
  }

  /** The length in bytes of one pixel row with no padding (the smallest
      stride a copy of the row accepts). */
  function RowBytes(f: PixelFormat, width: nat): nat
  {
    (width * BitsPerPixel(f) + 7) / 8
  }

  /** A frame: its pixel size, its resolution (carried, never computed with),
      its format and its pixels, row after row. */
  datatype Bitmap = Bitmap(
    width: nat,
    height: nat,
    dpiX: real,
    dpiY: real,
    format: PixelFormat,
    pixels: seq<byte>)

  /** What a decoder delivers: a non-empty frame whose buffer holds exactly
      `height` unpadded rows. */
  predicate Decoded(b: Bitmap)
  {
    b.width > 0 && b.height > 0 &&
    |b.pixels| == RowBytes(b.format, b.width) * b.height
  }

  /** A colour conversion whose colorimetry is not known: any function that,
      given a frame and a target format, yields a buffer of unpadded rows of
      the target format over the same pixel grid. */
  ghost predicate KeepsGrid(convert: (Bitmap, PixelFormat) -> seq<byte>)
  {
    forall b, f :: |convert(b, f)| == RowBytes(f, b.width) * b.height
  }

  type ColourTransform = convert: (Bitmap, PixelFormat) -> seq<byte> | KeepsGrid(convert)
    witness (b: Bitmap, f: PixelFormat) => seq(RowBytes(f, b.width) * b.height, _ => 0 as byte)

  /** A frame converted to another pixel format: same size and resolution,
      the target format, and the pixels the conversion yields. */
  function ConvertFormat(b: Bitmap, target: PixelFormat, convert: ColourTransform): (c: Bitmap)
    requires Decoded(b)
    ensures Decoded(c)
    ensures c.width == b.width && c.height == b.height && c.format == target
    ensures c.dpiX == b.dpiX && c.dpiY == b.dpiY
  {
    Bitmap(b.width, b.height, b.dpiX, b.dpiY, target, convert(b, target))
  }

  /** Cmyk32 frames have four bytes per pixel. */
  lemma CmykRowBytes(width: nat)
    ensures RowBytes(Cmyk32, width) == 4 * width
  {
  }
}
