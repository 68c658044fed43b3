/** Transform selection of `load_png`: from the header of the PNG file to the transforms
    requested on the libpng read struct, and the pixel format those transforms produce. */
module Transforms {
  import opened Optional

  /** PNG colour types (PNG specification, IHDR chunk). */
  const ColorGray: nat := 0
  const ColorRgb: nat := 2
  const ColorPalette: nat := 3
  const ColorGrayAlpha: nat := 4
  const ColorRgbAlpha: nat := 6

  /** The largest width or height a PNG header may carry, 2^31 - 1. */
  const MaxDimension: nat := 0x7fff_ffff

  /** What `png_read_info` reports: the IHDR fields, whether a tRNS chunk is present and,
      when `png_get_gAMA` reports a file gamma, that gamma (in libpng 1.6 an sRGB
      chunk alone also makes it report one). */
  datatype Header = Header(
    width: nat, height: nat,
    bitDepth: nat, colorType: nat,
    hasTrns: bool, gama: Option<real>)

  predicate HasAlpha(colorType: nat)
  {
    colorType == ColorGrayAlpha || colorType == ColorRgbAlpha
  }

  /** A header libpng accepts: dimensions in range, an allowed (colour type, bit depth)
      pair, and tRNS only for colour types without an alpha channel. */
  predicate ValidHeader(h: Header)
  {
    1 <= h.width <= MaxDimension && 1 <= h.height <= MaxDimension &&
    (match h.colorType
     case 0 => h.bitDepth in {1, 2, 4, 8, 16}
     case 3 => h.bitDepth in {1, 2, 4, 8}
     case 2 => h.bitDepth in {8, 16}
     case 4 => h.bitDepth in {8, 16}
     case 6 => h.bitDepth in {8, 16}
     case _ => false) &&
    (h.hasTrns ==> !HasAlpha(h.colorType))
  }

  /** The libpng input transforms this loader could request. `Filler` and `AddAlpha`
      (`png_set_filler`, `png_set_add_alpha`) are listed to state that they are never requested. */
  datatype Transform =
    | Expand                                         // png_set_expand
    | Strip16                                        // png_set_strip_16
    | GrayToRgb                                      // png_set_gray_to_rgb
    | SetGamma(screenGamma: real, fileGamma: real)   // png_set_gamma
    | Filler
    | AddAlpha

  /** The display exponent assumed by the gamma correction. */
  const DisplayExponent: real := 2.2

  /** The transforms requested, in the order of the calls. */
  function Requested(h: Header): (r: seq<Transform>)
    ensures Expand in r <==>
      h.colorType == ColorPalette || (h.colorType == ColorGray && h.bitDepth < 8) || h.hasTrns
    ensures Strip16 in r <==> h.bitDepth == 16
    ensures GrayToRgb in r <==> h.colorType == ColorGray || h.colorType == ColorGrayAlpha
    ensures h.gama.Some? ==> SetGamma(DisplayExponent, h.gama.value) in r
    ensures forall t :: t in r && t.SetGamma? ==> h.gama == Some(t.fileGamma) && t.screenGamma == DisplayExponent
    ensures Filler !in r && AddAlpha !in r
  {
    ExpandRequests(h) + ConversionRequests(h)
  }

  /** The three conditional `png_set_expand` calls. */
  function ExpandRequests(h: Header): (r: seq<Transform>)
    ensures forall t :: t in r ==> t == Expand
    ensures Expand in r <==>
      h.colorType == ColorPalette || (h.colorType == ColorGray && h.bitDepth < 8) || h.hasTrns
  {
    (if h.colorType == ColorPalette then [Expand] else []) +
    (if h.colorType == ColorGray && h.bitDepth < 8 then [Expand] else []) +
    (if h.hasTrns then [Expand] else [])
  }

  /** The depth, colour and gamma requests that follow the expansions. */
  function ConversionRequests(h: Header): (r: seq<Transform>)
    ensures Expand !in r && Filler !in r && AddAlpha !in r
    ensures Strip16 in r <==> h.bitDepth == 16
    ensures GrayToRgb in r <==> h.colorType == ColorGray || h.colorType == ColorGrayAlpha
    ensures h.gama.Some? ==> SetGamma(DisplayExponent, h.gama.value) in r
    ensures forall t :: t in r && t.SetGamma? ==> h.gama == Some(t.fileGamma) && t.screenGamma == DisplayExponent
  {
    (if h.bitDepth == 16 then [Strip16] else []) +
    (if h.colorType == ColorGray || h.colorType == ColorGrayAlpha then [GrayToRgb] else []) +
    (match h.gama
     case Some(g) => [SetGamma(DisplayExponent, g)]
     case None => [])
  }

  /** Samples per pixel and bits per sample. */
  datatype Format = Format(channels: nat, depth: nat)

  /** The pixel format libpng delivers for a source header once the transforms `r` are
      applied (its documented transform semantics, reduced to channel count and depth):
      expansion turns palette indices into RGB, widens sub-byte gray to 8 bits and turns
      tRNS into an alpha channel; strip_16 narrows 16-bit samples; gray_to_rgb triples the
      gray channel; a filler or added alpha adds a fourth channel. Gamma changes no size. */
  function OutputFormat(h: Header, r: seq<Transform>): Format
  {
    var expand := Expand in r;
    var colour :=
      if h.colorType == ColorPalette then (if expand then 3 else 1)
      else if h.colorType == ColorGray || h.colorType == ColorGrayAlpha then (if GrayToRgb in r then 3 else 1)
      else 3;
    var alpha := HasAlpha(h.colorType) || (expand && h.hasTrns) || Filler in r || AddAlpha in r;
    var depth :=
      if h.colorType == ColorPalette && expand then 8
      else if h.bitDepth == 16 && Strip16 in r then 8
      else if h.bitDepth < 8 && expand then 8
      else h.bitDepth;
    Format(colour + (if alpha then 1 else 0), depth)
  }

  /** `png_get_rowbytes` after `png_read_update_info`. */
  function RowBytes(h: Header, r: seq<Transform>): nat
  {
    var f := OutputFormat(h, r);
    if f.depth >= 8 then h.width * (f.channels * f.depth / 8)
    else (h.width * f.channels * f.depth + 7) / 8
  }

  /** Bytes in each decoded row of this loader. */
  function LoadedRowBytes(h: Header): nat
  {
    RowBytes(h, Requested(h))
  }

  /** Every valid source is delivered with 8-bit samples. */
  lemma EightBitSamples(h: Header)
    requires ValidHeader(h)
    ensures OutputFormat(h, Requested(h)).depth == 8
  {
  }

  /** Four bytes per pixel exactly when the source has an alpha channel or a tRNS chunk;
      otherwise three, since no filler is requested. */
  lemma {:induction false} BytesPerPixel(h: Header)
    requires ValidHeader(h)
    ensures OutputFormat(h, Requested(h)).channels == if HasAlpha(h.colorType) || h.hasTrns then 4 else 3
    ensures LoadedRowBytes(h) == h.width * OutputFormat(h, Requested(h)).channels
  {
    EightBitSamples(h);
  }

  /** An opaque RGB, gray or palette source without tRNS yields rows one quarter shorter
      than the four bytes per sample that the compositor reads. */
  lemma {:induction false} OpaqueRowsAreShort(h: Header)
    requires ValidHeader(h) && !HasAlpha(h.colorType) && !h.hasTrns
    ensures LoadedRowBytes(h) == 3 * h.width < 4 * h.width
  {
    BytesPerPixel(h);
  }
}
