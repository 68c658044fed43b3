# image_loader: a Dafny model

This project models `image_loader`, the PNG loader and framebuffer compositor of
liteHTML_fb. The class has two jobs. It decodes a PNG file into rows of samples,
with libpng doing the decoding. It then blends those rows onto a memory-mapped
Linux framebuffer at a chosen position, clipping against the visible resolution.
Compositing consumes the image: afterwards the object is back in its empty state.

The model has five modules:

- `Pixels` (`pixels.dfy`) covers one sample. It extracts the channels of a 32-bit
  word (red in bits 16-23, green in 8-15, blue in 0-7) and packs them back with
  `(r<<16)|(g<<8)|b`. It also holds the per-channel blend
  `dst + alpha*(src-dst)/255`, truncated.
- `Screen` (`screen.dfy`) covers geometry. It holds the descriptor fields the
  compositor reads, the clipping test, and the byte location
  `(x+xoffset)*(bits_per_pixel/8) + (y+yoffset)*line_length` seen as a word index.
  It also has the inverse map from a word back to the visible pixel that owns it.
- `Compositor` (`compositor.dfy`) covers the blit. `Composited` is a word-by-word
  reference definition of the surface after compositing. `Blit` is the nested
  row-major loop of `copy_to_framebuffer`, which updates an `array` in place. `Blit`
  is proved to produce exactly `Composited` of the old contents. Lemmas give the
  pixel-by-pixel view of the same result, the frame condition, and full clipping.
- `Transforms` (`transforms.dfy`) covers transform selection. It decides which
  libpng transforms `load_png` requests from the header. It also models the pixel
  format those transforms deliver: channel count, sample depth and row bytes.
- `Loader` (`loader.dfy`) covers the object itself. The `ImageLoader` class holds
  the file-type tag, the null or non-null status of `m_png_ptr`/`m_info_ptr`, the
  requested transforms, the rows and the dimensions. Its methods are `destroy`,
  `copy_to_framebuffer`, `load_image`, `image_size`, `load_png` and `png_size`.
  A `Codec` value stands for libpng and the file system. It says how far one
  decode attempt gets: the open fails, the signature mismatches, struct creation
  fails, a fault happens before or after the header, a fault happens while rows
  are filled, or decoding finishes with its rows. Two ghost counters track row
  buffers that are still live and libpng structs whose pointer was dropped.

The model follows the code in these places, some of which look unintended:

- An opaque source without a tRNS chunk is not widened to four bytes per pixel.
  No filler is requested, so RGB, gray and palette images without tRNS give rows
  of `3*width` bytes (`Transforms.OpaqueRowsAreShort`). The compositor still reads
  `row[m_x*4 .. m_x*4+3]`. Its precondition `Readable` therefore holds for a fully
  decoded image exactly when the source has alpha or tRNS
  (`Loader.DecodedReadable`).
- A fault while the rows are filled does not leave an empty object. The rows stay
  allocated and the tag stays `png`; only the libpng handles are cleared.
- `png_size` does not check the signature itself. A bad signature surfaces as a
  fault inside `png_read_info` and gives `FH_ERROR_FORMAT`. It then clears this
  object's own `m_png_ptr` and `m_info_ptr` without destroying what they point
  to. After a successful load, a failing size query therefore leaks the live
  libpng structs. This is counted in `leakedStructs`, and so is the later
  `destroy` that finds a null read struct beside a live info struct.
- `image_size` sets the tag to `png` even though it only reads dimensions.
- The tag can be `png` while the row array is null and the height positive, and
  `copy_to_framebuffer` would then read rows from a null array. Three paths reach
  this state. In the first, a load faults after the header has set `m_height` but
  before the rows are allocated (`Loader.FailedLoadNotDrawable`). In the second, a
  reload fails to open its file and the earlier image's height is left stale
  (`Loader.UnopenedReloadNotDrawable`). In the third, a size query follows a
  composite and re-tags the released object (`Loader.SizeAfterCompositeNotDrawable`).
  The compositor's precondition `Drawable` excludes this state.

The loop counters `m_x`/`m_y`, which the source keeps as object fields, are local
variables here. Nothing outside the loops reads them.

## Model

| member | source | states |
|---|---|---|
| Pixels.Pack | image_loader.h:108 | the packed word has red, green and blue in bits 16-23, 8-15 and 0-7, and its top byte is zero |
| Pixels.PackIsBitwiseOr | image_loader.h:108 | on 32-bit vectors, shifting red by 16 and green by 8 and OR-ing them with blue equals the weighted sum used by `Pack` for channels below 256 |
| Pixels.RepackClearsTopByte | image_loader.h:105-108 | unpacking a word and repacking its channels keeps its low 24 bits and clears the top byte |
| Pixels.BlendChannel | image_loader.h:105-107 | the blended channel is the floor of `dst + alpha*(src-dst)/255`; it lies between source and destination; alpha 0 gives the destination and alpha 255 the source |
| Pixels.BlendWord | image_loader.h:102-108 | the written word has the top byte zero, and each of its channels is the blend of the sample's R, G or B over the old word's channel at bits 16, 8 or 0 |
| Pixels.OpaqueReplaces | image_loader.h:105-108 | a sample with alpha 255 writes exactly its own RGB |
| Pixels.TransparentKeepsRgb | image_loader.h:105-108 | a sample with alpha 0 keeps the old RGB and clears only the top byte |
| Pixels.HalfAlphaNearMidpoint | image_loader.h:105-107 | at alpha 128 twice the channel lies between `src+dst-2` and `src+dst+1` |
| Screen.WordIndex | image_loader.h:101-102 | for a visible pixel of a 32-bit surface, four times the word index is the byte location; the index is `(x+xoffset) + (y+yoffset)*line_length/4` and lies below `(yoffset+yres)*line_length/4` |
| Screen.LocateWordIndex | image_loader.h:101 | the word of a visible pixel maps back to that pixel |
| Screen.WordIndexLocate | image_loader.h:101 | a word that maps to a visible pixel is that pixel's location, so distinct visible pixels own distinct words |
| Compositor.SourceLocation | image_loader.h:94-101 | the raster sample assigned to a word is inside the raster, its destination is visible, and the word is its location |
| Compositor.CompositedAt | image_loader.h:94-108 | a sample whose destination is visible turns the word at its location into the blend of that sample over the old word |
| Compositor.OnlyVisibleSamplesWrite | image_loader.h:92-111 | a word that changes is the location of a visible destination of some sample of the raster |
| Compositor.OutsideLeavesSurface | image_loader.h:99-100 | a raster placed wholly outside the visible box leaves the surface unchanged |
| Compositor.Blit | image_loader.h:92-111 | the in-place row-major loop leaves the surface equal to `Composited` of its old contents |
| Transforms.Requested | image_loader.h:196-210 | expand is requested iff the source is palette, gray below depth 8, or has tRNS; strip_16 iff depth is 16; gray_to_rgb iff gray or gray-alpha; gamma with display exponent 2.2 exactly when gAMA is present, with the file's gamma; never filler or add-alpha |
| Transforms.ExpandRequests | image_loader.h:196-201 | only expansions are requested, and one is requested iff the source is palette, gray below depth 8, or has tRNS |
| Transforms.ConversionRequests | image_loader.h:203-210 | strip_16 iff depth is 16, gray_to_rgb iff gray or gray-alpha, gamma with display exponent 2.2 when gAMA is present and only then; no expansion, filler or add-alpha |
| Transforms.EightBitSamples | image_loader.h:196-213 | every valid header is delivered with 8-bit samples |
| Transforms.BytesPerPixel | image_loader.h:196-217 | a pixel has four bytes when the source has alpha or tRNS and three otherwise; a row has width times that many bytes |
| Transforms.OpaqueRowsAreShort | image_loader.h:215-217 | an opaque source without tRNS gives rows of `3*width` bytes, fewer than the `4*width` the compositor reads |
| Loader.LoadCode | image_loader.h:136-224 | `load_png` returns FH_ERROR_FILE iff the file cannot be opened, FH_ERROR_OK iff decoding completes, and FH_ERROR_FORMAT otherwise |
| Loader.SizeCode | image_loader.h:229-268 | `png_size` returns FH_ERROR_FILE iff the file cannot be opened, FH_ERROR_OK iff the header is read, and FH_ERROR_FORMAT otherwise |
| Loader.SizeAgreesWithLoad | image_loader.h:136-268 | sizing and loading fail to open the same files, and every file that loads also sizes |
| Loader.DecodedReadable | image_loader.h:97 | a decoded image meets the compositor's row-length demand iff the source has alpha or tRNS |
| Loader.ImageLoader.constructor | image_loader.h:59-63 | a new object is in the empty state: tag none, null handles, no rows |
| Loader.ImageLoader.Destroy | image_loader.h:73-86 | releases everything: tag none, null handles and rows, no live row buffers; dimensions stay stale; a null read struct beside a live info struct leaks it; from the empty state nothing changes |
| Loader.ImageLoader.CopyToFramebuffer | image_loader.h:91-114 | returns FH_ERROR_OK and always ends empty; with tag png the surface becomes `Composited` of the old surface and the loaded raster, otherwise the surface is untouched |
| Loader.ImageLoader.LoadImage | image_loader.h:119-124 | after releasing the old image the tag is png whatever the outcome, the code is `LoadCode`, and the handles, rows and dimensions are those the decode attempt leaves |
| Loader.ImageLoader.ImageSize | image_loader.h:127-131 | the tag becomes png, the rows and dimensions are untouched, and the code, outputs, handles and leaked structs are those of `png_size`; on success the outputs equal the dimensions `LoadImage` sets for the same file |
| Loader.ImageLoader.LoadPng | image_loader.h:136-224 | returns `LoadCode`; both handles are live iff decoding completes, carrying the transforms `Requested` by the header; rows exist iff they were allocated, including after a fault while filling them; dimensions are set iff the header was read |
| Loader.ImageLoader.AllocateRows | image_loader.h:215-217 | allocates `m_height` row buffers of the given size, each counted as live |
| Loader.ImageLoader.FillRows | image_loader.h:219 | the codec's rows replace the allocated buffers of the same sizes |
| Loader.ImageLoader.PngSize | image_loader.h:229-268 | returns `SizeCode`; writes the dimensions only on success; clears this object's read pointer on a failure after struct creation and both pointers on a header fault, counting each live struct dropped |
| Loader.ImageLoader.DropReadStruct | image_loader.h:247 | clears the read pointer and counts a live struct as leaked |
| Loader.ImageLoader.DropInfoStruct | image_loader.h:254 | clears the info pointer and counts a live struct as leaked |
| Loader.FailedLoadNotDrawable | image_loader.h:179-189 | after a load whose fault follows the header, the object is tagged png with a null row array and the header's height, so the compositor's precondition fails |
| Loader.UnopenedReloadNotDrawable | image_loader.h:119-124 | after a reload of an unopenable file, the object is tagged png with a null row array and the old positive height, so the compositor's precondition fails |
| Loader.SizeAfterCompositeNotDrawable | image_loader.h:112-131 | a size query after a composite leaves the object tagged png with a null row array and the stale positive height, so the compositor's precondition fails |
| Loader.CompositeTwice | image_loader.h:112-113 | a second composite without reloading leaves the surface as the first composite left it |

## Left out

- Pixels.BlendChannel: uses exact integer arithmetic, then the floor. This equals the source's single-precision float computation at alpha 0 and alpha 255. At other alphas float rounding can differ by one, and that is not modelled.
- Loader.ImageLoader.CopyToFramebuffer: with tag png it requires every row below the height to hold `4*width` bytes and the surface to hold the whole visible box. The source reads sample bytes, and touches the surface, only for visible samples, so it asks less when part of the image is clipped.
- Loader.ImageLoader.LoadPng: is specified only from the released state that `load_image` establishes. Calling `load_png` directly on a loaded object overwrites live handles and rows; that path is not modelled.
- Screen.WordIndex: only 32 bits per pixel with `line_length` a multiple of 4 is modelled, and the shifted visible box must fit in one line (`xoffset + xres <= line_length/4`). The Linux framebuffer guarantees this, since `xoffset + xres <= xres_virtual <= line_length*8/bits_per_pixel`. Without it a visible row wraps into the next line and two pixels can share a word; `Composited` assumes each word has at most one owner, so that case is not modelled. The surface is an array of 32-bit words indexed by byte location / 4. Other depths, unaligned access and host byte order are not modelled.
- The C `int` casts and arithmetic are unbounded here. This covers `static_cast<int>` of unsigned descriptor fields and dimensions at or above 2^31, and overflow of `posx+m_x` or of the location. PNG limits dimensions to 2^31-1.
- libpng itself is not modelled: signature checking, decoding, gamma numerics, interlace handling (`png_set_interlace_handling`, so `m_number_of_passes`) and `png_read_update_info`. Their results are the `Codec` outcome and the transform semantics in `Transforms.OutputFormat`.
- `setjmp`/`longjmp` is modelled as one `Codec` case per recovery point, not as a non-local jump.
- File I/O (`fopen`, `fread`, `fclose`) is not modelled; the outcome says whether the open succeeded.
- `malloc` failure is not modelled; every row buffer is assumed allocated. The bytes of a row between allocation and `png_read_image` are modelled as zeros; the codec then writes the whole row.
- The destructor is not modelled; Dafny has no destructors, and it only calls `destroy`.
- The `bmp` and `jpeg` tags exist only as values; nothing sets them.
- The constructor leaves `m_width`, `m_height`, `m_color_type` and `m_bit_depth` uninitialised. The model sets them to 0.
- Concurrency: the source has none.
