/** The `image_loader` object: its file-type tag, the libpng handles, the decoded rows,
    and the operations that load, size, composite and release an image. libpng, the
    file system and `malloc` are replaced by a `Codec` outcome that says how far a run
    gets; only whether each handle is null is tracked. */
module Loader {
  import opened Optional
  import opened Pixels
  import opened Screen
  import opened Compositor
  import opened Transforms

  /** Return codes. */
  const ErrorOk: int := 0
  const ErrorFile: int := 1
  const ErrorFormat: int := 2

  /** `file_type_t`; only `Png` is ever set. */
  datatype FileType = NoFile | Bmp | Png | Jpeg

  /** How one decode attempt ends. */
  datatype Codec =
    | OpenFails                                        // fopen returns NULL
    | SigMismatch                                      // the first 8 bytes are not the PNG signature
    | ReadStructFails                                  // png_create_read_struct returns NULL
    | InfoStructFails                                  // png_create_info_struct returns NULL
    | HeaderFault                                      // libpng longjmps before the header is read
    | SetupFault(header: Header)                       // longjmps after the header, before rows are allocated
    | ImageFault(header: Header, image: seq<seq<Byte>>) // longjmps while filling the rows
    | Decoded(header: Header, image: seq<seq<Byte>>)   // every row filled
  {
    /** The header was read: `m_width` .. `m_bit_depth` have been set. */
    predicate HeaderRead()
    {
      SetupFault? || ImageFault? || Decoded?
    }
  }

  /** libpng keeps its side of the bargain: a header it reports is valid, and it fills
      exactly the `height` buffers of `png_get_rowbytes` bytes it is handed. */
  predicate WellFormed(o: Codec)
  {
    (o.HeaderRead() ==> ValidHeader(o.header)) &&
    ((o.ImageFault? || o.Decoded?) ==>
      |o.image| == o.header.height &&
      forall y :: 0 <= y < |o.image| ==> |o.image[y]| == LoadedRowBytes(o.header))
  }

  /** Return code of `load_png`. */
  function LoadCode(o: Codec): (rc: int)
    ensures rc == ErrorFile <==> o.OpenFails?
    ensures rc == ErrorOk <==> o.Decoded?
    ensures rc == ErrorFormat <==> !o.OpenFails? && !o.Decoded?
  {
    match o
    case OpenFails => ErrorFile
    case Decoded(_, _) => ErrorOk
    case _ => ErrorFormat
  }

  /** Return code of `png_size`, which reads only the header (and, having no signature
      check of its own, sees a bad signature as a fault inside `png_read_info`). */
  function SizeCode(o: Codec): (rc: int)
    ensures rc == ErrorFile <==> o.OpenFails?
    ensures rc == ErrorOk <==> o.HeaderRead()
    ensures rc == ErrorFormat <==> !o.OpenFails? && !o.HeaderRead()
  {
    match o
    case OpenFails => ErrorFile
    case SetupFault(_) => ErrorOk
    case ImageFault(_, _) => ErrorOk
    case Decoded(_, _) => ErrorOk
    case _ => ErrorFormat
  }

  /** Sizing and loading agree: both fail to open the same files, and every file that
      loads also sizes. */
  lemma {:induction false} SizeAgreesWithLoad(o: Codec)
    ensures SizeCode(o) == ErrorFile <==> LoadCode(o) == ErrorFile
    ensures LoadCode(o) == ErrorOk ==> SizeCode(o) == ErrorOk
    ensures LoadCode(o) == ErrorFormat ==> SizeCode(o) != ErrorFile
  {
  }

  /** A fully decoded image is readable by the compositor exactly when its pixels are four
      bytes wide, that is when the source has an alpha channel or a tRNS chunk. */
  lemma {:induction false} DecodedReadable(o: Codec)
    requires WellFormed(o) && o.Decoded?
    ensures Readable(Raster(o.header.width, o.header.height, o.image)) <==>
      HasAlpha(o.header.colorType) || o.header.hasTrns
  {
    var h := o.header;
    BytesPerPixel(h);
    if !(HasAlpha(h.colorType) || h.hasTrns) {
      assert |o.image[0]| == 3 * h.width < 4 * h.width;
    }
  }

  class ImageLoader {
    var fileType: FileType
    var width: nat
    var height: nat
    var colorType: nat
    var bitDepth: nat
    /** `m_png_ptr != 0` and `m_info_ptr != 0` */
    var pngPtr: bool
    var infoPtr: bool
    /** The transforms registered on the read struct that `m_png_ptr` holds. */
    var requested: seq<Transform>
    /** `m_row_pointers`: `None` is the null pointer. */
    var rowPointers: Option<seq<seq<Byte>>>

    /** Row buffers allocated and not yet freed. */
    ghost var liveRowBuffers: nat
    /** libpng structs whose last pointer was overwritten without destroying them. */
    ghost var leakedStructs: nat

    ghost predicate Valid()
      reads this
    {
      (rowPointers.Some? ==> |rowPointers.value| == height) &&
      liveRowBuffers == (if rowPointers.Some? then height else 0) &&
      (requested != [] ==> pngPtr)
    }

    /** The empty state that `destroy` leaves. */
    predicate Released()
      reads this
    {
      fileType == NoFile && !pngPtr && !infoPtr && rowPointers == None && requested == []
    }

    /** The image as the compositor reads it; a null row array reads as no rows. */
    function Loaded(): Raster
      reads this
    {
      Raster(width, height, if rowPointers.Some? then rowPointers.value else [])
    }

    /** Every row the compositor reads exists and has four bytes per sample (with a null
        row array, only a height of 0 qualifies). */
    predicate Drawable()
      reads this
    {
      Readable(Loaded())
    }

    constructor ()
      ensures Valid() && Released()
      ensures liveRowBuffers == 0 && leakedStructs == 0
    {
      fileType := NoFile;
      width, height, colorType, bitDepth := 0, 0, 0, 0;
      pngPtr, infoPtr := false, false;
      requested := [];
      rowPointers := None;
      liveRowBuffers, leakedStructs := 0, 0;
    }

    /** `destroy`: release the read struct (with the info struct, when the read struct is
        there), free every row and the row array, and reset to the empty state. The
        dimensions are left as they were. */
    method Destroy()
      requires Valid()
      modifies this
      ensures Valid() && Released() && liveRowBuffers == 0
      ensures width == old(width) && height == old(height)
      ensures colorType == old(colorType) && bitDepth == old(bitDepth)
      ensures leakedStructs == old(leakedStructs) + (if !old(pngPtr) && old(infoPtr) then 1 else 0)
      ensures old(Released()) ==> unchanged(this)
    {
      if !pngPtr && infoPtr {
        // png_destroy_read_struct is skipped, and the info pointer is cleared below
        leakedStructs := leakedStructs + 1;
      }
      if rowPointers.Some? {
        var y := 0;
        while y < height
          invariant 0 <= y <= height
          invariant liveRowBuffers == height - y
          modifies this`liveRowBuffers
        {
          liveRowBuffers := liveRowBuffers - 1;  // free(m_row_pointers[y])
          y := y + 1;
        }
      }
      fileType := NoFile;
      pngPtr, infoPtr := false, false;
      requested := [];
      rowPointers := None;
    }

    /** `copy_to_framebuffer`: composite the loaded image at (posx, posy) when the tag is
        `Png`, then release it. The surface is touched only in that case. */
    method CopyToFramebuffer(fb: array<Word>, s: ScreenInfo, posx: int, posy: int) returns (rc: int)
      requires Valid()
      requires fileType == Png ==> Drawable() && Fits(s, fb.Length)
      modifies this, fb
      ensures rc == ErrorOk
      ensures Valid() && Released() && liveRowBuffers == 0
      ensures width == old(width) && height == old(height)
      ensures leakedStructs == old(leakedStructs) + (if !old(pngPtr) && old(infoPtr) then 1 else 0)
      ensures fb[..] == if old(fileType) == Png then Composited(old(fb[..]), old(Loaded()), s, posx, posy)
                        else old(fb[..])
    {
      if fileType == Png {
        Blit(fb, Loaded(), s, posx, posy);
      }
      Destroy();
      rc := ErrorOk;
    }

    /** `load_image`: release the previous image, tag the object `Png`, and decode. */
    method LoadImage(o: Codec) returns (rc: int)
      requires Valid() && WellFormed(o)
      modifies this
      ensures Valid() && rc == LoadCode(o)
      ensures fileType == Png
      ensures pngPtr == infoPtr == o.Decoded?
      ensures requested == if o.Decoded? then Requested(o.header) else []
      ensures rowPointers == if o.ImageFault? || o.Decoded? then Some(o.image) else None
      ensures o.HeaderRead() ==>
        width == o.header.width && height == o.header.height &&
        colorType == o.header.colorType && bitDepth == o.header.bitDepth
      ensures !o.HeaderRead() ==>
        width == old(width) && height == old(height) &&
        colorType == old(colorType) && bitDepth == old(bitDepth)
      ensures leakedStructs == old(leakedStructs) + (if !old(pngPtr) && old(infoPtr) then 1 else 0)
    {
      Destroy();
      fileType := Png;
      rc := LoadPng(o);
    }

    /** `image_size`: tag the object `Png` and read the dimensions from the header. */
    method ImageSize(o: Codec, x0: int, y0: int) returns (rc: int, x: int, y: int)
      requires Valid()
      modifies this
      ensures Valid() && rc == SizeCode(o)
      ensures fileType == Png
      ensures rc == ErrorOk ==> x == o.header.width && y == o.header.height
      ensures rc != ErrorOk ==> x == x0 && y == y0
      ensures rowPointers == old(rowPointers) && liveRowBuffers == old(liveRowBuffers)
      ensures width == old(width) && height == old(height)
      ensures colorType == old(colorType) && bitDepth == old(bitDepth)
      ensures pngPtr == (old(pngPtr) && !(o.InfoStructFails? || o.SigMismatch? || o.HeaderFault?))
      ensures infoPtr == (old(infoPtr) && !(o.SigMismatch? || o.HeaderFault?))
      ensures requested == if pngPtr then old(requested) else []
      ensures leakedStructs == old(leakedStructs)
        + (if old(pngPtr) && !pngPtr then 1 else 0)
        + (if old(infoPtr) && !infoPtr then 1 else 0)
    {
      fileType := Png;
      rc, x, y := PngSize(o, x0, y0);
    }

    /** `load_png`, run from the state `load_image` leaves: every failure returns the code
        with both handles null; a fault after the rows are allocated keeps them; a success
        keeps the read and info structs alive with the transforms requested on them. */
    method LoadPng(o: Codec) returns (rc: int)
      requires Valid() && WellFormed(o)
      requires !pngPtr && !infoPtr && rowPointers == None && requested == []
      modifies this
      ensures Valid() && rc == LoadCode(o)
      ensures fileType == old(fileType) && leakedStructs == old(leakedStructs)
      ensures pngPtr == infoPtr == o.Decoded?
      ensures requested == if o.Decoded? then Requested(o.header) else []
      ensures rowPointers == if o.ImageFault? || o.Decoded? then Some(o.image) else None
      ensures o.HeaderRead() ==>
        width == o.header.width && height == o.header.height &&
        colorType == o.header.colorType && bitDepth == o.header.bitDepth
      ensures !o.HeaderRead() ==>
        width == old(width) && height == old(height) &&
        colorType == old(colorType) && bitDepth == old(bitDepth)
    {
      match o
      case OpenFails =>
        rc := ErrorFile;
      case SigMismatch =>
        rc := ErrorFormat;
      case ReadStructFails =>
        rc := ErrorFormat;
      case InfoStructFails =>
        rc := ErrorFormat;
      case HeaderFault =>
        rc := ErrorFormat;
      case SetupFault(h) =>
        width, height, colorType, bitDepth := h.width, h.height, h.colorType, h.bitDepth;
        rc := ErrorFormat;
      case ImageFault(h, image) =>
        width, height, colorType, bitDepth := h.width, h.height, h.colorType, h.bitDepth;
        AllocateRows(LoadedRowBytes(h));
        FillRows(image);
        rc := ErrorFormat;
      case Decoded(h, image) =>
        width, height, colorType, bitDepth := h.width, h.height, h.colorType, h.bitDepth;
        pngPtr, infoPtr := true, true;
        requested := Requested(h);
        AllocateRows(LoadedRowBytes(h));
        FillRows(image);
        rc := ErrorOk;
    }

    /** Allocate `m_height` row buffers of `rowBytes` bytes each (contents not yet written). */
    method AllocateRows(rowBytes: nat)
      requires Valid() && rowPointers == None
      modifies this`rowPointers, this`liveRowBuffers
      ensures Valid()
      ensures rowPointers.Some? && |rowPointers.value| == height
      ensures forall y :: 0 <= y < height ==> |rowPointers.value[y]| == rowBytes
    {
      var rows: seq<seq<Byte>> := [];
      var y := 0;
      while y < height
        invariant 0 <= y <= height && |rows| == y
        invariant liveRowBuffers == y
        invariant forall i :: 0 <= i < y ==> |rows[i]| == rowBytes
      {
        rows := rows + [seq(rowBytes, _ => 0)];
        liveRowBuffers := liveRowBuffers + 1;
        y := y + 1;
      }
      rowPointers := Some(rows);
    }

    /** `png_read_image`: the codec writes `image` into the allocated buffers. */
    method FillRows(image: seq<seq<Byte>>)
      requires Valid() && rowPointers.Some?
      requires |image| == |rowPointers.value|
      requires forall y :: 0 <= y < |image| ==> |image[y]| == |rowPointers.value[y]|
      modifies this`rowPointers
      ensures Valid() && rowPointers == Some(image)
    {
      rowPointers := Some(image);
    }

    /** `png_size`: read the header with a local read struct. On a failure after the
        read struct is created it clears this object's own handles (without destroying
        what they held), and it writes the dimensions only on success. */
    method PngSize(o: Codec, x0: int, y0: int) returns (rc: int, x: int, y: int)
      requires Valid()
      modifies this`pngPtr, this`infoPtr, this`requested, this`leakedStructs
      ensures Valid() && rc == SizeCode(o)
      ensures rc == ErrorOk ==> x == o.header.width && y == o.header.height
      ensures rc != ErrorOk ==> x == x0 && y == y0
      ensures pngPtr == (old(pngPtr) && !(o.InfoStructFails? || o.SigMismatch? || o.HeaderFault?))
      ensures infoPtr == (old(infoPtr) && !(o.SigMismatch? || o.HeaderFault?))
      ensures requested == if pngPtr then old(requested) else []
      ensures leakedStructs == old(leakedStructs)
        + (if old(pngPtr) && !pngPtr then 1 else 0)
        + (if old(infoPtr) && !infoPtr then 1 else 0)
    {
      x, y := x0, y0;
      match o
      case OpenFails =>
        rc := ErrorFile;
      case ReadStructFails =>
        rc := ErrorFormat;
      case InfoStructFails =>
        DropReadStruct();
        rc := ErrorFormat;
      case SigMismatch =>
        DropReadStruct();
        DropInfoStruct();
        rc := ErrorFormat;
      case HeaderFault =>
        DropReadStruct();
        DropInfoStruct();
        rc := ErrorFormat;
      case SetupFault(h) =>
        rc, x, y := ErrorOk, h.width, h.height;
      case ImageFault(h, _) =>
        rc, x, y := ErrorOk, h.width, h.height;
      case Decoded(h, _) =>
        rc, x, y := ErrorOk, h.width, h.height;
    }

    /** `m_png_ptr = 0` without destroying the struct it pointed to. */
    method DropReadStruct()
      requires Valid()
      modifies this`pngPtr, this`requested, this`leakedStructs
      ensures Valid() && !pngPtr && requested == []
      ensures leakedStructs == old(leakedStructs) + (if old(pngPtr) then 1 else 0)
    {
      if pngPtr {
        leakedStructs := leakedStructs + 1;
      }
      pngPtr := false;
      requested := [];
    }

    /** `m_info_ptr = 0` without destroying the struct it pointed to. */
    method DropInfoStruct()
      requires Valid()
      modifies this`infoPtr, this`leakedStructs
      ensures Valid() && !infoPtr
      ensures leakedStructs == old(leakedStructs) + (if old(infoPtr) then 1 else 0)
    {
      if infoPtr {
        leakedStructs := leakedStructs + 1;
      }
      infoPtr := false;
    }
  }

  /** Compositing consumes the image: a second composite without a reload leaves the
      surface as the first one left it. */
  method CompositeTwice(loader: ImageLoader, fb: array<Word>, s: ScreenInfo, posx: int, posy: int)
    requires loader.Valid()
    requires loader.fileType == Png ==> loader.Drawable() && Fits(s, fb.Length)
    modifies loader, fb
    ensures loader.Released()
    ensures fb[..] == if old(loader.fileType) == Png
                      then Composited(old(fb[..]), old(loader.Loaded()), s, posx, posy)
                      else old(fb[..])
  {
    var rc := loader.CopyToFramebuffer(fb, s, posx, posy);
    ghost var once := fb[..];
    rc := loader.CopyToFramebuffer(fb, s, posx, posy);
    assert fb[..] == once;
  }

  /** A load that faults after the header has set `m_height`, but before the rows are
      allocated, leaves the object tagged `Png` with a null row array and a positive
      height: a composite in that state would read rows that do not exist. */
  method FailedLoadNotDrawable(loader: ImageLoader, h: Header)
    requires loader.Valid() && ValidHeader(h)
    modifies loader
    ensures loader.fileType == Png && loader.rowPointers == None && loader.height == h.height
    ensures !loader.Drawable()
  {
    var rc := loader.LoadImage(SetupFault(h));
  }

  /** A reload of an unopenable file keeps the stale height of the earlier image beside
      the null row array that `destroy` left, and still tags the object `Png`. */
  method UnopenedReloadNotDrawable(loader: ImageLoader)
    requires loader.Valid() && loader.height >= 1
    modifies loader
    ensures loader.fileType == Png && loader.rowPointers == None && loader.height == old(loader.height)
    ensures !loader.Drawable()
  {
    var rc := loader.LoadImage(OpenFails);
  }

  /** A size query after a composite tags the released object `Png` again, with the stale
      height of the composited image and no rows. */
  method SizeAfterCompositeNotDrawable(loader: ImageLoader, fb: array<Word>, s: ScreenInfo,
                                       posx: int, posy: int, o: Codec)
    requires loader.Valid() && loader.height >= 1
    requires loader.fileType == Png ==> loader.Drawable() && Fits(s, fb.Length)
    modifies loader, fb
    ensures loader.fileType == Png && loader.rowPointers == None && loader.height == old(loader.height)
    ensures !loader.Drawable()
  {
    var rc := loader.CopyToFramebuffer(fb, s, posx, posy);
    var x, y;
    rc, x, y := loader.ImageSize(o, 0, 0);
  }
}
