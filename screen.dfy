/** Destination geometry: the fields of the Linux framebuffer descriptors that the
    compositor reads, the byte location of a visible pixel, and its inverse. */
module Screen {
  import opened Optional
  import opened Arith

  /** `xres`, `yres`, `xoffset`, `yoffset`, `bits_per_pixel` of the variable screen
      information and `line_length` of the fixed screen information. */
  datatype ScreenInfo = ScreenInfo(
    xres: nat, yres: nat,
    xoffset: nat, yoffset: nat,
    bitsPerPixel: nat,
    lineLength: nat)

  /** `(x + xoffset) * (bits_per_pixel / 8) + (y + yoffset) * line_length` */
  function ByteLocation(s: ScreenInfo, x: int, y: int): int
  {
    (x + s.xoffset) * (s.bitsPerPixel / 8) + (y + s.yoffset) * s.lineLength
  }

  /** Words per line. */
  function Stride(s: ScreenInfo): nat { s.lineLength / 4 }

  /** A 32-bit packed surface whose visible box, shifted by the offsets, lies within one line. */
  predicate Packed32(s: ScreenInfo)
  {
    s.bitsPerPixel == 32 && s.lineLength % 4 == 0 && s.xoffset + s.xres <= Stride(s)
  }

  /** The surface, seen as `words` 32-bit words, holds every visible pixel. */
  predicate Fits(s: ScreenInfo, words: nat)
  {
    Packed32(s) && (s.yoffset + s.yres) * Stride(s) <= words
  }

  /** The clipping test of the compositor. */
  predicate Visible(s: ScreenInfo, x: int, y: int)
  {
    0 <= x < s.xres && 0 <= y < s.yres
  }

  /** Index of the 32-bit word at the byte location of a visible pixel. */
  function WordIndex(s: ScreenInfo, x: int, y: int): (k: nat)
    requires Packed32(s) && Visible(s, x, y)
    ensures 4 * k == ByteLocation(s, x, y)
    ensures k == (x + s.xoffset) + (y + s.yoffset) * Stride(s)
    ensures k < (s.yoffset + s.yres) * Stride(s)
  {
    var w := Stride(s);
    var col, line := x + s.xoffset, y + s.yoffset;
    assert s.lineLength == 4 * w;
    assert line * s.lineLength == 4 * (line * w);
    assert ByteLocation(s, x, y) == 4 * (col + line * w);
    assert col + line * w < (line + 1) * w;
    assert (line + 1) * w <= (s.yoffset + s.yres) * w by {
      MulMonotone(line + 1, s.yoffset + s.yres, w);
    }
    ByteLocation(s, x, y) / 4
  }

  /** The visible pixel, if any, whose location is word `k`. */
  function Locate(s: ScreenInfo, k: nat): Option<(int, int)>
  {
    var w := Stride(s);
    if w == 0 then None
    else
      var x, y := k % w - s.xoffset, k / w - s.yoffset;
      if Visible(s, x, y) then Some((x, y)) else None
  }

  /** `Locate` undoes `WordIndex`. */
  lemma {:induction false} LocateWordIndex(s: ScreenInfo, x: int, y: int)
    requires Packed32(s) && Visible(s, x, y)
    ensures Locate(s, WordIndex(s, x, y)) == Some((x, y))
  {
    var w := Stride(s);
    DivModUnique(WordIndex(s, x, y), w, y + s.yoffset, x + s.xoffset);
  }

  /** `WordIndex` undoes `Locate`: distinct visible pixels own distinct words. */
  lemma {:induction false} WordIndexLocate(s: ScreenInfo, k: nat)
    requires Packed32(s) && Locate(s, k).Some?
    ensures var (x, y) := Locate(s, k).value;
      Visible(s, x, y) && WordIndex(s, x, y) == k
  {
    var w := Stride(s);
    assert k == (k / w) * w + k % w;
  }
}
