/** The framebuffer compositor: every sample of the decoded raster, placed with its
    top-left corner at (posx, posy), is clipped against the visible box and blended
    into the 32-bit word at its location. */
module Compositor {
  import opened Optional
  import opened Pixels
  import opened Screen

  /** The decoded image as the compositor reads it: `m_width`, `m_height` and the rows. */
  datatype Raster = Raster(width: nat, height: nat, rows: seq<seq<Byte>>)

  /** Every row below `height` exists and holds four bytes for each of `width` samples. */
  predicate Readable(img: Raster)
  {
    img.height <= |img.rows| &&
    forall y :: 0 <= y < img.height ==> 4 * img.width <= |img.rows[y]|
  }

  /** The sample at column `mx` of row `my`: bytes `row[mx*4] .. row[mx*4 + 3]`, R, G, B, A. */
  function Sample(img: Raster, mx: nat, my: nat): Rgba
    requires Readable(img) && mx < img.width && my < img.height
  {
    var row := img.rows[my];
    Rgba(row[4 * mx], row[4 * mx + 1], row[4 * mx + 2], row[4 * mx + 3])
  }

  /** The raster sample, if any, that lands on word `k`: word `k` must be the location of a
      visible pixel, and that pixel must lie under the placed raster. */
  function Source(img: Raster, s: ScreenInfo, posx: int, posy: int, k: nat): Option<(nat, nat)>
  {
    match Locate(s, k)
    case None => None
    case Some((x, y)) =>
      if 0 <= x - posx < img.width && 0 <= y - posy < img.height
      then Some((x - posx, y - posy))
      else None
  }

  /** Word `k` after compositing, given the words before. */
  function CompositedWord(before: seq<Word>, img: Raster, s: ScreenInfo, posx: int, posy: int, k: nat): Word
    requires Readable(img) && k < |before|
  {
    match Source(img, s, posx, posy, k)
    case Some((mx, my)) => BlendWord(before[k], Sample(img, mx, my))
    case None => before[k]
  }

  /** The whole surface after compositing: the reference definition, word by word. */
  function Composited(before: seq<Word>, img: Raster, s: ScreenInfo, posx: int, posy: int): (after: seq<Word>)
    requires Readable(img)
    ensures |after| == |before|
  {
    seq(|before|, k requires 0 <= k < |before| => CompositedWord(before, img, s, posx, posy, k))
  }

  /** The sample that `Source` assigns to a word is visible and has that word as its location. */
  lemma {:induction false} SourceLocation(img: Raster, s: ScreenInfo, posx: int, posy: int, k: nat)
    requires Packed32(s) && Source(img, s, posx, posy, k).Some?
    ensures var (mx, my) := Source(img, s, posx, posy, k).value;
      mx < img.width && my < img.height &&
      Visible(s, posx + mx, posy + my) && WordIndex(s, posx + mx, posy + my) == k
  {
    WordIndexLocate(s, k);
  }

  /** Push view of the same result: a raster sample whose destination is visible
      turns the word at its location into the blend of that sample over the old word. */
  lemma {:induction false} CompositedAt(before: seq<Word>, img: Raster, s: ScreenInfo, posx: int, posy: int, mx: nat, my: nat)
    requires Readable(img) && Fits(s, |before|)
    requires mx < img.width && my < img.height && Visible(s, posx + mx, posy + my)
    ensures var k := WordIndex(s, posx + mx, posy + my);
      k < |before| &&
      Composited(before, img, s, posx, posy)[k] == BlendWord(before[k], Sample(img, mx, my))
  {
    LocateWordIndex(s, posx + mx, posy + my);
  }

  /** Frame condition: a word that changes is the location of a visible pixel under the raster. */
  lemma {:induction false} OnlyVisibleSamplesWrite(before: seq<Word>, img: Raster, s: ScreenInfo, posx: int, posy: int, k: nat)
    returns (mx: nat, my: nat)
    requires Readable(img) && Packed32(s) && k < |before|
    requires Composited(before, img, s, posx, posy)[k] != before[k]
    ensures mx < img.width && my < img.height
    ensures Visible(s, posx + mx, posy + my) && WordIndex(s, posx + mx, posy + my) == k
  {
    assert Source(img, s, posx, posy, k).Some?;
    SourceLocation(img, s, posx, posy, k);
    mx, my := Source(img, s, posx, posy, k).value.0, Source(img, s, posx, posy, k).value.1;
  }

  /** A raster placed wholly outside the visible box leaves every word as it was. */
  lemma {:induction false} OutsideLeavesSurface(before: seq<Word>, img: Raster, s: ScreenInfo, posx: int, posy: int)
    requires Readable(img) && Packed32(s)
    requires posx >= s.xres || posy >= s.yres || posx + img.width <= 0 || posy + img.height <= 0
    ensures Composited(before, img, s, posx, posy) == before
  {
    var after := Composited(before, img, s, posx, posy);
    forall k | 0 <= k < |before|
      ensures after[k] == before[k]
    {
      if Source(img, s, posx, posy, k).Some? {
        SourceLocation(img, s, posx, posy, k);
      }
    }
  }

  /** The word `k` once rows before `my`, and columns before `mx` of row `my`, are done. */
  ghost function Stage(before: seq<Word>, img: Raster, s: ScreenInfo, posx: int, posy: int, k: nat, my: nat, mx: nat): Word
    requires Readable(img) && k < |before|
  {
    match Source(img, s, posx, posy, k)
    case Some((px, py)) =>
      if py < my || (py == my && px < mx) then BlendWord(before[k], Sample(img, px, py)) else before[k]
    case None => before[k]
  }

  /** Advancing the cursor past sample (mx, my) changes the stage of one word at most: the
      location of that sample, when it is visible. */
  lemma {:induction false} StageStep(before: seq<Word>, img: Raster, s: ScreenInfo, posx: int, posy: int, k: nat, my: nat, mx: nat)
    requires Readable(img) && Fits(s, |before|) && k < |before|
    requires mx < img.width && my < img.height
    ensures Visible(s, posx + mx, posy + my) && k == WordIndex(s, posx + mx, posy + my) ==>
      Stage(before, img, s, posx, posy, k, my, mx) == before[k] &&
      Stage(before, img, s, posx, posy, k, my, mx + 1) == BlendWord(before[k], Sample(img, mx, my))
    ensures !(Visible(s, posx + mx, posy + my) && k == WordIndex(s, posx + mx, posy + my)) ==>
      Stage(before, img, s, posx, posy, k, my, mx + 1) == Stage(before, img, s, posx, posy, k, my, mx)
  {
    if Visible(s, posx + mx, posy + my) {
      LocateWordIndex(s, posx + mx, posy + my);
    }
    if Source(img, s, posx, posy, k).Some? {
      SourceLocation(img, s, posx, posy, k);
    }
  }

  /** Finishing row `my` is starting row `my + 1`; finishing the last row is the full result. */
  lemma {:induction false} StageRow(before: seq<Word>, img: Raster, s: ScreenInfo, posx: int, posy: int, k: nat, my: nat)
    requires Readable(img) && k < |before|
    ensures Stage(before, img, s, posx, posy, k, my, img.width) == Stage(before, img, s, posx, posy, k, my + 1, 0)
    ensures Stage(before, img, s, posx, posy, k, img.height, 0) == CompositedWord(before, img, s, posx, posy, k)
  {
  }

  /** The nested loop of `copy_to_framebuffer`: rows in order, columns in order, each
      visible sample read-modify-written in place. */
  method Blit(fb: array<Word>, img: Raster, s: ScreenInfo, posx: int, posy: int)
    requires Readable(img) && Fits(s, fb.Length)
    modifies fb
    ensures fb[..] == Composited(old(fb[..]), img, s, posx, posy)
  {
    ghost var before := fb[..];
    var y, my := posy, 0;
    while my < img.height
      invariant 0 <= my <= img.height && y == posy + my
      invariant forall k :: 0 <= k < fb.Length ==> fb[k] == Stage(before, img, s, posx, posy, k, my, 0)
    {
      var row := img.rows[my];
      var x, mx := posx, 0;
      while mx < img.width
        invariant 0 <= mx <= img.width && x == posx + mx
        invariant forall k :: 0 <= k < fb.Length ==> fb[k] == Stage(before, img, s, posx, posy, k, my, mx)
      {
        if Visible(s, x, y) {
          var location := WordIndex(s, x, y);
          var target := fb[location];
          fb[location] := BlendWord(target, Rgba(row[4 * mx], row[4 * mx + 1], row[4 * mx + 2], row[4 * mx + 3]));
        }
        forall k | 0 <= k < fb.Length
          ensures fb[k] == Stage(before, img, s, posx, posy, k, my, mx + 1)
        {
          StageStep(before, img, s, posx, posy, k, my, mx);
        }
        x, mx := x + 1, mx + 1;
      }
      forall k | 0 <= k < fb.Length
        ensures fb[k] == Stage(before, img, s, posx, posy, k, my + 1, 0)
      {
        StageRow(before, img, s, posx, posy, k, my);
      }
      y, my := y + 1, my + 1;
    }
    forall k | 0 <= k < fb.Length
      ensures fb[k] == CompositedWord(before, img, s, posx, posy, k)
    {
      StageRow(before, img, s, posx, posy, k, my);
    }
  }
}
