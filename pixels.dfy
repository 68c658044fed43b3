/** Pixel arithmetic of the framebuffer compositor: 8-bit channels, the packed
    32-bit destination word (red in bits 16-23, green in 8-15, blue in 0-7) and
    the straight-alpha "source over" blend of one channel. */
module Pixels {
  import opened Arith

  type Byte = b: int | 0 <= b < 0x100
  type Word = w: int | 0 <= w < 0x1_0000_0000

  /** One RGBA sample of the decoded raster, in the byte order the decoder writes it. */
  datatype Rgba = Rgba(r: Byte, g: Byte, b: Byte, a: Byte)

  /** `(target >> 16) & 0xff` */
  function Red(w: Word): Byte { (w / 0x1_0000) % 0x100 }
  /** `(target >> 8) & 0xff` */
  function Green(w: Word): Byte { (w / 0x100) % 0x100 }
  /** `target & 0xff` */
  function Blue(w: Word): Byte { w % 0x100 }

  /** `(r << 16) | (g << 8) | b`: the three fields do not overlap, so the OR is a sum. */
  function Pack(r: Byte, g: Byte, b: Byte): (w: Word)
    ensures Red(w) == r && Green(w) == g && Blue(w) == b
    ensures w < 0x100_0000
  {
    var w := r * 0x1_0000 + g * 0x100 + b;
    DivModUnique(w, 0x100, r * 0x100 + g, b);
    DivModUnique(w / 0x100, 0x100, r, g);
    DivModUnique(w, 0x1_0000, r, g * 0x100 + b);
    DivModUnique(r, 0x100, 0, r);
    w
  }

  /** The bitwise formulation of `Pack`, checked on 32-bit vectors: shifting each
      channel into place and OR-ing them equals the weighted sum. */
  lemma PackIsBitwiseOr(r: bv32, g: bv32, b: bv32)
    requires r < 0x100 && g < 0x100 && b < 0x100
    ensures (r << 16) | (g << 8) | b == r * 0x1_0000 + g * 0x100 + b
  {
  }

  /** Unpacking a word and packing it again keeps its low 24 bits and clears the top byte. */
  lemma {:induction false} RepackClearsTopByte(w: Word)
    ensures Pack(Red(w), Green(w), Blue(w)) == w % 0x100_0000
  {
    var l, t := w % 0x100_0000, w / 0x100_0000;
    var b, q := l % 0x100, l / 0x100;
    var g, r := q % 0x100, q / 0x100;
    assert r < 0x100;
    assert l == (r * 0x100 + g) * 0x100 + b;
    assert w == ((t * 0x100 + r) * 0x100 + g) * 0x100 + b;
    DivModUnique(w, 0x100, (t * 0x100 + r) * 0x100 + g, b);
    DivModUnique(w / 0x100, 0x100, t * 0x100 + r, g);
    assert w == (t * 0x100 + r) * 0x1_0000 + (g * 0x100 + b);
    DivModUnique(w, 0x1_0000, t * 0x100 + r, g * 0x100 + b);
    DivModUnique(w / 0x1_0000, 0x100, t, r);
  }

  /** One blended channel: `dst + alpha * (src - dst) / 255`, truncated to an unsigned
      integer. The exact sum is never negative, so truncation is the floor. */
  function BlendChannel(src: Byte, dst: Byte, alpha: Byte): (c: Byte)
    ensures 255 * c <= 255 * dst + alpha * (src - dst) < 255 * c + 255
    ensures src <= dst ==> src <= c <= dst
    ensures dst <= src ==> dst <= c <= src
    ensures alpha == 0 ==> c == dst
    ensures alpha == 255 ==> c == src
  {
    BlendBounds(src, dst, alpha);
    dst + (alpha * (src - dst)) / 255
  }

  lemma BlendBounds(src: Byte, dst: Byte, alpha: Byte)
    ensures src <= dst ==> src - dst <= (alpha * (src - dst)) / 255 <= 0
    ensures dst <= src ==> 0 <= (alpha * (src - dst)) / 255 <= src - dst
  {
    var d := src - dst;
    var t := alpha * d;
    if d >= 0 {
      MulMonotone(alpha, 255, d);
      assert 0 <= t <= 255 * d;
    } else {
      MulMonotone(alpha, 255, -d);
      assert 255 * d <= t <= 0;
    }
  }

  /** The word written back for one raster sample over the old word `target`. */
  function BlendWord(target: Word, px: Rgba): (w: Word)
    ensures w < 0x100_0000
    ensures Red(w) == BlendChannel(px.r, Red(target), px.a)
    ensures Green(w) == BlendChannel(px.g, Green(target), px.a)
    ensures Blue(w) == BlendChannel(px.b, Blue(target), px.a)
  {
    Pack(BlendChannel(px.r, Red(target), px.a),
         BlendChannel(px.g, Green(target), px.a),
         BlendChannel(px.b, Blue(target), px.a))
  }

  /** A fully opaque sample replaces the colour with the sample's RGB. */
  lemma OpaqueReplaces(target: Word, px: Rgba)
    requires px.a == 255
    ensures BlendWord(target, px) == Pack(px.r, px.g, px.b)
  {
  }

  /** A fully transparent sample keeps the old RGB; only the top byte is cleared. */
  lemma {:induction false} TransparentKeepsRgb(target: Word, px: Rgba)
    requires px.a == 0
    ensures BlendWord(target, px) == target % 0x100_0000
  {
    RepackClearsTopByte(target);
  }

  /** At alpha 128 each channel lands next to the midpoint of source and destination: at
      most one above it, at most one below the lower neighbour (the weight 128/255 is
      slightly above one half, and the result is floored). */
  lemma {:induction false} HalfAlphaNearMidpoint(src: Byte, dst: Byte)
    ensures var c := BlendChannel(src, dst, 128);
      src + dst - 2 <= 2 * c <= src + dst + 1
  {
    var c := BlendChannel(src, dst, 128);
    assert 255 * c <= 255 * dst + 128 * (src - dst) < 255 * c + 255;
    assert 255 * (2 * c) <= 255 * (src + dst) + (src - dst);
    assert 255 * (src + dst) + (src - dst) < 255 * (2 * c) + 510;
  }
}
