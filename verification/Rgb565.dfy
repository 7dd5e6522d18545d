/** The 16-bit pixel: what the text writer, the driver's palette and the decoders make of it. */
module Rgb565 {
  import opened Bytes
  import opened FbCat
  import DummyFb
  import FbStr
  import V = FbView

  /** What a colour's three bytes are worth as a number. */
  function Rgb(c: seq<byte>): word
    requires |c| == 3
  {
    Word32(c[2], c[1], c[0], 0)
  }

  lemma RgbChannels(r: byte, g: byte, b: byte)
    ensures var color := Rgb([r, g, b]); FbStr.Red(color) == r && FbStr.Green(color) == g && FbStr.Blue(color) == b
  {
    var color: word, upper: nat := Rgb([r, g, b]), Word16(g, r);
    DivModUnique(color, 0x100, upper, b);
    DivModUnique(upper, 0x100, r, g);
    DivModUnique(color, 0x1_0000, r, Word16(b, g));
  }

  /** The three parts of a pixel can be taken apart again. */
  lemma PartsOfPixel(r: nat, g: nat, b: nat)
    requires r < 32 && g < 64 && b < 32
    ensures var p := r * 0x800 + g * 0x20 + b; p / 0x800 % 0x20 == r && p / 0x20 % 0x40 == g && p % 0x20 == b
  {
    var upper, p := r * 0x40 + g, r * 0x800 + g * 0x20 + b;
    DivModUnique(p, 0x20, upper, b);
    DivModUnique(upper, 0x40, r, g);
    DivModUnique(p, 0x800, r, g * 0x20 + b);
  }

  /** Joining the shifted parts with `|` is adding them. */
  lemma PackedIsOr(r: nat, g: nat, b: nat)
    requires r < 32 && g < 64 && b < 32
    ensures BitOr(BitOr(r * 0x800, g * 0x20), b) == r * 0x800 + g * 0x20 + b
  {
    var upper := r * 64 + g;
    assert Pow2(4) == 16 && Pow2(8) == 256;
    assert Pow2(5) == 0x20 && Pow2(11) == 0x800;
    OrIsSum(r, 11, g * 0x20);
    OrIsSum(upper, 5, b);
    assert upper * 0x20 == r * 0x800 + g * 0x20;
  }

  lemma WidenedIsOr(v: nat)
    ensures v < 32 ==> BitOr(v * 8, v / 4) == V.Widen5(v)
    ensures v < 64 ==> BitOr(v * 4, v / 16) == V.Widen6(v)
  {
    assert Pow2(3) == 8 && Pow2(2) == 4;
    if v < 32 {
      OrIsSum(v, 3, v / 4);
    }
    if v < 64 {
      OrIsSum(v, 2, v / 16);
    }
  }

  /** What lcd_put_pixel stores for a colour, in the source's own operators. */
  lemma Pack565IsOr(color: word)
    ensures FbStr.Pack565(color) ==
            BitOr(BitOr(FbStr.Red(color) / 8 * 0x800, FbStr.Green(color) / 4 * 0x20), FbStr.Blue(color) / 8)
  {
    PackedIsOr(FbStr.Red(color) / 8, FbStr.Green(color) / 4, FbStr.Blue(color) / 8);
  }

  lemma ScaledTop(v: byte)
    ensures v * 257 % 0x1_0000 / 0x800 == v / 8 && v * 257 % 0x1_0000 / 0x400 == v / 4
  {
    var n: nat := v * 257;
    DivModUnique(n, 0x1_0000, 0, n);
    DivModUnique(n, 0x800, v / 8, 8 * (v / 8) + 257 * (v % 8));
    DivModUnique(n, 0x400, v / 4, 4 * (v / 4) + 257 * (v % 4));
  }

  /** A channel scaled to sixteen bits, as the driver puts it into its field. */
  lemma ScaledChannel(v: byte)
    ensures DummyFb.ChanToField(v * 257, DummyFb.FIELDS.red) == v / 8 * 0x800
    ensures DummyFb.ChanToField(v * 257, DummyFb.FIELDS.green) == v / 4 * 0x20
    ensures DummyFb.ChanToField(v * 257, DummyFb.FIELDS.blue) == v / 8
  {
    ScaledTop(v);
    Pow2Words();
    DummyFb.FieldOfChan(v * 257, DummyFb.FIELDS.red, v / 8);
    DummyFb.FieldOfChan(v * 257, DummyFb.FIELDS.green, v / 4);
    DummyFb.FieldOfChan(v * 257, DummyFb.FIELDS.blue, v / 8);
  }

  /** For every colour, the text writer's pixel is the palette entry that the driver makes of the channels scaled to
      sixteen bits. */
  lemma PackingsAgree(color: word)
    ensures FbStr.Pack565(color) ==
            DummyFb.Packed(DummyFb.FIELDS, FbStr.Red(color) * 257, FbStr.Green(color) * 257, FbStr.Blue(color) * 257)
  {
    ScaledChannel(FbStr.Red(color));
    ScaledChannel(FbStr.Green(color));
    ScaledChannel(FbStr.Blue(color));
    Pack565IsOr(color);
  }

  lemma PixelIsParts(p: nat)
    requires p < 0x1_0000
    ensures p / 0x800 % 0x20 * 0x800 + p / 0x20 % 0x40 * 0x20 + p % 0x20 == p
  {
    var upper := p / 0x20;
    assert p == upper * 0x20 + p % 0x20 && upper == upper / 0x40 * 0x40 + upper % 0x40;
    DivModUnique(p, 0x800, upper / 0x40, upper % 0x40 * 0x20 + p % 0x20);
  }

  lemma NarrowWidened(r: nat, g: nat, b: nat)
    requires r < 32 && g < 64 && b < 32
    ensures V.Widen5(r) < 0x100 && V.Widen5(r) / 8 == r
    ensures V.Widen6(g) < 0x100 && V.Widen6(g) / 4 == g
    ensures V.Widen5(b) < 0x100 && V.Widen5(b) / 8 == b
  {
  }

  lemma PackWidened(r: nat, g: nat, b: nat)
    requires r < 32 && g < 64 && b < 32
    ensures V.Widen5(r) < 0x100 && V.Widen6(g) < 0x100 && V.Widen5(b) < 0x100
    ensures FbStr.Pack565(Rgb([V.Widen5(r), V.Widen6(g), V.Widen5(b)])) == r * 0x800 + g * 0x20 + b
  {
    NarrowWidened(r, g, b);
    RgbChannels(V.Widen5(r), V.Widen6(g), V.Widen5(b));
  }

  /** Decoding a pixel and encoding the colour again is the identity. */
  lemma DecodeEncode(p: nat)
    requires p < 0x1_0000
    ensures FbStr.Pack565(Rgb(V.Entry565(p))) == p
  {
    PackWidened(p / 0x800 % 0x20, p / 0x20 % 0x40, p % 0x20);
    PixelIsParts(p);
  }

  lemma ChannelLoss(v: byte)
    ensures -7 <= V.Widen5(v / 8) - v <= 7 && -3 <= V.Widen6(v / 4) - v <= 3
  {
  }

  predicate Near(c: seq<byte>, r: byte, g: byte, b: byte)
    requires |c| == 3
  {
    -7 <= c[0] - r <= 7 && -3 <= c[1] - g <= 3 && -7 <= c[2] - b <= 7
  }

  lemma NearPixel(p: nat, r: byte, g: byte, b: byte)
    requires p < 0x1_0000 && p / 0x800 % 0x20 == r / 8 && p / 0x20 % 0x40 == g / 4 && p % 0x20 == b / 8
    ensures Near(V.Entry565(p), r, g, b)
  {
    ChannelLoss(r);
    ChannelLoss(g);
    ChannelLoss(b);
  }

  /** Encoding a colour and decoding the pixel moves red and blue by at most 7 and green by at most 3. */
  lemma EncodeDecode(color: word)
    ensures Near(V.Entry565(FbStr.Pack565(color)), FbStr.Red(color), FbStr.Green(color), FbStr.Blue(color))
  {
    PartsOfPixel(FbStr.Red(color) / 8, FbStr.Green(color) / 4, FbStr.Blue(color) / 8);
    NearPixel(FbStr.Pack565(color), FbStr.Red(color), FbStr.Green(color), FbStr.Blue(color));
  }

  /** What a colour becomes, channel by channel. */
  lemma SeenChannels(color: word)
    ensures V.Entry565(FbStr.Pack565(color)) ==
            [V.Widen5(FbStr.Red(color) / 8), V.Widen6(FbStr.Green(color) / 4), V.Widen5(FbStr.Blue(color) / 8)]
  {
    PartsOfPixel(FbStr.Red(color) / 8, FbStr.Green(color) / 4, FbStr.Blue(color) / 8);
  }

  lemma ExtremeChannels(r: byte, g: byte, b: byte, c: seq<byte>)
    requires |c| == 3 && c[0] == V.Widen5(r / 8) && c[1] == V.Widen6(g / 4) && c[2] == V.Widen5(b / 8)
    ensures r == g == b == 255 ==> c == [255, 255, 255]
    ensures r == g == b == 0 ==> c == [0, 0, 0]
  {
  }

  lemma ExtremeColors(color: word)
    ensures color == 0xFF_FFFF ==> FbStr.Red(color) == FbStr.Green(color) == FbStr.Blue(color) == 255
    ensures color == 0 ==> FbStr.Red(color) == FbStr.Green(color) == FbStr.Blue(color) == 0
  {
  }

  /** White and black are kept. */
  lemma ExtremesKept(color: word)
    ensures color == 0xFF_FFFF ==> V.Entry565(FbStr.Pack565(color)) == [255, 255, 255]
    ensures color == 0 ==> V.Entry565(FbStr.Pack565(color)) == [0, 0, 0]
  {
    SeenChannels(color);
    ExtremeColors(color);
    ExtremeChannels(FbStr.Red(color), FbStr.Green(color), FbStr.Blue(color), V.Entry565(FbStr.Pack565(color)));
  }

  /** So is the colour that a pixel decodes to kept, and it is the only kind of colour that is. */
  lemma KeptExactly(color: word)
    requires color < 0x100_0000
    ensures Rgb(V.Entry565(FbStr.Pack565(color))) == color <==>
            exists p: nat | p < 0x1_0000 :: color == Rgb(V.Entry565(p))
  {
    if p: nat :| p < 0x1_0000 && color == Rgb(V.Entry565(p)) {
      DecodeEncode(p);
    }
  }
}
