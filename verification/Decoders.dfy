/** The two decoders, fbcat and fbview, side by side. */
module Decoders {
  import opened Bytes
  import opened FbCat
  import opened FbCatProperties
  import V = FbView

  predicate TrueColorMaps(info: VarInfo, cmap: Colormap) {
    && IsTrueColor(cmap.red, info.red.length)
    && IsTrueColor(cmap.green, info.green.length)
    && IsTrueColor(cmap.blue, info.blue.length)
  }

  function Channels(info: VarInfo): (r: seq<V.Channel>)
    ensures |r| == 3
  {
    [V.Channel(info.red.offset, info.red.length), V.Channel(info.green.offset, info.green.length),
     V.Channel(info.blue.offset, info.blue.length)]
  }

  // ---------------------------------------------------------------- channels

  /** Five and six bits: the colormap entry, cut to eight bits, repeats the top bits below. */
  lemma Widened(i: nat)
    ensures i < 32 ==> i * 0xFFFF / 31 / 0x100 == V.Widen5(i)
    ensures i < 64 ==> i * 0xFFFF / 63 / 0x100 == V.Widen6(i)
    ensures i < 256 ==> i * 0xFFFF / 255 / 0x100 == i
  {
  }

  lemma Channel5(pixel: nat, f: BitField, cmap: seq<nat>)
    requires FieldFits(f) && f.length == 5 && IsTrueColor(cmap, 5)
    ensures GetColor(pixel, f, cmap) == V.Widen5(Field(pixel, f))
  {
    Pow2UpTo8(5);
    Widened(Field(pixel, f));
  }

  lemma Channel6(pixel: nat, f: BitField, cmap: seq<nat>)
    requires FieldFits(f) && f.length == 6 && IsTrueColor(cmap, 6)
    ensures GetColor(pixel, f, cmap) == V.Widen6(Field(pixel, f))
  {
    Pow2UpTo8(6);
    Widened(Field(pixel, f));
  }

  lemma Channel8(pixel: nat, f: BitField, cmap: seq<nat>)
    requires FieldFits(f) && f.length == 8 && IsTrueColor(cmap, 8)
    ensures GetColor(pixel, f, cmap) == Field(pixel, f)
  {
    Pow2UpTo8(8);
    Widened(Field(pixel, f));
  }

  /** How far the plain shift of fbview stays below the colormap of fbcat, for a channel of any length. */
  lemma ShiftBelowMap(pixel: nat, f: BitField, cmap: seq<nat>)
    requires FieldFits(f) && IsTrueColor(cmap, f.length)
    ensures var shifted := V.Shifted(pixel, V.Channel(f.offset, f.length));
            0 <= GetColor(pixel, f, cmap) - shifted < Pow2(8 - f.length)
  {
    Pow2UpTo8(f.length);
    Pow2UpTo8(8 - f.length);
    ShiftGap(Field(pixel, f), f.length);
  }

  lemma ShiftGap(i: nat, length: nat)
    requires 1 <= length <= 8 && i < [1, 2, 4, 8, 16, 32, 64, 128, 256][length]
    ensures var n, m := [1, 2, 4, 8, 16, 32, 64, 128, 256][length], [1, 2, 4, 8, 16, 32, 64, 128, 256][8 - length];
            0 <= i * 0xFFFF / (n - 1) / 0x100 - i * m < m
  {
    if length == 1 {
    } else if length == 2 {
    } else if length == 3 {
    } else if length == 4 {
    } else if length == 5 {
    } else if length == 6 {
    } else if length == 7 {
    } else {
    }
  }

  /** The largest channel value is white for fbcat, but for fbview only with eight bits. */
  lemma FullChannel(f: BitField, cmap: seq<nat>)
    requires FieldFits(f) && IsTrueColor(cmap, f.length)
    ensures var pixel := (Pow2(f.length) - 1) * Pow2(f.offset);
            && Field(pixel, f) == Pow2(f.length) - 1
            && GetColor(pixel, f, cmap) == 255
            && V.Shifted(pixel, V.Channel(f.offset, f.length)) == 256 - Pow2(8 - f.length)
  {
    var n := Pow2(f.length) - 1;
    Pow2UpTo8(f.length);
    Pow2UpTo8(8 - f.length);
    DivModUnique(n * Pow2(f.offset), Pow2(f.offset), n, 0);
    DivModUnique(n * 0xFFFF, n, 0xFFFF, 0);
    assert Field(n * Pow2(f.offset), f) == n;
  }

  /** The bits of a field that a 32-bit pixel has. */
  function Attainable(f: BitField): nat
    requires FieldFits(f)
  {
    if f.offset + f.length <= 32 then f.length else 32 - f.offset
  }

  /** The channels on which shift and colormap agree: for a field inside the pixel, those of eight bits. */
  predicate Matches(f: BitField)
    requires FieldFits(f)
  {
    Attainable(f) + 8 <= 2 * f.length
  }

  /** The least value on which they differ. */
  function FirstGap(length: nat): nat
    requires 1 <= length <= 8
  {
    [1, 1, 1, 1, 1, 4, 16, 64, 256][length]
  }

  lemma GapLaw(i: nat, length: nat)
    requires 1 <= length <= 8 && i < [1, 2, 4, 8, 16, 32, 64, 128, 256][length]
    ensures var n, m := [1, 2, 4, 8, 16, 32, 64, 128, 256][length], [1, 2, 4, 8, 16, 32, 64, 128, 256][8 - length];
            i * 0xFFFF / (n - 1) / 0x100 == i * m <==> i < FirstGap(length)
  {
    if length == 1 {
    } else if length == 2 {
    } else if length == 3 {
    } else if length == 4 {
    } else if length == 5 {
    } else if length == 6 {
    } else if length == 7 {
    } else {
    }
  }

  lemma ValueLaw(pixel: nat, f: BitField, cmap: seq<nat>)
    requires FieldFits(f) && IsTrueColor(cmap, f.length)
    ensures GetColor(pixel, f, cmap) == V.Shifted(pixel, V.Channel(f.offset, f.length)) <==>
            Field(pixel, f) < FirstGap(f.length)
  {
    Pow2UpTo8(f.length);
    Pow2UpTo8(8 - f.length);
    GapLaw(Field(pixel, f), f.length);
  }

  lemma GapAttained(f: BitField)
    requires FieldFits(f) && 1 <= f.length
    ensures Matches(f) <==> Pow2(Attainable(f)) <= FirstGap(f.length)
  {
    Pow2UpTo8(Attainable(f));
  }

  lemma PartsOfWord(offset: nat)
    requires offset < 32
    ensures Pow2(32 - offset) * Pow2(offset) == WORD
  {
    Pow2Words();
    Pow2Add(32 - offset, offset);
  }

  lemma WordQuotient(pixel: word, d: nat, b: nat)
    requires 0 < d && b * d == WORD
    ensures pixel / d < b
  {
    QuotientBelow(pixel, d, b);
  }

  lemma QuotientOfWord(pixel: word, offset: nat) returns (q: nat)
    requires offset < 32
    ensures q == pixel / Pow2(offset) && q < Pow2(32 - offset)
  {
    PartsOfWord(offset);
    WordQuotient(pixel, Pow2(offset), Pow2(32 - offset));
    q := pixel / Pow2(offset);
  }

  lemma FieldBelow(pixel: word, f: BitField)
    requires FieldFits(f)
    ensures Field(pixel, f) < Pow2(Attainable(f))
  {
    var q := QuotientOfWord(pixel, f.offset);
    if f.offset + f.length > 32 {
      Pow2Mono(32 - f.offset, f.length);
      DivModUnique(q, Pow2(f.length), 0, q);
    }
  }

  /** A value of the field and the pixel that has it. */
  lemma PixelOf(v: nat, f: BitField) returns (pixel: word)
    requires FieldFits(f) && v < Pow2(Attainable(f))
    ensures Field(pixel, f) == v
  {
    ShiftedFits(v, Attainable(f), f.offset);
    Pow2Mono(Attainable(f), f.length);
    FieldOfShifted(v, f);
    pixel := v * Pow2(f.offset);
  }

  /** The shift and the colormap agree on every 32-bit pixel exactly if the channel has eight bits, or so few of its
      bits are inside the pixel that its values are too small to differ. */
  lemma ShiftAgreesExactly(f: BitField, cmap: seq<nat>)
    requires FieldFits(f) && IsTrueColor(cmap, f.length)
    ensures (forall pixel: word :: GetColor(pixel, f, cmap) == V.Shifted(pixel, V.Channel(f.offset, f.length)))
            <==> Matches(f)
    ensures f.offset + f.length <= 32 ==> (Matches(f) <==> f.length == 8)
  {
    GapAttained(f);
    if Matches(f) {
      forall pixel: word
        ensures GetColor(pixel, f, cmap) == V.Shifted(pixel, V.Channel(f.offset, f.length))
      {
        FieldBelow(pixel, f);
        ValueLaw(pixel, f, cmap);
      }
    } else {
      var pixel := PixelOf(FirstGap(f.length), f);
      ValueLaw(pixel, f, cmap);
    }
  }

  // ---------------------------------------------------------------- pixels

  /** Shown from the first pixel on, with no gap behind a line that another follows. */
  predicate Contiguous(info: VarInfo, line: nat) {
    info.xoffset == 0 && info.yoffset == 0 && (info.yres == 1 || line == info.xres * BytesPerPixel(info))
  }

  lemma ContiguousPixel(info: VarInfo, line: nat, x: nat, y: nat)
    requires Contiguous(info, line) && y < info.yres
    ensures PixelAt(info, line, x, y) == (y * info.xres + x) * BytesPerPixel(info)
  {
    MulAssoc(y, info.xres, BytesPerPixel(info));
    MulDistrib(y * info.xres, x, BytesPerPixel(info));
  }

  predicate Is565(info: VarInfo) {
    info.bpp == 16 && info.red == BitField(11, 5) && info.green == BitField(5, 6) && info.blue == BitField(0, 5)
  }

  predicate Is888(info: VarInfo) {
    info.bpp == 24 && info.red == BitField(16, 8) && info.green == BitField(8, 8) && info.blue == BitField(0, 8)
  }

  lemma Pow2Offsets()
    ensures Pow2(0) == 1 && Pow2(5) == 0x20 && Pow2(6) == 0x40 && Pow2(8) == 0x100
    ensures Pow2(11) == 0x800 && Pow2(16) == 0x1_0000
  {
    assert Pow2(4) == 16;
    assert Pow2(8) == 256;
    assert Pow2(12) == 4096;
  }

  /** A 16-bit pixel decodes to its table entry. */
  lemma Colors565(info: VarInfo, cmap: Colormap, pixel: nat)
    requires Is565(info) && TrueColorMaps(info, cmap) && pixel < 0x1_0000
    ensures Colors(info.red, info.green, info.blue, cmap, pixel) == V.Entry565(pixel)
  {
    Pow2Offsets();
    Channel5(pixel, info.red, cmap.red);
    Channel6(pixel, info.green, cmap.green);
    Channel5(pixel, info.blue, cmap.blue);
    assert pixel / 0x800 % 0x20 == Field(pixel, info.red);
  }

  lemma LowByte(p: nat, low: nat, high: nat)
    requires low < 0x100 && p == low + 0x100 * high
    ensures p / 0x100 == high && p % 0x100 == low
  {
    DivModUnique(p, 0x100, high, low);
  }

  lemma DivideTwice(p: nat)
    ensures p / 0x1_0000 == p / 0x100 / 0x100
  {
    var high := p / 0x100;
    DivModUnique(p, 0x1_0000, high / 0x100, high % 0x100 * 0x100 + p % 0x100);
  }

  lemma BytesOfWord32(b0: byte, b1: byte, b2: byte, b3: byte)
    ensures var pixel := Word32(b0, b1, b2, b3);
            pixel / 0x1_0000 % 0x100 == b2 && pixel / 0x100 % 0x100 == b1 && pixel / 1 % 0x100 == b0
  {
    var pixel, upper, top := Word32(b0, b1, b2, b3), b1 + 0x100 * b2 + 0x1_0000 * b3, b2 + 0x100 * b3;
    LowByte(pixel, b0, upper);
    LowByte(upper, b1, top);
    LowByte(top, b2, b3);
    DivideTwice(pixel);
  }

  /** Eight-bit channels at 16, 8 and 0 are the low three bytes of a pixel, from the top. */
  lemma ColorBytes(info: VarInfo, cmap: Colormap, pixel: nat)
    requires info.red == BitField(16, 8) && info.green == BitField(8, 8) && info.blue == BitField(0, 8)
    requires TrueColorMaps(info, cmap)
    ensures Colors(info.red, info.green, info.blue, cmap, pixel) ==
            [pixel / 0x1_0000 % 0x100, pixel / 0x100 % 0x100, pixel / 1 % 0x100]
  {
    Pow2Offsets();
    Channel8(pixel, info.red, cmap.red);
    Channel8(pixel, info.green, cmap.green);
    Channel8(pixel, info.blue, cmap.blue);
  }

  /** A 24-bit pixel decodes to its bytes in the opposite order. */
  lemma Colors888(info: VarInfo, cmap: Colormap, mem: seq<byte>, at: nat)
    requires info.red == BitField(16, 8) && info.green == BitField(8, 8) && info.blue == BitField(0, 8)
    requires TrueColorMaps(info, cmap) && at + 3 <= |mem|
    ensures Colors(info.red, info.green, info.blue, cmap, Load(mem, at, 3)) == [mem[at + 2], mem[at + 1], mem[at]]
  {
    LoadHalf(mem, at + 1);
    var pixel := Load(mem, at, 3);
    assert pixel == Word32(mem[at], mem[at + 1], mem[at + 2], 0);
    BytesOfWord32(mem[at], mem[at + 1], mem[at + 2], 0);
    ColorBytes(info, cmap, pixel);
  }

  lemma Colors32(info: VarInfo, cmap: Colormap, pixel: word)
    requires FieldsFit(info) && TrueColorMaps(info, cmap)
    requires Matches(info.red) && Matches(info.green) && Matches(info.blue)
    ensures Colors(info.red, info.green, info.blue, cmap, pixel) == V.Triple32(pixel, Channels(info))
  {
    ShiftAgreesExactly(info.red, cmap.red);
    ShiftAgreesExactly(info.green, cmap.green);
    ShiftAgreesExactly(info.blue, cmap.blue);
  }

  /** The formats on which the two decoders agree. */
  predicate SharedFormat(info: VarInfo)
    requires FieldsFit(info)
  {
    || Is565(info)
    || Is888(info)
    || (info.bpp == 32 && Matches(info.red) && Matches(info.green) && Matches(info.blue))
  }

  // ---------------------------------------------------------------- frames

  /** A frame of a shared format with contiguous lines, and a colormap that fbcat makes for it. */
  predicate Comparable(mem: seq<byte>, info: VarInfo, cmap: Colormap, line: nat) {
    && Readable(|mem|, info, line) && FieldsFit(info) && TrueColorMaps(info, cmap)
    && SharedFormat(info) && Contiguous(info, line)
  }

  /** The formats that fbview knows. */
  predicate Known(info: VarInfo) {
    Is565(info) || Is888(info) || info.bpp == 32
  }

  function FormatFor(info: VarInfo): (f: V.Format)
    requires FieldsFit(info) && Known(info)
    ensures f == V.FormatOf(info.bpp, Channels(info))
    ensures !f.Unknown? && V.Shiftable(f, Channels(info)) && V.Width(f) == BytesPerPixel(info)
  {
    V.FormatOf(info.bpp, Channels(info))
  }

  /** A pixel gets the same three bytes from both programs. */
  lemma SamePixel(mem: seq<byte>, info: VarInfo, cmap: Colormap, line: nat, x: nat, y: nat, k: nat)
    requires Comparable(mem, info, cmap, line) && x < info.xres && y < info.yres && k == y * info.xres + x
    ensures var at := k * BytesPerPixel(info);
            && 0 <= at && at + BytesPerPixel(info) <= |mem|
            && Triple(mem, info, cmap, line, x, y) == V.ViewTriple(FormatFor(info), Channels(info), mem, at)
  {
    PixelInside(|mem|, info, line, x, y);
    ContiguousPixel(info, line, x, y);
    var at, f := PixelAt(info, line, x, y), FormatFor(info);
    if f.Table? {
      Colors565(info, cmap, Load(mem, at, 2));
    } else if f.Slices? {
      Colors888(info, cmap, mem, at);
    } else {
      LoadWord(mem, at);
      Colors32(info, cmap, Load(mem, at, 4));
    }
  }

  /** Images that agree pixel by pixel are the same. */
  lemma SameTriples(a: seq<byte>, b: seq<byte>, n: nat)
    requires |a| == |b| == 3 * n
    requires forall k | 0 <= k < n :: a[3 * k..3 * k + 3] == b[3 * k..3 * k + 3]
    ensures a == b
  {
    forall i | 0 <= i < |a|
      ensures a[i] == b[i]
    {
      var k, j := i / 3, i % 3;
      assert a[3 * k..3 * k + 3][j] == b[3 * k..3 * k + 3][j];
    }
  }

  /** The k-th pixel is in column k mod xres of row k div xres. */
  lemma Place(k: nat, xres: nat, yres: nat) returns (x: nat, y: nat)
    requires k < xres * yres
    ensures x < xres && y < yres && k == y * xres + x && 3 * k == y * (3 * xres) + 3 * x
  {
    if xres == 0 {
      assert false;
    }
    x, y := k % xres, k / xres;
    assert k == y * xres + x;
    if yres <= y {
      MulMono(yres, y, xres);
    }
    MulAssoc(3, y, xres);
    MulAssoc(y, 3, xres);
  }

  lemma BodyAt(mem: seq<byte>, info: VarInfo, cmap: Colormap, line: nat, x: nat, y: nat, k: nat)
    requires Readable(|mem|, info, line) && FieldsFit(info) && IsColormap(cmap) && x < info.xres && y < info.yres
    requires 3 * k == y * (3 * info.xres) + 3 * x
    ensures 3 * k + 3 <= |Body(mem, info, cmap, line, info.yres)|
    ensures Body(mem, info, cmap, line, info.yres)[3 * k..3 * k + 3] == Triple(mem, info, cmap, line, x, y)
  {
    ImagePixel(mem, info, cmap, line, x, y);
  }

  /** The k-th pixel is the same in both images. */
  lemma SameInBoth(mem: seq<byte>, info: VarInfo, cmap: Colormap, line: nat, n: nat, k: nat)
    requires Comparable(mem, info, cmap, line) && k < n == info.xres * info.yres && n * BytesPerPixel(info) <= |mem|
    ensures 3 * k + 3 <= |Body(mem, info, cmap, line, info.yres)|
    ensures V.ViewBody(FormatFor(info), Channels(info), mem, n)[3 * k..3 * k + 3] ==
            Body(mem, info, cmap, line, info.yres)[3 * k..3 * k + 3]
  {
    var x, y := Place(k, info.xres, info.yres);
    V.ViewAt(FormatFor(info), Channels(info), mem, n, k);
    BodyAt(mem, info, cmap, line, x, y, k);
    SamePixel(mem, info, cmap, line, x, y, k);
  }

  lemma FrameFits(size: nat, info: VarInfo, line: nat)
    requires Readable(size, info, line)
    ensures 0 <= info.xres * info.yres && info.xres * info.yres * BytesPerPixel(info) <= size
    ensures info.yres * (3 * info.xres) == 3 * (info.xres * info.yres)
  {
    var n := BytesPerPixel(info);
    MulMono(0, info.xres, info.yres);
    MulMono(info.xres, info.xoffset + info.xres, n);
    MulMono(info.xres * n, line, info.yres);
    MulMono(info.yres, info.yoffset + info.yres, line);
    MulAssoc(info.yres, info.xres, n);
    MulAssoc(info.yres, 3, info.xres);
    MulAssoc(3, info.yres, info.xres);
  }

  /** Both programs produce the same image of a frame. */
  predicate Agree(mem: seq<byte>, info: VarInfo, cmap: Colormap, line: nat)
    requires Readable(|mem|, info, line) && FieldsFit(info) && IsColormap(cmap)
  {
    FrameFits(|mem|, info, line);
    V.Converted(info.bpp, Channels(info), mem, info.xres * info.yres) == Ok(Body(mem, info, cmap, line, info.yres))
  }

  /** Every frame of every size with contiguous lines: the two images are the same, byte for byte. */
  lemma DecodersAgree(mem: seq<byte>, info: VarInfo, cmap: Colormap, line: nat)
    requires Comparable(mem, info, cmap, line)
    ensures Agree(mem, info, cmap, line)
  {
    FrameFits(|mem|, info, line);
    var n: nat := info.xres * info.yres;
    var view := V.ViewBody(FormatFor(info), Channels(info), mem, n);
    var body := Body(mem, info, cmap, line, info.yres);
    forall k | 0 <= k < n
      ensures view[3 * k..3 * k + 3] == body[3 * k..3 * k + 3]
    {
      SameInBoth(mem, info, cmap, line, n, k);
    }
    SameTriples(view, body, n);
  }
}
