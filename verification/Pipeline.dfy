/** End to end: what one program draws, the driver reports and the other programs decode. */
module Pipeline {
  import opened Bytes
  import opened FbStr
  import opened Pictures
  import C = FbCat
  import P = FbCatProperties
  import V = FbView
  import D = Decoders
  import F = DummyFb
  import R = Rgb565
  import L = Lcd
  import B = FbRectangle

  // ---------------------------------------------------------------- the shared screen

  /** A 16-bit screen as the driver describes it: no offsets, contiguous lines. */
  function Info(xres: nat, yres: nat): C.VarInfo {
    C.VarInfo(xres, yres, 0, 0, 16, C.BitField(11, 5), C.BitField(5, 6), C.BitField(0, 5))
  }

  predicate IsFrame(xres: nat, yres: nat, mem: seq<byte>) {
    |mem| == yres * (xres * 2)
  }

  /** The pixels of the frame. */
  function Shot(xres: nat, yres: nat, mem: seq<byte>): (pic: Picture)
    requires IsFrame(xres, yres, mem)
    ensures IsPicture(xres, yres, pic)
  {
    Rows(mem, xres * 2, 2, xres, yres)
  }

  lemma FrameReadable(xres: nat, yres: nat, mem: seq<byte>)
    requires IsFrame(xres, yres, mem)
    ensures C.Readable(|mem|, Info(xres, yres), xres * 2) && C.FieldsFit(Info(xres, yres))
    ensures D.Contiguous(Info(xres, yres), xres * 2) && D.Is565(Info(xres, yres))
  {
  }

  /** The image that fbcat makes of the frame. */
  function Image(xres: nat, yres: nat, cmap: C.Colormap, mem: seq<byte>): seq<byte>
    requires IsFrame(xres, yres, mem) && C.IsColormap(cmap)
  {
    FrameReadable(xres, yres, mem);
    C.Body(mem, Info(xres, yres), cmap, xres * 2, yres)
  }

  /** The colour that the two bytes of a pixel stand for. */
  function ColorOf(pixel: seq<byte>): seq<byte>
    requires |pixel| == 2
  {
    V.Entry565(Load(pixel, 0, 2))
  }

  /** What is seen of a colour after packing and decoding. */
  function Seen(color: word): (r: seq<byte>)
    ensures |r| == 3
  {
    V.Entry565(Pack565(color))
  }

  /** White and black come back exactly, every other colour nearly. */
  lemma SeenIsNear(color: word)
    ensures R.Near(Seen(color), Red(color), Green(color), Blue(color))
    ensures color == 0xFF_FFFF ==> Seen(color) == [255, 255, 255]
    ensures color == 0 ==> Seen(color) == [0, 0, 0]
  {
    R.EncodeDecode(color);
    R.ExtremesKept(color);
  }

  lemma InkColor(color: word)
    ensures |Encode(16, color)| == 2 && ColorOf(Encode(16, color)) == Seen(color)
  {
    StoreLoadRoundTrip(Pack565(color), 0);
  }

  /** A pixel of the image is the colour of the pixel of the frame. */
  lemma ImageAt(xres: nat, yres: nat, cmap: C.Colormap, mem: seq<byte>, x: nat, y: nat)
    requires IsFrame(xres, yres, mem) && D.TrueColorMaps(Info(xres, yres), cmap) && x < xres && y < yres
    ensures var at, image := y * (3 * xres) + 3 * x, Image(xres, yres, cmap, mem);
            && 0 <= at && at + 3 <= |image|
            && |Shot(xres, yres, mem)[y][x]| == 2
            && image[at..at + 3] == ColorOf(Shot(xres, yres, mem)[y][x])
  {
    var info, line := Info(xres, yres), xres * 2;
    FrameReadable(xres, yres, mem);
    P.ImagePixel(mem, info, cmap, line, x, y);
    FrameTriple(xres, yres, cmap, mem, x, y);
  }

  lemma FrameTriple(xres: nat, yres: nat, cmap: C.Colormap, mem: seq<byte>, x: nat, y: nat)
    requires IsFrame(xres, yres, mem) && D.TrueColorMaps(Info(xres, yres), cmap) && x < xres && y < yres
    requires C.Readable(|mem|, Info(xres, yres), xres * 2) && C.FieldsFit(Info(xres, yres))
    ensures |Shot(xres, yres, mem)[y][x]| == 2
    ensures C.Triple(mem, Info(xres, yres), cmap, xres * 2, x, y) == ColorOf(Shot(xres, yres, mem)[y][x])
  {
    var info, line := Info(xres, yres), xres * 2;
    PixelOfRows(mem, line, 2, xres, yres, x, y);
    C.PixelInside(|mem|, info, line, x, y);
    var at := C.PixelAt(info, line, x, y);
    assert at == y * line + x * 2;
    LoadWindow(mem, at, at + 2, at, 2);
    D.Colors565(info, cmap, Load(mem, at, 2));
  }

  // ---------------------------------------------------------------- text

  /** After a string drawn from any safe start, the image shows at every pixel the ink of the last glyph that covers
      it, and elsewhere what the image of the frame before showed. */
  lemma TextDecodes(font: seq<byte>, color: word, xres: nat, yres: nat, cmap: C.Colormap, mem: seq<byte>,
                    mem': seq<byte>, draws: seq<Draw>, x: nat, y: nat)
    requires |font| == FONT_SIZE && D.TrueColorMaps(Info(xres, yres), cmap) && x < xres && y < yres
    requires IsFrame(xres, yres, mem) && IsFrame(xres, yres, mem') && AllFit(xres, yres, draws)
    requires Shot(xres, yres, mem') == L.Drawing(font, 16, color, xres, yres, Shot(xres, yres, mem), draws)
    ensures var at, was, now := y * (3 * xres) + 3 * x, Image(xres, yres, cmap, mem), Image(xres, yres, cmap, mem');
            var before := Shot(xres, yres, mem)[y][x];
            && 0 <= at && at + 3 <= |was| && at + 3 <= |now|
            && |before| == |Shown(font, 16, color, draws, x, y, before)| == 2
            && was[at..at + 3] == ColorOf(before)
            && now[at..at + 3] == ColorOf(Shown(font, 16, color, draws, x, y, before))
  {
    ImageAt(xres, yres, cmap, mem, x, y);
    ImageAt(xres, yres, cmap, mem', x, y);
    L.DrawingShows(font, 16, color, xres, yres, Shot(xres, yres, mem), draws, x, y);
  }

  /** Character `k` of the text is the last one that the grid puts into the cell of pixel (x, y). */
  predicate LastInCell(xres: nat, count: nat, k: nat, x: nat, y: nat)
    requires 16 < xres
  {
    k < count && InCellOf(xres, k, x, y) && forall j | k < j < count :: !InCellOf(xres, j, x, y)
  }

  predicate NoneInCell(xres: nat, count: nat, x: nat, y: nat)
    requires 16 < xres
  {
    forall j | 0 <= j < count :: !InCellOf(xres, j, x, y)
  }

  /** What an image shows of a text drawn from the origin over an older image, at one pixel. */
  predicate ShowsText(font: seq<byte>, color: word, xres: nat, chars: seq<byte>, was: seq<byte>, now: seq<byte>,
                      x: nat, y: nat)
    requires |font| == FONT_SIZE && 16 < xres
  {
    var at := y * (3 * xres) + 3 * x;
    && 0 <= at && at + 3 <= |was| && at + 3 <= |now|
    && (forall k | 0 <= k < |chars| && LastInCell(xres, |chars|, k, x, y) ::
          now[at..at + 3] == if Lit(font, chars[k], x % 8, y % 16) then Seen(color) else [0, 0, 0])
    && (NoneInCell(xres, |chars|, x, y) ==> now[at..at + 3] == was[at..at + 3])
  }

  /** The colour of a pixel that shows a text drawn from the origin. */
  lemma GridColor(font: seq<byte>, color: word, xres: nat, text: seq<byte>, x: nat, y: nat, before: seq<byte>)
    requires |font| == FONT_SIZE && 16 < xres < WORD && |before| == 2
    ensures var chars, after := Chars(text), Shown(font, 16, color, Layout(xres, Cursor(0, 0, 0), text), x, y, before);
            && (forall k | 0 <= k < |chars| && LastInCell(xres, |chars|, k, x, y) ::
                  && |after| == 2
                  && ColorOf(after) == if Lit(font, chars[k], x % 8, y % 16) then Seen(color) else [0, 0, 0])
            && (NoneInCell(xres, |chars|, x, y) ==> after == before)
  {
    var chars, after := Chars(text), Shown(font, 16, color, Layout(xres, Cursor(0, 0, 0), text), x, y, before);
    GridShows(font, 16, color, xres, text, x, y, before);
    forall k | 0 <= k < |chars| && LastInCell(xres, |chars|, k, x, y)
      ensures |after| == 2 && ColorOf(after) == if Lit(font, chars[k], x % 8, y % 16) then Seen(color) else [0, 0, 0]
    {
      var ink := if Lit(font, chars[k], x % 8, y % 16) then color else 0;
      InkColor(ink);
      SeenIsNear(ink);
    }
  }

  /** A text drawn from the origin: inside a cell, the last character there in its colour on black; outside the cells,
      the older image. */
  lemma GridDecodes(font: seq<byte>, color: word, xres: nat, yres: nat, cmap: C.Colormap, mem: seq<byte>,
                    mem': seq<byte>, text: seq<byte>, x: nat, y: nat)
    requires |font| == FONT_SIZE && D.TrueColorMaps(Info(xres, yres), cmap) && x < xres && y < yres
    requires 16 < xres < WORD && IsFrame(xres, yres, mem) && IsFrame(xres, yres, mem')
    requires AllFit(xres, yres, Layout(xres, Cursor(0, 0, 0), text))
    requires Shot(xres, yres, mem') ==
             L.Drawing(font, 16, color, xres, yres, Shot(xres, yres, mem), Layout(xres, Cursor(0, 0, 0), text))
    ensures ShowsText(font, color, xres, Chars(text), Image(xres, yres, cmap, mem), Image(xres, yres, cmap, mem'), x, y)
  {
    TextDecodes(font, color, xres, yres, cmap, mem, mem', Layout(xres, Cursor(0, 0, 0), text), x, y);
    GridColor(font, color, xres, text, x, y, Shot(xres, yres, mem)[y][x]);
  }

  lemma ScreenIsFrame(s: L.Screen)
    requires s.Valid() && s.bpp == 16
    ensures s.lineWidth == s.xres * 2 && s.pixelWidth == 2 && IsFrame(s.xres, s.yres, s.fb[..])
    ensures s.Picture() == Shot(s.xres, s.yres, s.fb[..])
  {
  }

  /** Draws a string in the upper left corner of a 16-bit screen and takes the screenshot: for every pixel, it shows
      the text over what the screen showed before. */
  method DrawAndDump(s: L.Screen, color: word, str: seq<byte>, cmap: C.Colormap) returns (image: seq<byte>)
    requires s.Valid() && s.bpp == 16 && 0 in str && 16 < s.xres && 64 <= s.yres
    requires D.TrueColorMaps(Info(s.xres, s.yres), cmap)
    modifies s.fb
    ensures IsFrame(s.xres, s.yres, old(s.fb[..])) && IsFrame(s.xres, s.yres, s.fb[..])
    ensures image == Image(s.xres, s.yres, cmap, s.fb[..])
    ensures CText(Text(str)) && Text(str) <= str
    ensures var chars := Chars(Text(str)); chars != [] && chars[|chars| - 1] == 0
    ensures forall x, y | 0 <= x < s.xres && 0 <= y < s.yres ::
              ShowsText(s.font, color, s.xres, Chars(Text(str)), Image(s.xres, s.yres, cmap, old(s.fb[..])), image,
                        x, y)
  {
    ScreenIsFrame(s);
    ghost var mem := s.fb[..];
    TextIsCString(str);
    TerminatorDrawn(str);
    SafeDraws(s.xres, s.yres, Cursor(0, 0, 0), Text(str));
    s.LcdPutString(0, 0, color, str);
    ScreenIsFrame(s);
    ghost var mem' := s.fb[..];
    FrameReadable(s.xres, s.yres, mem');
    image := C.DumpVideoMemory(s.fb[..], Info(s.xres, s.yres), cmap, s.xres * 2);
    forall x, y | 0 <= x < s.xres && 0 <= y < s.yres
      ensures ShowsText(s.font, color, s.xres, Chars(Text(str)), Image(s.xres, s.yres, cmap, mem), image, x, y)
    {
      GridDecodes(s.font, color, s.xres, s.yres, cmap, mem, mem', Text(str), x, y);
    }
  }

  /** The other decoder makes the same image. */
  lemma BothDecode(xres: nat, yres: nat, cmap: C.Colormap, mem: seq<byte>)
    requires IsFrame(xres, yres, mem) && D.TrueColorMaps(Info(xres, yres), cmap)
    ensures D.Channels(Info(xres, yres)) == V.RGB565
    ensures V.Converted(16, V.RGB565, mem, xres * yres) == Ok(Image(xres, yres, cmap, mem))
  {
    FrameReadable(xres, yres, mem);
    assert D.Channels(Info(xres, yres)) == V.RGB565;
    D.DecodersAgree(mem, Info(xres, yres), cmap, xres * 2);
    assert D.Agree(mem, Info(xres, yres), cmap, xres * 2);
  }

  // ---------------------------------------------------------------- rectangles

  /** A screen with eight bits for each channel, in three or four bytes, as fbcat is told of it. */
  function InfoOf(info: B.Info): C.VarInfo {
    C.VarInfo(info.xres, info.yres, 0, 0, info.bpp, C.BitField(16, 8), C.BitField(8, 8), C.BitField(0, 8))
  }

  predicate IsDeepFrame(info: B.Info, mem: seq<byte>) {
    && B.Supported(info) && info.bpp != 16
    && |mem| == info.xres * info.yres * info.bpp / 8
  }

  lemma DeepReadable(info: B.Info, mem: seq<byte>)
    requires IsDeepFrame(info, mem)
    ensures C.Readable(|mem|, InfoOf(info), B.Line(info)) && C.FieldsFit(InfoOf(info))
    ensures C.BytesPerPixel(InfoOf(info)) == B.Step(info)
  {
    B.LineIsPixels(info);
  }

  /** The image that fbcat makes of the frame. */
  function DeepImage(info: B.Info, cmap: C.Colormap, mem: seq<byte>): seq<byte>
    requires IsDeepFrame(info, mem) && C.IsColormap(cmap)
  {
    DeepReadable(info, mem);
    C.Body(mem, InfoOf(info), cmap, B.Line(info), info.yres)
  }

  /** The low three bytes of a pixel, in the opposite order. */
  lemma DeepColors(info: B.Info, cmap: C.Colormap, mem: seq<byte>, at: nat)
    requires B.Supported(info) && info.bpp != 16 && D.TrueColorMaps(InfoOf(info), cmap) && at + B.Step(info) <= |mem|
    ensures C.Colors(C.BitField(16, 8), C.BitField(8, 8), C.BitField(0, 8), cmap, Load(mem, at, B.Step(info))) ==
            [mem[at + 2], mem[at + 1], mem[at]]
  {
    var vinfo := InfoOf(info);
    if info.bpp == 24 {
      D.Colors888(vinfo, cmap, mem, at);
    } else {
      LoadWord(mem, at);
      D.BytesOfWord32(mem[at], mem[at + 1], mem[at + 2], mem[at + 3]);
      D.ColorBytes(vinfo, cmap, Load(mem, at, 4));
    }
  }

  lemma DeepTriple(info: B.Info, cmap: C.Colormap, mem: seq<byte>, x: nat, y: nat, at: nat)
    requires IsDeepFrame(info, mem) && D.TrueColorMaps(InfoOf(info), cmap) && x < info.xres && y < info.yres
    requires C.Readable(|mem|, InfoOf(info), B.Line(info)) && C.FieldsFit(InfoOf(info))
    requires at == B.ByteAt(info, x, y) && at + B.Step(info) <= |mem| && 3 <= B.Step(info)
    ensures C.Triple(mem, InfoOf(info), cmap, B.Line(info), x, y) == [mem[at + 2], mem[at + 1], mem[at]]
  {
    C.PixelInside(|mem|, InfoOf(info), B.Line(info), x, y);
    assert C.PixelAt(InfoOf(info), B.Line(info), x, y) == at;
    DeepColors(info, cmap, mem, at);
  }

  lemma DeepImageAt(info: B.Info, cmap: C.Colormap, mem: seq<byte>, x: nat, y: nat)
    requires IsDeepFrame(info, mem) && D.TrueColorMaps(InfoOf(info), cmap) && x < info.xres && y < info.yres
    ensures var at, image, v := y * (3 * info.xres) + 3 * x, DeepImage(info, cmap, mem), B.Screen(info, mem)[y][x];
            && 0 <= at && at + 3 <= |image| && |v| == B.Step(info) >= 3
            && image[at..at + 3] == [v[2], v[1], v[0]]
  {
    DeepReadable(info, mem);
    B.PixelOnScreen(info, mem, x, y);
    P.ImagePixel(mem, InfoOf(info), cmap, B.Line(info), x, y);
    DeepTriple(info, cmap, mem, x, y, B.ByteAt(info, x, y));
  }

  /** After any rectangles at 24 or 32 bits, the image shows the colour of the last rectangle over a pixel, and
      elsewhere what the image before showed. */
  lemma RectanglesDecode(info: B.Info, cmap: C.Colormap, mem: seq<byte>, mem': seq<byte>, ds: seq<B.Paint>,
                         x: nat, y: nat, k: int)
    requires IsDeepFrame(info, mem) && IsDeepFrame(info, mem') && D.TrueColorMaps(InfoOf(info), cmap)
    requires x < info.xres && y < info.yres && forall j | 0 <= j < |ds| :: B.Fits(info, ds[j])
    requires B.Screen(info, mem') == B.Scene(info, B.Screen(info, mem), ds)
    requires -1 <= k < |ds| && (0 <= k ==> B.InBand(info, ds[k], B.Height(info), x, y))
    requires forall j | k < j < |ds| :: !B.InBand(info, ds[j], B.Height(info), x, y)
    ensures var at, was, now := y * (3 * info.xres) + 3 * x, DeepImage(info, cmap, mem), DeepImage(info, cmap, mem');
            && 0 <= at && at + 3 <= |was| && at + 3 <= |now|
            && now[at..at + 3] == if k == -1 then was[at..at + 3] else [ds[k].r, ds[k].g, ds[k].b]
  {
    DeepImageAt(info, cmap, mem, x, y);
    DeepImageAt(info, cmap, mem', x, y);
    B.SceneAt(info, B.Screen(info, mem), ds, x, y);
    B.LastCovers(info, ds, x, y, B.Screen(info, mem)[y][x], k);
  }

  lemma NarrowScreen(info: B.Info, mem: seq<byte>)
    requires B.Supported(info) && info.bpp == 16 && IsFrame(info.xres, info.yres, mem)
    ensures |mem| == info.xres * info.yres * info.bpp / 8
    ensures B.Screen(info, mem) == Shot(info.xres, info.yres, mem)
  {
    B.LineIsPixels(info);
  }

  /** After any rectangles at 16 bits, the last one that hits a pixel decides what the image shows there: where it
      covers the pixel, not its colour but that of the word of its blue and green bytes; one pixel behind it, that of
      its red byte below the high byte of before. */
  lemma NarrowRectanglesDecode(info: B.Info, cmap: C.Colormap, mem: seq<byte>, mem': seq<byte>, ds: seq<B.Paint>,
                               x: nat, y: nat, k: int)
    requires B.Supported(info) && info.bpp == 16 && D.TrueColorMaps(Info(info.xres, info.yres), cmap)
    requires IsFrame(info.xres, info.yres, mem) && IsFrame(info.xres, info.yres, mem')
    requires |mem| == |mem'| == info.xres * info.yres * info.bpp / 8
    requires x < info.xres && y < info.yres && forall j | 0 <= j < |ds| :: B.Fits(info, ds[j])
    requires B.Screen(info, mem') == B.Scene(info, B.Screen(info, mem), ds)
    requires -1 <= k < |ds| && (0 <= k ==> B.Hits(info, ds[k], x, y))
    requires forall j | k < j < |ds| :: !B.Hits(info, ds[j], x, y)
    ensures var at, before := y * (3 * info.xres) + 3 * x, Shot(info.xres, info.yres, mem)[y][x];
            var was := Image(info.xres, info.yres, cmap, mem);
            var now := Image(info.xres, info.yres, cmap, mem');
            && 0 <= at && at + 3 <= |was| && at + 3 <= |now| && |before| == 2
            && now[at..at + 3] ==
               if k == -1 then was[at..at + 3]
               else if B.InBand(info, ds[k], B.Height(info), x, y) then V.Entry565(Word16(ds[k].b, ds[k].g))
               else V.Entry565(Word16(ds[k].r, B.Repainted(info, ds[..k], x, y, before)[1]))
  {
    var before := Shot(info.xres, info.yres, mem)[y][x];
    ImageAt(info.xres, info.yres, cmap, mem, x, y);
    ImageAt(info.xres, info.yres, cmap, mem', x, y);
    NarrowScreen(info, mem);
    NarrowScreen(info, mem');
    B.SceneAt(info, B.Screen(info, mem), ds, x, y);
    B.LastHits(info, ds, x, y, before, k);
    LoadHalf(B.Repainted(info, ds, x, y, before), 0);
  }

  // ---------------------------------------------------------------- the flush

  /** The pages include every page with a byte that changed. */
  predicate Lists(g: F.Geometry, offsets: seq<nat>, mem: seq<byte>, mem': seq<byte>)
    requires |mem| == |mem'| == F.Size(g)
  {
    forall at: nat | 0 <= at < |mem| && mem[at] != mem'[at] ::
      exists k | 0 <= k < |offsets| :: F.InPage(g, offsets[k], at)
  }

  /** Whatever was stored, every pixel that changed lies in the rectangle that is reported for the changed pages. */
  lemma FlushCovers(g: F.Geometry, width: nat, mem: seq<byte>, mem': seq<byte>, offsets: seq<nat>, a: F.Area,
                    x: nat, y: nat)
    requires F.IsScreen(g) && g.xres * width <= g.line && |mem| == |mem'| == F.Size(g)
    requires g.xres == 1 || (3 <= g.yres && 2 * g.line <= F.PAGE_SIZE)
    requires F.ArePages(g, offsets) && F.Reports(g, offsets, a) && Lists(g, offsets, mem, mem')
    requires x < g.xres && y < g.yres
    requires Rows(mem', g.line, width, g.xres, g.yres)[y][x] != Rows(mem, g.line, width, g.xres, g.yres)[y][x]
    ensures F.Inside(a, x, y)
  {
    var at := ByteChanged(g, width, mem, mem', x, y);
    var k :| 0 <= k < |offsets| && F.InPage(g, offsets[k], at);
    F.TouchedInside(g, width, offsets, a, k, x, y, at);
  }

  lemma ByteChanged(g: F.Geometry, width: nat, mem: seq<byte>, mem': seq<byte>, x: nat, y: nat) returns (at: nat)
    requires |mem| == |mem'| == F.Size(g) && g.xres * width <= g.line && x < g.xres && y < g.yres
    requires Rows(mem', g.line, width, g.xres, g.yres)[y][x] != Rows(mem, g.line, width, g.xres, g.yres)[y][x]
    ensures y * g.line + x * width <= at < y * g.line + x * width + width
    ensures at < |mem| && mem[at] != mem'[at]
  {
    PixelOfRows(mem, g.line, width, g.xres, g.yres, x, y);
    PixelOfRows(mem', g.line, width, g.xres, g.yres, x, y);
    var from: nat := y * g.line + x * width;
    at := FirstDifference(mem, mem', from, from + width);
  }

  lemma FirstDifference(mem: seq<byte>, mem': seq<byte>, lo: nat, hi: nat) returns (at: nat)
    requires lo <= hi <= |mem| == |mem'| && mem[lo..hi] != mem'[lo..hi]
    ensures lo <= at < hi && mem[at] != mem'[at]
  {
    assert exists i :: lo <= i < hi && mem[i] != mem'[i];
    at :| lo <= at < hi && mem[at] != mem'[at];
  }

  /** On the driver's screen: a string drawn from any safe start, and a flush of the pages that it changed. A pixel
      outside the reported rectangle keeps its value, for every string. */
  lemma TextIsFlushed(font: seq<byte>, color: word, mem: seq<byte>, mem': seq<byte>, draws: seq<Draw>,
                      offsets: seq<nat>, a: F.Area, x: nat, y: nat)
    requires |font| == FONT_SIZE && |mem| == |mem'| == F.Size(F.DRIVER) && AllFit(480, 320, draws)
    requires Shot(480, 320, mem') == L.Drawing(font, 16, color, 480, 320, Shot(480, 320, mem), draws)
    requires F.ArePages(F.DRIVER, offsets) && F.Reports(F.DRIVER, offsets, a) && Lists(F.DRIVER, offsets, mem, mem')
    requires x < 480 && y < 320 && !F.Inside(a, x, y)
    ensures Shown(font, 16, color, draws, x, y, Shot(480, 320, mem)[y][x]) == Shot(480, 320, mem)[y][x]
    ensures 0 <= a.x1 <= a.x2 == 479 && 0 <= a.y1 <= a.y2 <= 319
  {
    L.DrawingShows(font, 16, color, 480, 320, Shot(480, 320, mem), draws, x, y);
    if Shot(480, 320, mem')[y][x] != Shot(480, 320, mem)[y][x] {
      FlushCovers(F.DRIVER, 2, mem, mem', offsets, a, x, y);
    }
    F.FullWidthExactly(F.DRIVER);
    var m := F.Greatest(offsets);
    F.RowsExactly(F.DRIVER, offsets, a, m);
  }
}
