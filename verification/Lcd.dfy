/**
 The text writer at work: stores through the mapped framebuffer, one pixel, one glyph, one string at a time. Each
 method is proved to change the picture, the sequence of the screen's pixels, as a function on pictures says; what
 those functions leave at any pixel is proved apart.
*/
module Lcd {
  import opened Bytes
  import opened FbStr
  import opened Pictures

  // ---------------------------------------------------------------- glyphs

  /** The bytes of the 128 dots of a glyph, row by row and from the left. */
  function Glyph(font: seq<byte>, bpp: nat, color: word, c: byte): (r: seq<seq<byte>>)
    requires |font| == FONT_SIZE
    ensures |r| == 128
  {
    seq(128, i requires 0 <= i < 128 => Ink(font, bpp, color, c, i % 8, i / 8))
  }

  lemma GlyphDot(font: seq<byte>, bpp: nat, color: word, c: byte, row: nat, column: nat)
    requires |font| == FONT_SIZE && row < 16 && column < 8
    ensures var n := row * 8 + 7 - column;
            && n % 8 == 7 - column && n / 8 == row
            && Glyph(font, bpp, color, c)[n] ==
               Encode(bpp, if HasBit(font[c * 16 + row], column) then color else 0)
  {
    var n := row * 8 + 7 - column;
    assert n % 8 == 7 - column && n / 8 == row;
  }

  /** A picture with the dots `lo` to `hi` of a glyph drawn at (x, y). */
  function Dots(xres: nat, yres: nat, pic: Picture, x: int, y: int, glyph: seq<seq<byte>>, lo: nat, hi: nat)
    : (r: Picture)
    requires IsPicture(xres, yres, pic) && CellFits(xres, yres, x, y) && lo <= hi <= 128 == |glyph|
    ensures IsPicture(xres, yres, r)
  {
    if lo == hi then pic
    else
      var n := hi - 1;
      Dot(xres, yres, Dots(xres, yres, pic, x, y, glyph, lo, n), x + n % 8, y + n / 8, glyph[n])
  }

  /** A single dot. */
  lemma OneDot(font: seq<byte>, bpp: nat, color: word, xres: nat, yres: nat, pic: Picture, x: int, y: int, c: byte,
               row: nat, column: nat)
    requires |font| == FONT_SIZE && row < 16 && column < 8
    requires IsPicture(xres, yres, pic) && CellFits(xres, yres, x, y)
    ensures var n := row * 8 + 7 - column;
            Dots(xres, yres, pic, x, y, Glyph(font, bpp, color, c), n, n + 1) ==
            Dot(xres, yres, pic, x + 7 - column, y + row,
                Encode(bpp, if HasBit(font[c * 16 + row], column) then color else 0))
  {
    GlyphDot(font, bpp, color, c, row, column);
    var n, glyph := row * 8 + 7 - column, Glyph(font, bpp, color, c);
    assert Dots(xres, yres, pic, x, y, glyph, n, n) == pic;
  }

  lemma {:induction false} DotsCompose(xres: nat, yres: nat, pic: Picture, x: int, y: int, glyph: seq<seq<byte>>,
                                       lo: nat, mid: nat, hi: nat)
    requires IsPicture(xres, yres, pic) && CellFits(xres, yres, x, y) && lo <= mid <= hi <= 128 == |glyph|
    ensures Dots(xres, yres, Dots(xres, yres, pic, x, y, glyph, lo, mid), x, y, glyph, mid, hi) ==
            Dots(xres, yres, pic, x, y, glyph, lo, hi)
  {
    if mid == hi {
    } else {
      DotsCompose(xres, yres, pic, x, y, glyph, lo, mid, hi - 1);
    }
  }

  lemma {:induction false} DotsAt(xres: nat, yres: nat, pic: Picture, x: int, y: int, glyph: seq<seq<byte>>, n: nat,
                                  px: int, py: int)
    requires IsPicture(xres, yres, pic) && CellFits(xres, yres, x, y) && n <= 128 == |glyph|
    requires OnScreen(xres, yres, px, py)
    ensures var k := (py - y) * 8 + (px - x);
            Dots(xres, yres, pic, x, y, glyph, 0, n)[py][px] ==
            if Covers(x, y, px, py) && k < n then glyph[k] else pic[py][px]
  {
    if n == 0 {
    } else {
      DotsAt(xres, yres, pic, x, y, glyph, n - 1, px, py);
    }
  }

  /** The picture after some glyphs. */
  function Drawing(font: seq<byte>, bpp: nat, color: word, xres: nat, yres: nat, pic: Picture, draws: seq<Draw>)
    : (r: Picture)
    requires |font| == FONT_SIZE && IsPicture(xres, yres, pic) && AllFit(xres, yres, draws)
    ensures IsPicture(xres, yres, r)
  {
    if draws == [] then pic
    else
      var d := draws[|draws| - 1];
      Dots(xres, yres, Drawing(font, bpp, color, xres, yres, pic, draws[..|draws| - 1]), d.x, d.y,
           Glyph(font, bpp, color, d.c), 0, 128)
  }

  lemma DrawingGrows(font: seq<byte>, bpp: nat, color: word, xres: nat, yres: nat, pic: Picture, draws: seq<Draw>,
                     more: seq<Draw>)
    requires |font| == FONT_SIZE && IsPicture(xres, yres, pic) && AllFit(xres, yres, draws)
    requires |more| <= 1 && AllFit(xres, yres, more)
    ensures AllFit(xres, yres, draws + more)
    ensures Drawing(font, bpp, color, xres, yres, pic, draws + more) ==
            Drawing(font, bpp, color, xres, yres, Drawing(font, bpp, color, xres, yres, pic, draws), more)
  {
    if more == [] {
      assert draws + more == draws;
    } else {
      assert (draws + more)[..|draws|] == draws && more[..0] == [];
    }
  }

  /** Drawing one more byte of a text. */
  lemma TextGrows(font: seq<byte>, bpp: nat, color: word, xres: nat, yres: nat, pic: Picture, from: Cursor,
                  text: seq<byte>, c: byte)
    requires |font| == FONT_SIZE && IsPicture(xres, yres, pic) && AllFit(xres, yres, Layout(xres, from, text))
    requires AllFit(xres, yres, Drawn(After(xres, from, text), c))
    ensures After(xres, from, text + [c]) == Advance(xres, After(xres, from, text), c)
    ensures AllFit(xres, yres, Layout(xres, from, text + [c]))
    ensures Drawing(font, bpp, color, xres, yres, pic, Layout(xres, from, text + [c])) ==
            Drawing(font, bpp, color, xres, yres,
                    Drawing(font, bpp, color, xres, yres, pic, Layout(xres, from, text)),
                    Drawn(After(xres, from, text), c))
  {
    LayoutGrows(xres, from, text, c);
    DrawingGrows(font, bpp, color, xres, yres, pic, Layout(xres, from, text), Drawn(After(xres, from, text), c));
  }

  /** Every pixel after one glyph. */
  lemma GlyphShows(font: seq<byte>, bpp: nat, color: word, xres: nat, yres: nat, pic: Picture, d: Draw,
                   px: int, py: int)
    requires |font| == FONT_SIZE && IsPicture(xres, yres, pic) && CellFits(xres, yres, d.x, d.y)
    requires OnScreen(xres, yres, px, py)
    ensures Dots(xres, yres, pic, d.x, d.y, Glyph(font, bpp, color, d.c), 0, 128)[py][px] ==
            if Covers(d.x, d.y, px, py) then Ink(font, bpp, color, d.c, px - d.x, py - d.y) else pic[py][px]
  {
    DotsAt(xres, yres, pic, d.x, d.y, Glyph(font, bpp, color, d.c), 128, px, py);
    if Covers(d.x, d.y, px, py) {
      var dx, dy := px - d.x, py - d.y;
      assert (dy * 8 + dx) % 8 == dx && (dy * 8 + dx) / 8 == dy;
    }
  }

  /** Every pixel of a drawing: the ink of the last glyph that covers it, or its old value. */
  lemma {:induction false} DrawingShows(font: seq<byte>, bpp: nat, color: word, xres: nat, yres: nat, pic: Picture,
                                        draws: seq<Draw>, px: int, py: int)
    requires |font| == FONT_SIZE && IsPicture(xres, yres, pic) && AllFit(xres, yres, draws)
    requires OnScreen(xres, yres, px, py)
    ensures Drawing(font, bpp, color, xres, yres, pic, draws)[py][px] ==
            Shown(font, bpp, color, draws, px, py, pic[py][px])
  {
    if draws == [] {
    } else {
      var front := draws[..|draws| - 1];
      DrawingShows(font, bpp, color, xres, yres, pic, front, px, py);
      GlyphShows(font, bpp, color, xres, yres, Drawing(font, bpp, color, xres, yres, pic, front), draws[|draws| - 1],
                 px, py);
    }
  }

  // ---------------------------------------------------------------- the writer

  lemma BytesPerPixel(n: nat, bpp: nat)
    requires Supported(bpp)
    ensures n * bpp / 8 == n * (bpp / 8)
  {
  }

  class Screen {
    const font: seq<byte>
    const xres: nat
    const yres: nat
    const bpp: nat
    const lineWidth: nat
    const pixelWidth: nat
    const fb: array<byte>

    /** What main sets up from the geometry that the driver reports, with the mapping it obtains. */
    constructor (font: seq<byte>, xres: nat, yres: nat, bpp: nat, fb: array<byte>)
      requires |font| == FONT_SIZE && xres < WORD && yres < WORD
      requires fb.Length == xres * yres * bpp / 8
      ensures Valid() && this.font == font && this.xres == xres && this.yres == yres && this.bpp == bpp && this.fb == fb
    {
      this.font, this.xres, this.yres, this.bpp, this.fb := font, xres, yres, bpp, fb;
      lineWidth := xres * bpp / 8;
      pixelWidth := bpp / 8;
      if Supported(bpp) {
        BytesPerPixel(xres, bpp);
        BytesPerPixel(xres * yres, bpp);
        MulAssoc(yres, xres, bpp / 8);
      }
    }

    ghost predicate Valid() {
      && |font| == FONT_SIZE && xres < WORD && yres < WORD
      && pixelWidth == bpp / 8
      && (Supported(bpp) ==> lineWidth == xres * pixelWidth && fb.Length == yres * lineWidth)
    }

    ghost function Picture(): (r: Picture)
      reads fb
      requires Valid() && Supported(bpp)
      ensures IsPicture(xres, yres, r)
    {
      Rows(fb[..], lineWidth, pixelWidth, xres, yres)
    }

    method LcdPutPixel(x: int, y: int, color: word)
      requires Valid() && (Supported(bpp) ==> OnScreen(xres, yres, x, y))
      modifies fb
      ensures !Supported(bpp) ==> fb[..] == old(fb[..])
      ensures Supported(bpp) ==> Picture() == Dot(xres, yres, old(Picture()), x, y, Encode(bpp, color))
    {
      if Supported(bpp) {
        PixelPlace(lineWidth, pixelWidth, xres, yres, x, y);
      }
      var pen := y * lineWidth + x * pixelWidth;
      if bpp == 8 {
        fb[pen] := color % 0x100;
      } else if bpp == 16 {
        var v := Store16(Pack565(color));
        fb[pen], fb[pen + 1] := v[0], v[1];
      } else if bpp == 32 {
        var v := Store32(color);
        fb[pen], fb[pen + 1], fb[pen + 2], fb[pen + 3] := v[0], v[1], v[2], v[3];
      }
      if Supported(bpp) {
        assert Stored(old(fb[..]), fb[..], pen, Encode(bpp, color));
        StoreIsDot(old(fb[..]), fb[..], lineWidth, pixelWidth, xres, yres, x, y, Encode(bpp, color));
      }
    }

    /** One dot of a glyph: the colour where the font sets the bit, black elsewhere. */
    method LcdPutDot(x: int, y: int, color: word, c: byte, row: nat, column: nat)
      requires Valid() && (Supported(bpp) ==> CellFits(xres, yres, x, y)) && row < 16 && column < 8
      modifies fb
      ensures !Supported(bpp) ==> fb[..] == old(fb[..])
      ensures Supported(bpp) ==>
                var n := row * 8 + 7 - column;
                Picture() == Dots(xres, yres, old(Picture()), x, y, Glyph(font, bpp, color, c), n, n + 1)
    {
      if Supported(bpp) {
        OneDot(font, bpp, color, xres, yres, Picture(), x, y, c, row, column);
      }
      if HasBit(font[c * 16 + row], column) {
        LcdPutPixel(x + 7 - column, y + row, color);
      } else {
        LcdPutPixel(x + 7 - column, y + row, 0);
      }
    }

    /** The dots `lo` to `hi` of a glyph are drawn over what the memory was. */
    ghost predicate Dotted(was: seq<byte>, x: int, y: int, color: word, c: byte, lo: nat, hi: nat)
      reads fb
      requires Valid() && |was| == fb.Length && lo <= hi <= 128
    {
      if Supported(bpp) then
        && CellFits(xres, yres, x, y)
        && Picture() == Dots(xres, yres, Rows(was, lineWidth, pixelWidth, xres, yres), x, y,
                             Glyph(font, bpp, color, c), lo, hi)
      else fb[..] == was
    }

    /** One more dot of a row. */
    method LcdPutNextDot(x: int, y: int, color: word, c: byte, row: nat, column: nat, ghost was: seq<byte>)
      requires Valid() && |was| == fb.Length && row < 16 && column < 8
      requires Dotted(was, x, y, color, c, row * 8, row * 8 + 7 - column)
      modifies fb
      ensures Dotted(was, x, y, color, c, row * 8, row * 8 + 8 - column)
    {
      LcdPutDot(x, y, color, c, row, column);
      if Supported(bpp) {
        ghost var n, pic := row * 8 + 7 - column, Rows(was, lineWidth, pixelWidth, xres, yres);
        DotsCompose(xres, yres, pic, x, y, Glyph(font, bpp, color, c), row * 8, n, n + 1);
      }
    }

    /** One row of a glyph, its columns from the most significant bit down. */
    method LcdPutRow(x: int, y: int, color: word, c: byte, row: nat)
      requires Valid() && (Supported(bpp) ==> CellFits(xres, yres, x, y)) && row < 16
      modifies fb
      ensures Dotted(old(fb[..]), x, y, color, c, row * 8, row * 8 + 8)
    {
      ghost var was := fb[..];
      var column := 7;
      while column >= 0
        invariant -1 <= column <= 7
        invariant Dotted(was, x, y, color, c, row * 8, row * 8 + 7 - column)
      {
        LcdPutNextDot(x, y, color, c, row, column, was);
        column := column - 1;
      }
    }

    method LcdPutAscii(x: int, y: int, color: word, c: byte)
      requires Valid() && (Supported(bpp) ==> CellFits(xres, yres, x, y))
      modifies fb
      ensures !Supported(bpp) ==> fb[..] == old(fb[..])
      ensures Supported(bpp) ==>
                Picture() == Dots(xres, yres, old(Picture()), x, y, Glyph(font, bpp, color, c), 0, 128)
    {
      ghost var glyph := Glyph(font, bpp, color, c);
      var row := 0;
      while row < 16
        invariant 0 <= row <= 16
        invariant !Supported(bpp) ==> fb[..] == old(fb[..])
        invariant Supported(bpp) ==> Picture() == Dots(xres, yres, old(Picture()), x, y, glyph, 0, row * 8)
      {
        LcdPutRow(x, y, color, c, row);
        if Supported(bpp) {
          DotsCompose(xres, yres, old(Picture()), x, y, glyph, 0, row * 8, row * 8 + 8);
        }
        row := row + 1;
      }
    }

    /** The body of the loop in lcd_put_string. */
    method LcdPutNext(x0: int, y0: int, t0: nat, color: word, dots: byte) returns (x: int, y: int, tempIndex: nat)
      requires Valid() && (Supported(bpp) ==> AllFit(xres, yres, Drawn(Cursor(x0, y0, t0), dots)))
      modifies fb
      ensures Cursor(x, y, tempIndex) == Advance(xres, Cursor(x0, y0, t0), dots)
      ensures !Supported(bpp) ==> fb[..] == old(fb[..])
      ensures Supported(bpp) ==>
                Picture() == Drawing(font, bpp, color, xres, yres, old(Picture()), Drawn(Cursor(x0, y0, t0), dots))
    {
      x, y, tempIndex := x0, y0, t0;
      if Drawable(dots) {
        ghost var draws := Drawn(Cursor(x0, y0, t0), dots);
        assert draws[0] == Draw(x0 + t0 * 8, y0, dots) && draws[..0] == [];
        LcdPutAscii(x + tempIndex * 8, y, color, dots);
        tempIndex := tempIndex + 1;
      }
      if AtRightEdge(xres, x + tempIndex * 8) {
        x := 0;
        y := y + 16;
        tempIndex := 0;
      }
      if y == 64 {
        x := 0;
        y := 0;
      }
    }

    /** The text is drawn over what the memory was; nothing is stored at a depth that is not supported. */
    ghost predicate Shows(was: seq<byte>, color: word, from: Cursor, text: seq<byte>)
      reads fb
      requires Valid() && |was| == fb.Length
    {
      if Supported(bpp) then
        && StaysOnScreen(xres, yres, from, text)
        && Picture() == Drawing(font, bpp, color, xres, yres, Rows(was, lineWidth, pixelWidth, xres, yres),
                                Layout(xres, from, text))
      else fb[..] == was
    }

    /** The body of the loop, for byte `index` of a text. */
    method LcdPutNth(x0: int, y0: int, t0: nat, color: word, dots: byte,
                     ghost was: seq<byte>, ghost from: Cursor, ghost text: seq<byte>, ghost index: nat)
      returns (x: int, y: int, tempIndex: nat)
      requires Valid() && |was| == fb.Length && index < |text| && text[index] == dots
      requires Supported(bpp) ==> StaysOnScreen(xres, yres, from, text)
      requires Cursor(x0, y0, t0) == After(xres, from, text[..index]) && Shows(was, color, from, text[..index])
      modifies fb
      ensures Cursor(x, y, tempIndex) == After(xres, from, text[..index + 1])
      ensures Shows(was, color, from, text[..index + 1])
    {
      assert text[..index + 1] == text[..index] + [dots];
      LayoutGrows(xres, from, text[..index], dots);
      if Supported(bpp) {
        PrefixStays(xres, yres, from, text, index);
        ghost var pic := Rows(was, lineWidth, pixelWidth, xres, yres);
        TextGrows(font, bpp, color, xres, yres, pic, from, text[..index], dots);
      }
      x, y, tempIndex := LcdPutNext(x0, y0, t0, color, dots);
    }

    /** Draws a C string from any start: the picture afterwards is the old one with the glyphs of the layout drawn in
        order. The caller owes that the string stays on the screen, at a depth at which anything is stored. */
    method LcdPutString(x0: int, y0: int, color: word, str: seq<byte>)
      requires Valid() && 0 in str
      requires Supported(bpp) ==> StaysOnScreen(xres, yres, Cursor(x0, y0, 0), Text(str))
      modifies fb
      ensures CText(Text(str)) && Text(str) <= str
      ensures !Supported(bpp) ==> fb[..] == old(fb[..])
      ensures Supported(bpp) ==>
                Picture() ==
                Drawing(font, bpp, color, xres, yres, old(Picture()), Layout(xres, Cursor(x0, y0, 0), Text(str)))
    {
      TextIsCString(str);
      var len := StrLen(str);
      var x, y, tempIndex: nat := x0, y0, 0;
      ghost var was, from, text := fb[..], Cursor(x0, y0, 0), Text(str);
      var index := 0;
      while index <= len
        invariant 0 <= index <= len + 1
        invariant Cursor(x, y, tempIndex) == After(xres, from, text[..index]) && Shows(was, color, from, text[..index])
      {
        x, y, tempIndex := LcdPutNth(x, y, tempIndex, color, str[index], was, from, text, index);
        index := index + 1;
      }
      assert text[..index] == text;
    }
  }
}
