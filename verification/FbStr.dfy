/**
 The text writer: where the characters of a string go, and how a glyph is stored into the framebuffer.
 The font is any table of 256 glyphs of 16 bytes.
*/
module FbStr {
  import opened Bytes

  const FONT_SIZE := 4096

  // ---------------------------------------------------------------- pixels

  function Red(color: word): byte {
    color / 0x1_0000 % 0x100
  }

  function Green(color: word): byte {
    color / 0x100 % 0x100
  }

  function Blue(color: word): byte {
    color % 0x100
  }

  /** The 16-bit pixel of a colour: five bits of red, six of green, five of blue. */
  function Pack565(color: word): (v: nat)
    ensures v < 0x1_0000
  {
    Red(color) / 8 * 0x800 + Green(color) / 4 * 0x20 + Blue(color) / 8
  }

  /** What lcd_put_pixel stores; it stores nothing at other depths. */
  function Encode(bpp: nat, color: word): seq<byte> {
    if bpp == 8 then [color % 0x100]
    else if bpp == 16 then Store16(Pack565(color))
    else if bpp == 32 then Store32(color)
    else []
  }

  predicate Supported(bpp: nat) {
    bpp == 8 || bpp == 16 || bpp == 32
  }

  /** Whether the font sets the pixel in column `dx`, row `dy` of the cell of character `c`. */
  predicate Lit(font: seq<byte>, c: byte, dx: nat, dy: nat)
    requires |font| == FONT_SIZE && dx < 8 && dy < 16
  {
    HasBit(font[c * 16 + dy], 7 - dx)
  }

  /** The bytes of a stored pixel, for the colour with the parts a, r, g and b from the top. */
  lemma EncodeExactly(r: byte, g: byte, b: byte, a: byte)
    ensures var color := Word32(b, g, r, a);
            && Encode(8, color) == [b]
            && Encode(16, color) == [g / 4 % 8 * 32 + b / 8, r / 8 * 8 + g / 32]
            && Encode(32, color) == [b, g, r, a]
  {
    var color, upper, top := Word32(b, g, r, a), g + 0x100 * r + 0x1_0000 * a, r + 0x100 * a;
    DivModUnique(color, 0x100, upper, b);
    DivModUnique(upper, 0x100, top, g);
    DivModUnique(top, 0x100, a, r);
    DivModUnique(color, 0x1_0000, top, Word16(b, g));
    DivModUnique(color, 0x100_0000, a, b + 0x100 * g + 0x1_0000 * r);
    HalvesOfPixel(r / 8, g / 4, b / 8);
  }

  /** The two bytes of a 16-bit pixel. */
  lemma HalvesOfPixel(r: nat, g: nat, b: nat)
    requires r < 32 && g < 64 && b < 32
    ensures var p := r * 0x800 + g * 0x20 + b; p % 0x100 == g % 8 * 32 + b && p / 0x100 == r * 8 + g / 8
  {
    DivModUnique(r * 0x800 + g * 0x20 + b, 0x100, r * 8 + g / 8, g % 8 * 32 + b);
  }

  /** The depths at which something is stored. */
  lemma StoredExactly(bpp: nat, color: word)
    ensures Encode(bpp, color) != [] <==> bpp == 8 || bpp == 16 || bpp == 32
    ensures Supported(bpp) <==> Encode(bpp, color) != []
    ensures Supported(bpp) ==> |Encode(bpp, color)| == bpp / 8
  {
  }

  /** The leftmost pixel of a glyph's row is the most significant bit. */
  lemma LitExactly(font: seq<byte>, c: byte, dx: nat, dy: nat)
    requires |font| == FONT_SIZE && dx < 8 && dy < 16
    ensures Lit(font, c, dx, dy) <==> font[16 * c + dy] / [128, 64, 32, 16, 8, 4, 2, 1][dx] % 2 == 1
  {
    BitByDivision(font[16 * c + dy], 7 - dx);
  }

  // ---------------------------------------------------------------- layout

  datatype Cursor = Cursor(x: int, y: int, t: nat)

  datatype Draw = Draw(x: int, y: int, c: byte)

  /** Bit 7 is clear. */
  predicate Drawable(c: byte) {
    c < 0x80
  }

  /** `(xres - at) <= 16` in 32-bit unsigned arithmetic. */
  predicate AtRightEdge(xres: nat, at: int) {
    (xres - at) % WORD <= 16
  }

  /** One round of the loop in lcd_put_string. */
  function Advance(xres: nat, cur: Cursor, c: byte): Cursor {
    var t := if Drawable(c) then cur.t + 1 else cur.t;
    var next := if AtRightEdge(xres, cur.x + t * 8) then Cursor(0, cur.y + 16, 0) else Cursor(cur.x, cur.y, t);
    if next.y == 64 then Cursor(0, 0, next.t) else next
  }

  /** A round, while the next cell starts on the screen: a byte below 0x80 takes a cell; less than three cells before
      the right edge the line is over and the next one starts at the left edge; row 64 becomes row 0. */
  lemma RoundExactly(xres: nat, x: int, y: int, t: nat, c: byte)
    requires xres < WORD && 0 <= x + 8 * (if c < 0x80 then t + 1 else t) <= xres
    ensures var taken := if c < 0x80 then t + 1 else t;
            var row := if xres - (x + 8 * taken) <= 16 then y + 16 else y;
            Advance(xres, Cursor(x, y, t), c) ==
            Cursor(if row != y || row == 64 then 0 else x, if row == 64 then 0 else row,
                   if row != y then 0 else taken)
  {
  }

  /** Where the loop stands after the bytes of `text`. */
  function After(xres: nat, from: Cursor, text: seq<byte>): Cursor {
    if text == [] then from
    else Advance(xres, After(xres, from, text[..|text| - 1]), text[|text| - 1])
  }

  /** What one round draws. */
  function Drawn(cur: Cursor, c: byte): seq<Draw> {
    if Drawable(c) then [Draw(cur.x + cur.t * 8, cur.y, c)] else []
  }

  /** The glyphs that the loop draws for the bytes of `text`, in order. */
  function Layout(xres: nat, from: Cursor, text: seq<byte>): seq<Draw> {
    if text == [] then []
    else
      var front, c := text[..|text| - 1], text[|text| - 1];
      Layout(xres, from, front) + Drawn(After(xres, from, front), c)
  }

  lemma LayoutGrows(xres: nat, from: Cursor, text: seq<byte>, c: byte)
    ensures var cur := After(xres, from, text);
            && After(xres, from, text + [c]) == Advance(xres, cur, c)
            && Layout(xres, from, text + [c]) == Layout(xres, from, text) + Drawn(cur, c)
  {
    var longer := text + [c];
    assert longer[..|longer| - 1] == text && longer[|longer| - 1] == c;
  }

  /** strlen: the index of the first NUL. */
  function StrLen(str: seq<byte>): (n: nat)
    requires 0 in str
    ensures n < |str| && str[n] == 0 && 0 !in str[..n]
  {
    if str[0] == 0 then 0 else 1 + StrLen(str[1..])
  }

  /** The bytes that lcd_put_string visits: the string and its terminator. */
  function Text(str: seq<byte>): (text: seq<byte>)
    requires 0 in str
    ensures text <= str && text != [] && text[|text| - 1] == 0 && 0 !in text[..|text| - 1]
  {
    str[..StrLen(str) + 1]
  }

  /** What is visited is a C string: the bytes before the first NUL, and that NUL. */
  lemma TextIsCString(str: seq<byte>)
    requires 0 in str
    ensures CText(Text(str)) && Text(str) <= str
    ensures forall i | 0 <= i < |str| && str[i] == 0 && 0 !in str[..i] :: Text(str) == str[..i + 1]
  {
    var n := |Text(str)| - 1;
    assert str[n] == 0 && Text(str)[..n] == str[..n];
    NoNulBefore(str, n);
    forall i | 0 <= i < |str| && str[i] == 0 && 0 !in str[..i]
      ensures Text(str) == str[..i + 1]
    {
      NoNulBefore(str, i);
    }
  }

  lemma NoNulBefore(str: seq<byte>, n: nat)
    requires n <= |str| && 0 !in str[..n]
    ensures forall j | 0 <= j < n :: str[j] != 0
  {
    forall j | 0 <= j < n
      ensures str[j] != 0
    {
      assert str[..n][j] == str[j];
    }
  }

  // ---------------------------------------------------------------- what a picture shows

  /** Whether the cell at (x, y) has a pixel. */
  predicate Covers(x: int, y: int, px: int, py: int) {
    x <= px < x + 8 && y <= py < y + 16
  }

  /** What a glyph stores in column `dx`, row `dy` of its cell. */
  function Ink(font: seq<byte>, bpp: nat, color: word, c: byte, dx: nat, dy: nat): seq<byte>
    requires |font| == FONT_SIZE && dx < 8 && dy < 16
  {
    Encode(bpp, if Lit(font, c, dx, dy) then color else 0)
  }

  /** A pixel after some draws: the ink of the last one that covers it, or what was there. */
  function Shown(font: seq<byte>, bpp: nat, color: word, draws: seq<Draw>, px: int, py: int, before: seq<byte>)
    : seq<byte>
    requires |font| == FONT_SIZE
  {
    if draws == [] then before
    else
      var d := draws[|draws| - 1];
      if Covers(d.x, d.y, px, py) then Ink(font, bpp, color, d.c, px - d.x, py - d.y)
      else Shown(font, bpp, color, draws[..|draws| - 1], px, py, before)
  }

  // ---------------------------------------------------------------- safety

  /** Whether the cell at (x, y) lies on the screen. */
  predicate CellFits(xres: nat, yres: nat, x: int, y: int) {
    0 <= x && x + 8 <= xres && 0 <= y && y + 16 <= yres
  }

  predicate AllFit(xres: nat, yres: nat, draws: seq<Draw>) {
    forall k | 0 <= k < |draws| :: CellFits(xres, yres, draws[k].x, draws[k].y)
  }

  predicate StaysOnScreen(xres: nat, yres: nat, from: Cursor, text: seq<byte>) {
    AllFit(xres, yres, Layout(xres, from, text))
  }

  /** What stays on the screen does so up to any point. */
  lemma {:induction false} PrefixStays(xres: nat, yres: nat, from: Cursor, text: seq<byte>, n: nat)
    requires n <= |text| && StaysOnScreen(xres, yres, from, text)
    ensures StaysOnScreen(xres, yres, from, text[..n])
    ensures n < |text| ==> AllFit(xres, yres, Drawn(After(xres, from, text[..n]), text[n]))
    decreases |text| - n
  {
    if n == |text| {
      assert text[..n] == text;
    } else {
      PrefixStays(xres, yres, from, text, n + 1);
      assert text[..n + 1] == text[..n] + [text[n]];
      LayoutGrows(xres, from, text[..n], text[n]);
      PartsFit(xres, yres, Layout(xres, from, text[..n]), Drawn(After(xres, from, text[..n]), text[n]));
    }
  }

  lemma PartsFit(xres: nat, yres: nat, a: seq<Draw>, b: seq<Draw>)
    requires AllFit(xres, yres, a + b)
    ensures AllFit(xres, yres, a) && AllFit(xres, yres, b)
  {
    assert forall k | 0 <= k < |a| :: (a + b)[k] == a[k];
    assert forall k | 0 <= k < |b| :: (a + b)[|a| + k] == b[k];
  }

  /** The starts from which no string leaves the screen. */
  predicate SafeStart(xres: nat, yres: nat, x: int, y: int) {
    && 0 <= x && x + 8 <= xres && 64 <= yres
    && ((y % 16 == 0 && 0 <= y <= 48) || (y == 64 && 80 <= yres && x + 24 < xres))
  }

  predicate SafeCursor(xres: nat, yres: nat, cur: Cursor) {
    if cur.y == 64 then cur.t == 0 && SafeStart(xres, yres, cur.x, 64)
    else SafeStart(xres, yres, cur.x + cur.t * 8, cur.y) && 0 <= cur.x
  }

  /** The unsigned subtraction does not wrap on a safe path, so that it is the comparison it looks like. */
  lemma SafeAdvance(xres: nat, yres: nat, cur: Cursor, c: byte)
    requires SafeCursor(xres, yres, cur) && xres < WORD
    ensures SafeCursor(xres, yres, Advance(xres, cur, c))
    ensures var t := if Drawable(c) then cur.t + 1 else cur.t;
            cur.x + t * 8 <= xres && (AtRightEdge(xres, cur.x + t * 8) <==> xres - (cur.x + t * 8) <= 16)
    ensures CellFits(xres, yres, cur.x + cur.t * 8, cur.y)
  {
  }

  lemma {:induction false} SafeDraws(xres: nat, yres: nat, from: Cursor, text: seq<byte>)
    requires SafeCursor(xres, yres, from) && xres < WORD
    ensures SafeCursor(xres, yres, After(xres, from, text))
    ensures StaysOnScreen(xres, yres, from, text)
  {
    if text == [] {
    } else {
      var front := text[..|text| - 1];
      SafeDraws(xres, yres, from, front);
      SafeAdvance(xres, yres, After(xres, from, front), text[|text| - 1]);
    }
  }

  /** A C string with its terminator. */
  predicate CText(text: seq<byte>) {
    text != [] && text[|text| - 1] == 0 && 0 !in text[..|text| - 1]
  }

  /** The row counter passes 64 without being reset: it is out of step, or beyond, or the screen ends before. */
  predicate NeverReset(yres: nat, y: int) {
    y % 16 != 0 || y > 64 || yres < 64
  }

  /** Along such a row a letter moves right, or down by one row that is not reset either. */
  lemma NextUnreset(xres: nat, yres: nat, cur: Cursor)
    requires xres < WORD && NeverReset(yres, cur.y)
    requires 0 <= cur.x && cur.x + cur.t * 8 + 8 <= xres && 0 <= cur.y && cur.y + 16 <= yres
    ensures var next := Advance(xres, cur, 0x41);
            && NeverReset(yres, next.y) && 0 <= next.x && next.x + next.t * 8 + 8 <= xres
            && (next.y > cur.y || (next.y == cur.y && next.x + next.t * 8 > cur.x + cur.t * 8))
  {
  }

  /** From such a row, enough letters walk off the bottom of the screen. */
  lemma {:induction false} WalksOff(xres: nat, yres: nat, from: Cursor, s: seq<byte>) returns (text: seq<byte>)
    requires xres < WORD && 0 !in s
    requires var cur := After(xres, from, s);
             0 <= cur.x && cur.x + cur.t * 8 + 8 <= xres && NeverReset(yres, cur.y)
    ensures CText(text) && !StaysOnScreen(xres, yres, from, text)
    decreases yres - After(xres, from, s).y, xres - After(xres, from, s).x - After(xres, from, s).t * 8
  {
    var cur := After(xres, from, s);
    if 0 <= cur.y && cur.y + 16 <= yres {
      LayoutGrows(xres, from, s, 0x41);
      NextUnreset(xres, yres, cur);
      text := WalksOff(xres, yres, from, s + [0x41]);
    } else {
      text := LeavesNow(xres, yres, from, s);
    }
  }

  /** If the cell at hand is off the screen, the terminator is drawn off the screen. */
  lemma LeavesNow(xres: nat, yres: nat, from: Cursor, s: seq<byte>) returns (text: seq<byte>)
    requires 0 !in s
    requires var cur := After(xres, from, s); !CellFits(xres, yres, cur.x + cur.t * 8, cur.y)
    ensures CText(text) && !StaysOnScreen(xres, yres, from, text)
  {
    text := s + [0];
    LayoutGrows(xres, from, s, 0);
    var draws := Layout(xres, from, text);
    assert !CellFits(xres, yres, draws[|draws| - 1].x, draws[|draws| - 1].y);
  }

  /** At row 64, near the right edge, the first character skips the reset. */
  lemma SkipsReset(xres: nat, x: nat)
    requires xres < WORD && x + 8 <= xres <= x + 24
    ensures After(xres, Cursor(x, 64, 0), [0x41]) == Cursor(0, 80, 0)
  {
    var cur := Cursor(x, 64, 0);
    assert After(xres, cur, []) == cur;
    LayoutGrows(xres, cur, [], 0x41);
    assert [] + [0x41] == [0x41];
  }

  lemma UnsafeLeaves(xres: nat, yres: nat, x: int, y: int) returns (text: seq<byte>)
    requires xres < WORD && !SafeStart(xres, yres, x, y)
    ensures CText(text) && !StaysOnScreen(xres, yres, Cursor(x, y, 0), text)
  {
    var from := Cursor(x, y, 0);
    if !CellFits(xres, yres, x, y) {
      text := LeavesNow(xres, yres, from, []);
    } else if y == 64 {
      SkipsReset(xres, x);
      text := WalksOff(xres, yres, from, [0x41]);
    } else {
      text := WalksOff(xres, yres, from, []);
    }
  }

  /** The starts from which every string stays on the screen, exactly: the first cell fits and the row is one of
      the four that the wrap visits, or the row 64 just below them if the first character does not wrap. */
  lemma SafeExactly(xres: nat, yres: nat, x: int, y: int)
    requires xres < WORD
    ensures SafeStart(xres, yres, x, y) <==>
            forall text | CText(text) :: StaysOnScreen(xres, yres, Cursor(x, y, 0), text)
  {
    if SafeStart(xres, yres, x, y) {
      forall text | CText(text)
        ensures StaysOnScreen(xres, yres, Cursor(x, y, 0), text)
      {
        SafeDraws(xres, yres, Cursor(x, y, 0), text);
      }
    } else {
      var text := UnsafeLeaves(xres, yres, x, y);
    }
  }

  // ---------------------------------------------------------------- the grid

  /** The characters among the bytes of a text that are drawn. */
  function Chars(text: seq<byte>): seq<byte> {
    if text == [] then []
    else
      var c := text[|text| - 1];
      Chars(text[..|text| - 1]) + if Drawable(c) then [c] else []
  }

  lemma {:induction false} CharsConcat(a: seq<byte>, b: seq<byte>)
    ensures Chars(a + b) == Chars(a) + Chars(b)
  {
    if b == [] {
      assert a + b == a;
    } else {
      CharsConcat(a, b[..|b| - 1]);
      assert (a + b)[..|a + b| - 1] == a + b[..|b| - 1];
    }
  }

  /** The terminator is the last character that is drawn. */
  lemma TerminatorDrawn(str: seq<byte>)
    requires 0 in str
    ensures var chars := Chars(Text(str)); chars != [] && chars[|chars| - 1] == 0
  {
    assert Text(str)[|Text(str)| - 1] == 0;
  }

  /** Bytes below 0x80 are all drawn ... */
  lemma {:induction false} LowBytesDrawn(text: seq<byte>)
    requires forall i | 0 <= i < |text| :: text[i] < 0x80
    ensures Chars(text) == text
  {
    if text == [] {
    } else {
      LowBytesDrawn(text[..|text| - 1]);
      assert text[|text| - 1] < 0x80;
    }
  }

  /** ... and the others are not. */
  lemma {:induction false} HighBytesSkipped(text: seq<byte>)
    requires forall i | 0 <= i < |text| :: text[i] >= 0x80
    ensures Chars(text) == []
  {
    if text == [] {
    } else {
      HighBytesSkipped(text[..|text| - 1]);
      assert text[|text| - 1] >= 0x80;
    }
  }

  /** The characters in a line that starts at the left edge. */
  function Columns(xres: nat): nat
    requires 16 < xres
  {
    (xres - 16 + 7) / 8
  }

  function GridDraw(xres: nat, k: nat, c: byte): Draw
    requires 16 < xres
  {
    Draw(8 * (k % Columns(xres)), 16 * (k / Columns(xres) % 4), c)
  }

  function GridCursor(xres: nat, k: nat): Cursor
    requires 16 < xres
  {
    Cursor(0, 16 * (k / Columns(xres) % 4), k % Columns(xres))
  }

  lemma NextInRow(k: nat, n: nat)
    requires 0 < n
    ensures if k % n + 1 == n then (k + 1) / n == k / n + 1 && (k + 1) % n == 0
            else (k + 1) / n == k / n && (k + 1) % n == k % n + 1
  {
    if k % n + 1 == n {
      assert k + 1 == (k / n + 1) * n + 0;
      DivModUnique(k + 1, n, k / n + 1, 0);
    } else {
      DivModUnique(k + 1, n, k / n, k % n + 1);
    }
  }

  /** The grid is what lines from the origin make. */
  lemma GridIsLine(xres: nat, k: nat, c: byte)
    requires 16 < xres
    ensures GridDraw(xres, k, c) == LineDraw(xres, 0, 0, k, c)
    ensures GridCursor(xres, k) == LineCursor(xres, 0, 0, k)
  {
    var n := Columns(xres);
    assert (xres - 9) / 8 == n;
    if k >= n {
      DivModUnique(k, n, (k - n) / n + 1, (k - n) % n);
    } else {
      DivModUnique(k, n, 0, k);
    }
  }

  /** From the origin, the k-th drawn byte, the terminator included, goes to column k mod C and row (k div C) mod 4
      of a grid of 8 by 16 cells, with C the number of cells that start more than 16 pixels before the right edge. */
  lemma GridLayout(xres: nat, text: seq<byte>)
    requires 16 < xres < WORD
    ensures var draws := Layout(xres, Cursor(0, 0, 0), text);
            && |draws| == |Chars(text)|
            && forall k | 0 <= k < |draws| :: draws[k] == GridDraw(xres, k, Chars(text)[k])
    ensures After(xres, Cursor(0, 0, 0), text) == GridCursor(xres, |Chars(text)|)
  {
    LineLayout(xres, 0, 0, text);
    var draws := Layout(xres, Cursor(0, 0, 0), text);
    forall k | 0 <= k < |draws|
      ensures draws[k] == GridDraw(xres, k, Chars(text)[k])
    {
      GridIsLine(xres, k, Chars(text)[k]);
    }
    GridIsLine(xres, |Chars(text)|, 0);
  }

  // ---------------------------------------------------------------- other starts

  lemma BothGrow(xres: nat, from: Cursor, whole: seq<byte>, first: seq<Draw>, cur: Cursor, rest: seq<byte>, c: byte)
    requires After(xres, from, whole) == After(xres, cur, rest)
    requires Layout(xres, from, whole) == first + Layout(xres, cur, rest)
    ensures After(xres, from, whole + [c]) == After(xres, cur, rest + [c])
    ensures Layout(xres, from, whole + [c]) == first + Layout(xres, cur, rest + [c])
  {
    LayoutGrows(xres, from, whole, c);
    LayoutGrows(xres, cur, rest, c);
    ConcatAssoc(first, Layout(xres, cur, rest), Drawn(After(xres, cur, rest), c));
  }

  lemma {:induction false} LayoutConcat(xres: nat, from: Cursor, a: seq<byte>, b: seq<byte>)
    ensures After(xres, from, a + b) == After(xres, After(xres, from, a), b)
    ensures Layout(xres, from, a + b) == Layout(xres, from, a) + Layout(xres, After(xres, from, a), b)
  {
    if b == [] {
      assert a + b == a;
    } else {
      var front, last := b[..|b| - 1], b[|b| - 1];
      LayoutConcat(xres, from, a, front);
      BothGrow(xres, from, a + front, Layout(xres, from, a), After(xres, from, a), front, last);
      EndOf(a, b);
    }
  }

  lemma EndOf(a: seq<byte>, b: seq<byte>)
    requires b != []
    ensures a + b[..|b| - 1] + [b[|b| - 1]] == a + b && b[..|b| - 1] + [b[|b| - 1]] == b
  {
  }

  /** The characters in the first line of a text that starts at column `x0`. */
  function FirstLine(xres: nat, x0: nat): nat
    requires x0 + 16 < xres
  {
    (xres - 16 - x0 + 7) / 8
  }

  function LineCursor(xres: nat, x0: nat, y0: nat, k: nat): Cursor
    requires x0 + 16 < xres
  {
    var n, c := FirstLine(xres, x0), Columns(xres);
    if k < n then Cursor(x0, y0, k) else Cursor(0, 16 * ((y0 / 16 + 1 + (k - n) / c) % 4), (k - n) % c)
  }

  predicate IsTextRow(y: int) {
    y == 0 || y == 16 || y == 32 || y == 48
  }

  /** A round in the first line. */
  lemma FirstAdvance(xres: nat, x0: nat, y0: nat, k: nat, c: byte)
    requires x0 + 16 < xres < WORD && IsTextRow(y0) && k < FirstLine(xres, x0)
    ensures Advance(xres, Cursor(x0, y0, k), c) ==
            if !Drawable(c) then Cursor(x0, y0, k)
            else if k + 1 < FirstLine(xres, x0) then Cursor(x0, y0, k + 1)
            else Cursor(0, if y0 == 48 then 0 else y0 + 16, 0)
  {
  }

  lemma NextRow(r: nat)
    ensures IsTextRow(16 * (r % 4))
    ensures 16 * ((r + 1) % 4) == if 16 * (r % 4) == 48 then 0 else 16 * (r % 4) + 16
  {
  }

  /** A round in a line that starts at the left edge; row `m` comes first. */
  lemma RowAdvance(xres: nat, m: nat, k: nat, c: byte)
    requires 16 < xres < WORD
    ensures Advance(xres, Cursor(0, 16 * ((m + k / Columns(xres)) % 4), k % Columns(xres)), c) ==
            var next := if Drawable(c) then k + 1 else k;
            Cursor(0, 16 * ((m + next / Columns(xres)) % 4), next % Columns(xres))
  {
    var q, t := k / Columns(xres), k % Columns(xres);
    NextRow(m + q);
    FirstAdvance(xres, 0, 16 * ((m + q) % 4), t, c);
    NextInRow(k, Columns(xres));
  }

  lemma LineAdvance(xres: nat, x0: nat, y0: nat, k: nat, c: byte)
    requires x0 + 16 < xres < WORD && IsTextRow(y0)
    ensures Advance(xres, LineCursor(xres, x0, y0, k), c) ==
            LineCursor(xres, x0, y0, if Drawable(c) then k + 1 else k)
  {
    var n := FirstLine(xres, x0);
    if k >= n {
      RowAdvance(xres, y0 / 16 + 1, k - n, c);
    } else {
      FirstAdvance(xres, x0, y0, k, c);
      NextRow(y0 / 16);
      DivModUnique(0, Columns(xres), 0, 0);
    }
  }

  function LineDraw(xres: nat, x0: nat, y0: nat, k: nat, c: byte): Draw
    requires x0 + 16 < xres
  {
    var n, columns := (xres - x0 - 9) / 8, (xres - 9) / 8;
    if k < n then Draw(x0 + 8 * k, y0, c)
    else Draw(8 * ((k - n) % columns), 16 * ((y0 / 16 + 1 + (k - n) / columns) % 4), c)
  }

  lemma LineDrawn(xres: nat, x0: nat, y0: nat, k: nat, c: byte)
    requires x0 + 16 < xres
    ensures Drawn(LineCursor(xres, x0, y0, k), c) == if c < 0x80 then [LineDraw(xres, x0, y0, k, c)] else []
  {
  }

  /** The k-th draw is that of the k-th character. */
  predicate InLines(xres: nat, x0: nat, y0: nat, draws: seq<Draw>, chars: seq<byte>)
    requires x0 + 16 < xres
  {
    |draws| == |chars| && forall k | 0 <= k < |draws| :: draws[k] == LineDraw(xres, x0, y0, k, chars[k])
  }

  lemma InLinesGrows(xres: nat, x0: nat, y0: nat, draws: seq<Draw>, chars: seq<byte>, c: byte)
    requires x0 + 16 < xres && InLines(xres, x0, y0, draws, chars)
    ensures InLines(xres, x0, y0, draws + [LineDraw(xres, x0, y0, |chars|, c)], chars + [c])
  {
  }

  lemma {:induction false} LineLayout(xres: nat, x0: nat, y0: nat, text: seq<byte>)
    requires x0 + 16 < xres < WORD && IsTextRow(y0)
    ensures InLines(xres, x0, y0, Layout(xres, Cursor(x0, y0, 0), text), Chars(text))
    ensures After(xres, Cursor(x0, y0, 0), text) == LineCursor(xres, x0, y0, |Chars(text)|)
  {
    if text == [] {
    } else {
      var front, last := text[..|text| - 1], text[|text| - 1];
      LineLayout(xres, x0, y0, front);
      LineAdvance(xres, x0, y0, |Chars(front)|, last);
      LineDrawn(xres, x0, y0, |Chars(front)|, last);
      InLinesGrows(xres, x0, y0, Layout(xres, Cursor(x0, y0, 0), front), Chars(front), last);
    }
  }

  /** From any start on one of the four rows, more than 16 pixels before the right edge: the first line is filled from
      the start on, and the following ones from the left edge, the row below each, from the fourth to the first. */
  lemma LayoutFromExactly(xres: nat, x0: nat, y0: nat, text: seq<byte>)
    requires x0 + 16 < xres < WORD && IsTextRow(y0)
    ensures var draws, n, c := Layout(xres, Cursor(x0, y0, 0), text), (xres - x0 - 9) / 8, (xres - 9) / 8;
            && |draws| == |Chars(text)|
            && (forall k | 0 <= k < |draws| && k < n :: draws[k] == Draw(x0 + 8 * k, y0, Chars(text)[k]))
            && (forall k | n <= k < |draws| ::
                  draws[k] == Draw(8 * ((k - n) % c), 16 * ((y0 / 16 + 1 + (k - n) / c) % 4), Chars(text)[k]))
  {
    LineLayout(xres, x0, y0, text);
  }

  lemma EdgeAdvance(xres: nat, x0: nat, y0: nat, c: byte)
    requires x0 + 8 <= xres <= x0 + 16 && xres < WORD && IsTextRow(y0)
    ensures Advance(xres, Cursor(x0, y0, 0), c) == Cursor(0, if y0 == 48 then 0 else y0 + 16, 0)
  {
  }

  /** From a start nearer to the right edge, the first byte is drawn there if it is drawn at all, and the rest of the
      text starts at the left edge of the next row. */
  lemma EdgeExactly(xres: nat, x0: nat, y0: nat, c: byte, rest: seq<byte>)
    requires x0 + 8 <= xres <= x0 + 16 && xres < WORD && IsTextRow(y0)
    ensures Layout(xres, Cursor(x0, y0, 0), [c] + rest) ==
            (if c < 0x80 then [Draw(x0, y0, c)] else [])
            + Layout(xres, Cursor(0, if y0 == 48 then 0 else y0 + 16, 0), rest)
  {
    var from := Cursor(x0, y0, 0);
    EdgeAdvance(xres, x0, y0, c);
    LayoutConcat(xres, from, [c], rest);
    FirstByte(xres, from, c);
  }

  lemma FirstByte(xres: nat, from: Cursor, c: byte)
    ensures After(xres, from, [c]) == Advance(xres, from, c)
    ensures Layout(xres, from, [c]) == if c < 0x80 then [Draw(from.x + 8 * from.t, from.y, c)] else []
  {
    LayoutGrows(xres, from, [], c);
    assert [] + [c] == [c];
  }

  // ---------------------------------------------------------------- what the grid shows

  /** Whether the k-th character of the grid has the cell of a pixel. */
  predicate InCellOf(xres: nat, k: nat, px: nat, py: nat)
    requires 16 < xres
  {
    k % Columns(xres) == px / 8 && k / Columns(xres) % 4 == py / 16
  }

  /** The last glyph that covers a pixel decides it. */
  lemma {:induction false} LastDrawShows(font: seq<byte>, bpp: nat, color: word, draws: seq<Draw>, k: nat,
                                         px: int, py: int, before: seq<byte>)
    requires |font| == FONT_SIZE && k < |draws| && Covers(draws[k].x, draws[k].y, px, py)
    requires forall j | k < j < |draws| :: !Covers(draws[j].x, draws[j].y, px, py)
    ensures Shown(font, bpp, color, draws, px, py, before) ==
            Ink(font, bpp, color, draws[k].c, px - draws[k].x, py - draws[k].y)
  {
    if k == |draws| - 1 {
    } else {
      LastDrawShows(font, bpp, color, draws[..|draws| - 1], k, px, py, before);
    }
  }

  lemma {:induction false} UncoveredStays(font: seq<byte>, bpp: nat, color: word, draws: seq<Draw>,
                                          px: int, py: int, before: seq<byte>)
    requires |font| == FONT_SIZE && forall j | 0 <= j < |draws| :: !Covers(draws[j].x, draws[j].y, px, py)
    ensures Shown(font, bpp, color, draws, px, py, before) == before
  {
    if draws == [] {
    } else {
      UncoveredStays(font, bpp, color, draws[..|draws| - 1], px, py, before);
    }
  }

  lemma GridCovers(xres: nat, k: nat, c: byte, px: nat, py: nat)
    requires 16 < xres
    ensures Covers(GridDraw(xres, k, c).x, GridDraw(xres, k, c).y, px, py) <==> InCellOf(xres, k, px, py)
    ensures InCellOf(xres, k, px, py) ==>
              px - GridDraw(xres, k, c).x == px % 8 && py - GridDraw(xres, k, c).y == py % 16
  {
  }

  /** A string drawn from the origin: every cell shows the last character that the grid puts there, and a pixel
      whose cell no character has keeps its value. */
  lemma GridShows(font: seq<byte>, bpp: nat, color: word, xres: nat, text: seq<byte>, px: nat, py: nat,
                  before: seq<byte>)
    requires |font| == FONT_SIZE && 16 < xres < WORD
    ensures var chars := Chars(text);
            var after := Shown(font, bpp, color, Layout(xres, Cursor(0, 0, 0), text), px, py, before);
            && (forall k | 0 <= k < |chars| && InCellOf(xres, k, px, py)
                           && (forall j | k < j < |chars| :: !InCellOf(xres, j, px, py)) ::
                  after == Encode(bpp, if Lit(font, chars[k], px % 8, py % 16) then color else 0))
            && ((forall k | 0 <= k < |chars| :: !InCellOf(xres, k, px, py)) ==> after == before)
  {
    GridLayout(xres, text);
    var chars, draws := Chars(text), Layout(xres, Cursor(0, 0, 0), text);
    forall k | 0 <= k < |chars|
      ensures Covers(draws[k].x, draws[k].y, px, py) <==> InCellOf(xres, k, px, py)
    {
      GridCovers(xres, k, chars[k], px, py);
    }
    forall k | 0 <= k < |chars| && InCellOf(xres, k, px, py)
               && (forall j | k < j < |chars| :: !InCellOf(xres, j, px, py))
      ensures Shown(font, bpp, color, draws, px, py, before) ==
              Encode(bpp, if Lit(font, chars[k], px % 8, py % 16) then color else 0)
    {
      GridCovers(xres, k, chars[k], px, py);
      LastDrawShows(font, bpp, color, draws, k, px, py, before);
    }
    if forall k | 0 <= k < |chars| :: !InCellOf(xres, k, px, py) {
      UncoveredStays(font, bpp, color, draws, px, py, before);
    }
  }
}
