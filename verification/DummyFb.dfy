/** The framebuffer driver: its palette, and the part of the screen that it reports dirty. */
module DummyFb {
  import opened Bytes
  import opened FbCat

  const PAGE_SIZE := 4096

  // ---------------------------------------------------------------- channels

  /** A field of at most sixteen bits inside a pixel. */
  predicate IsField(f: BitField) {
    f.length <= 16 && f.offset < 32
  }

  /** The top bits of the low half-word, moved to the field; what leaves the word is lost. */
  function ChanToField(chan: word, f: BitField): (r: word)
    requires IsField(f)
  {
    chan % 0x1_0000 / Pow2(16 - f.length) * Pow2(f.offset) % WORD
  }

  lemma TopBits(chan: word, length: nat)
    requires length <= 16
    ensures chan % 0x1_0000 / Pow2(16 - length) < Pow2(length)
  {
    Pow2Words();
    Pow2Add(length, 16 - length);
    QuotientBelow(chan % 0x1_0000, Pow2(16 - length), Pow2(length));
  }

  /** A field inside the word receives the top bits of the channel, and nothing is lost. */
  lemma FieldOfChan(chan: word, f: BitField, v: nat)
    requires f.offset + f.length <= 32 && IsField(f) && v == chan % 0x1_0000 / Pow2(16 - f.length)
    ensures ChanToField(chan, f) == v * Pow2(f.offset)
    ensures Field(ChanToField(chan, f), f) == v
  {
    TopBits(chan, f.length);
    ShiftedFits(v, f.length, f.offset);
    var shifted: nat := v * Pow2(f.offset);
    DivModUnique(shifted, WORD, 0, shifted);
    FieldOfShifted(v, f);
  }

  lemma EntryTopBits(i: nat, length: nat, n: nat, m: nat)
    requires 1 <= length <= 8 && n == [1, 2, 4, 8, 16, 32, 64, 128, 256][length] && i < n
    requires m == [0x1_0000, 0x8000, 0x4000, 0x2000, 0x1000, 0x800, 0x400, 0x200, 0x100][length]
    ensures i * 0xFFFF / (n - 1) / m == i
  {
    if length == 1 {
    } else if length == 2 {
    } else if length == 3 {
    } else if length == 4 {
    } else if length == 5 {
    } else if length == 6 {
    } else if length == 7 {
    } else {
    }
  }

  lemma Pow2From8(n: nat)
    requires n <= 8
    ensures Pow2(16 - n) == [0x1_0000, 0x8000, 0x4000, 0x2000, 0x1000, 0x800, 0x400, 0x200, 0x100][n]
  {
    Pow2Add(8, 8 - n);
    Pow2UpTo8(8);
    Pow2UpTo8(8 - n);
  }

  lemma EntryTop(i: nat, length: nat)
    requires 1 <= length <= 8 && i < Pow2(length)
    ensures Entry(i, length) % 0x1_0000 / Pow2(16 - length) == i
  {
    Pow2UpTo8(length);
    Pow2From8(length);
    EntryTopBits(i, length, Pow2(length), Pow2(16 - length));
    var entry := Entry(i, length);
    DivModUnique(entry, 0x1_0000, 0, entry);
  }

  /** The driver's packing undoes the colormap of fbcat: the value comes back at the field's place. */
  lemma ChanRecoversEntry(i: nat, f: BitField)
    requires 1 <= f.length <= 8 && i < Pow2(f.length) && f.offset + f.length <= 32
    ensures ChanToField(Entry(i, f.length), f) == i * Pow2(f.offset)
    ensures Field(ChanToField(Entry(i, f.length), f), f) == i
  {
    EntryTop(i, f.length);
    FieldOfChan(Entry(i, f.length), f, i);
  }

  // ---------------------------------------------------------------- the palette

  datatype Fields = Fields(red: BitField, green: BitField, blue: BitField)

  predicate AreFields(f: Fields) {
    IsField(f.red) && IsField(f.green) && IsField(f.blue)
  }

  /** The fields that the driver announces. */
  const FIELDS := Fields(BitField(11, 5), BitField(5, 6), BitField(0, 5))

  lemma {:induction false} OrBelow(a: nat, b: nat, k: nat)
    requires a < Pow2(k) && b < Pow2(k)
    ensures BitOr(a, b) < Pow2(k)
  {
    if k == 0 {
    } else {
      OrBelow(a / 2, b / 2, k - 1);
    }
  }

  function Packed(f: Fields, red: word, green: word, blue: word): (r: word)
    requires AreFields(f)
  {
    Pow2Words();
    OrBelow(ChanToField(red, f.red), ChanToField(green, f.green), 32);
    OrBelow(BitOr(ChanToField(red, f.red), ChanToField(green, f.green)), ChanToField(blue, f.blue), 32);
    BitOr(BitOr(ChanToField(red, f.red), ChanToField(green, f.green)), ChanToField(blue, f.blue))
  }

  datatype Visual = TrueColor | OtherVisual

  class Palette {
    const visual: Visual
    const fields: Fields
    const pseudoPalette: array<word>

    constructor (visual: Visual, fields: Fields)
      requires AreFields(fields)
      ensures Valid() && this.visual == visual && this.fields == fields && fresh(pseudoPalette)
    {
      this.visual, this.fields := visual, fields;
      pseudoPalette := new word[16](i => 0);
    }

    predicate Valid() {
      AreFields(fields) && pseudoPalette.Length == 16
    }

    /** Returns 0 and sets one entry, or returns 1 and changes nothing. */
    method SetColReg(regno: word, red: word, green: word, blue: word) returns (ret: int)
      requires Valid()
      modifies pseudoPalette
      ensures ret == if visual.TrueColor? && regno < 16 then 0 else 1
      ensures pseudoPalette[..] ==
              if ret == 0 then old(pseudoPalette[..])[regno := Packed(fields, red, green, blue)]
              else old(pseudoPalette[..])
    {
      ret := 1;
      if regno >= 256 {
        return 1;
      }
      match visual {
        case TrueColor =>
          if regno < 16 {
            pseudoPalette[regno] := Packed(fields, red, green, blue);
            ret := 0;
          }
        case OtherVisual =>
      }
    }
  }

  // ---------------------------------------------------------------- dirty rows

  /** The geometry of the screen: its size in pixels and the bytes of a line. */
  datatype Geometry = Geometry(xres: nat, yres: nat, line: nat)

  /** What the driver sets up. */
  const DRIVER := Geometry(480, 320, 480 * 16 / 8)

  datatype Area = Area(x1: int, y1: int, x2: int, y2: int)

  predicate IsScreen(g: Geometry) {
    0 < g.xres && 0 < g.yres && 0 < g.line
  }

  function Size(g: Geometry): nat {
    g.yres * g.line
  }

  /** The row that a byte belongs to. */
  function RowOf(g: Geometry, at: nat): nat
    requires IsScreen(g)
  {
    at / g.line
  }

  function EndRow(g: Geometry, offset: nat): int
    requires IsScreen(g)
  {
    if RowOf(g, offset + PAGE_SIZE) > g.yres - 1 then g.yres - 1 else RowOf(g, offset + PAGE_SIZE)
  }

  /** What the driver reports for the pages: the least first row, the greatest row behind a page, and the whole width
      if the last page of the list ends behind row 1. */
  predicate Reports(g: Geometry, offsets: seq<nat>, a: Area)
    requires IsScreen(g)
  {
    && a.x1 == 0
    && a.y1 <= g.yres - 1 && (forall k | 0 <= k < |offsets| :: a.y1 <= RowOf(g, offsets[k]))
    && (a.y1 == g.yres - 1 || exists k | 0 <= k < |offsets| :: a.y1 == RowOf(g, offsets[k]))
    && 0 <= a.y2 && (forall k | 0 <= k < |offsets| :: EndRow(g, offsets[k]) <= a.y2)
    && (a.y2 == 0 || exists k | 0 <= k < |offsets| :: a.y2 == EndRow(g, offsets[k]))
    && (offsets != [] ==> a.x2 == if EndRow(g, offsets[|offsets| - 1]) > 1 then g.xres - 1 else 0)
  }

  /** For an empty list the horizontal end depends on a variable that was never assigned. */
  method DeferredIo(g: Geometry, offsets: seq<nat>) returns (area: Area)
    requires IsScreen(g)
    ensures Reports(g, offsets, area)
  {
    var yCur: int, yEnd: int := *, *;
    area := Area(0, g.yres - 1, 0, 0);
    var i := 0;
    while i < |offsets|
      invariant 0 <= i <= |offsets|
      invariant area.x1 == 0 && area.x2 == 0
      invariant area.y1 <= g.yres - 1 && forall k | 0 <= k < i :: area.y1 <= RowOf(g, offsets[k])
      invariant area.y1 == g.yres - 1 || exists k | 0 <= k < i :: area.y1 == RowOf(g, offsets[k])
      invariant 0 <= area.y2 && forall k | 0 <= k < i :: EndRow(g, offsets[k]) <= area.y2
      invariant area.y2 == 0 || exists k | 0 <= k < i :: area.y2 == EndRow(g, offsets[k])
      invariant i > 0 ==> yEnd == EndRow(g, offsets[i - 1])
    {
      yCur := offsets[i] / g.line;
      yEnd := (offsets[i] + PAGE_SIZE) / g.line;
      if yEnd > g.yres - 1 {
        yEnd := g.yres - 1;
      }
      if yCur < area.y1 {
        area := area.(y1 := yCur);
      }
      if yEnd > area.y2 {
        area := area.(y2 := yEnd);
      }
      i := i + 1;
    }
    if yEnd > 1 {
      area := area.(x2 := g.xres - 1);
    }
  }

  /** A page of the video memory. */
  predicate IsPage(g: Geometry, offset: nat) {
    offset % PAGE_SIZE == 0 && offset < Size(g)
  }

  predicate ArePages(g: Geometry, offsets: seq<nat>) {
    offsets != [] && forall k | 0 <= k < |offsets| :: IsPage(g, offsets[k])
  }

  /** The last row with a byte in the page. */
  function LastRow(g: Geometry, offset: nat): nat
    requires IsScreen(g) && IsPage(g, offset)
  {
    RowOf(g, (if offset + PAGE_SIZE < Size(g) then offset + PAGE_SIZE else Size(g)) - 1)
  }

  lemma RowsMono(g: Geometry, a: nat, b: nat)
    requires IsScreen(g) && a <= b
    ensures RowOf(g, a) <= RowOf(g, b)
  {
    assert RowOf(g, a) * g.line <= a;
    QuotientAtLeast(b, g.line, RowOf(g, a));
  }

  lemma RowInside(g: Geometry, at: nat)
    requires IsScreen(g) && at < Size(g)
    ensures RowOf(g, at) <= g.yres - 1
  {
    var r := RowOf(g, at);
    assert r * g.line <= at;
    if r >= g.yres {
      MulMono(g.yres, r, g.line);
    }
  }

  lemma RowBefore(g: Geometry, at: nat)
    requires IsScreen(g) && 0 < at
    ensures RowOf(g, at - 1) == if at % g.line == 0 then RowOf(g, at) - 1 else RowOf(g, at)
    ensures at % g.line == 0 ==> RowOf(g, at) * g.line == at
  {
    var q, r := at / g.line, at % g.line;
    assert at == q * g.line + r;
    MulDistrib(q - 1, 1, g.line);
    if r == 0 {
      if q <= 0 {
        MulMono(q, 0, g.line);
      }
      DivModUnique(at - 1, g.line, q - 1, g.line - 1);
    } else {
      DivModUnique(at - 1, g.line, q, r - 1);
    }
  }

  /** The end that is computed for a page passes its last row by at most one, and does so exactly for a page that ends
      with a row of the screen other than the last. */
  lemma EndRowExactly(g: Geometry, offset: nat)
    requires IsScreen(g) && IsPage(g, offset)
    ensures LastRow(g, offset) <= EndRow(g, offset) <= LastRow(g, offset) + 1
    ensures EndRow(g, offset) > LastRow(g, offset) <==>
            (offset + PAGE_SIZE) % g.line == 0 && offset + PAGE_SIZE < Size(g)
  {
    var end := offset + PAGE_SIZE;
    if end < Size(g) {
      RowInside(g, end);
      RowBefore(g, end);
    } else {
      DivModUnique(Size(g), g.line, g.yres, 0);
      RowsMono(g, Size(g), end);
      RowBefore(g, Size(g));
    }
  }

  /** Whether one of the pages has a byte in the row. */
  ghost predicate Touches(g: Geometry, offsets: seq<nat>, row: int)
    requires IsScreen(g)
  {
    exists k, at: nat :: 0 <= k < |offsets| && InPage(g, offsets[k], at) && RowOf(g, at) == row
  }

  predicate InPage(g: Geometry, offset: nat, at: nat) {
    offset <= at < offset + PAGE_SIZE && at < Size(g)
  }

  lemma TouchedBetween(g: Geometry, offset: nat, at: nat)
    requires IsScreen(g) && IsPage(g, offset) && InPage(g, offset, at)
    ensures RowOf(g, offset) <= RowOf(g, at) <= LastRow(g, offset)
  {
    RowsMono(g, offset, at);
    RowsMono(g, at, (if offset + PAGE_SIZE < Size(g) then offset + PAGE_SIZE else Size(g)) - 1);
  }

  lemma EndsTouched(g: Geometry, offsets: seq<nat>, k: nat)
    requires IsScreen(g) && ArePages(g, offsets) && k < |offsets|
    ensures Touches(g, offsets, RowOf(g, offsets[k])) && Touches(g, offsets, LastRow(g, offsets[k]))
  {
    var o := offsets[k];
    assert InPage(g, o, o);
    assert InPage(g, o, (if o + PAGE_SIZE < Size(g) then o + PAGE_SIZE else Size(g)) - 1);
  }

  lemma TopRow(g: Geometry, offsets: seq<nat>, a: Area)
    requires IsScreen(g) && ArePages(g, offsets) && Reports(g, offsets, a)
    ensures exists k | 0 <= k < |offsets| :: a.y1 == RowOf(g, offsets[k])
  {
    assert IsPage(g, offsets[0]);
    RowInside(g, offsets[0]);
  }

  lemma BottomRow(g: Geometry, offsets: seq<nat>, a: Area)
    requires IsScreen(g) && ArePages(g, offsets) && Reports(g, offsets, a)
    ensures exists k | 0 <= k < |offsets| :: a.y2 == EndRow(g, offsets[k])
  {
    if a.y2 == 0 {
      assert IsPage(g, offsets[0]);
      EndRowExactly(g, offsets[0]);
    }
  }

  lemma TouchedEnd(g: Geometry, offsets: seq<nat>, row: int) returns (k: nat)
    requires IsScreen(g) && Touches(g, offsets, row)
    ensures k < |offsets| && offsets[k] + PAGE_SIZE > row * g.line
  {
    var j, at: nat :| 0 <= j < |offsets| && InPage(g, offsets[j], at) && RowOf(g, at) == row;
    k := j;
    assert row * g.line <= at;
  }

  lemma TouchedReported(g: Geometry, offsets: seq<nat>, a: Area)
    requires IsScreen(g) && ArePages(g, offsets) && Reports(g, offsets, a)
    ensures forall row | Touches(g, offsets, row) :: a.y1 <= row <= a.y2
  {
    forall row | Touches(g, offsets, row)
      ensures a.y1 <= row <= a.y2
    {
      var k, at: nat :| 0 <= k < |offsets| && InPage(g, offsets[k], at) && RowOf(g, at) == row;
      assert IsPage(g, offsets[k]);
      TouchedBetween(g, offsets[k], at);
      EndRowExactly(g, offsets[k]);
    }
  }

  /** Whether page `m` of the list is the last one on the screen. In a sorted list it is the last one. */
  predicate IsGreatest(offsets: seq<nat>, m: nat) {
    m < |offsets| && forall k | 0 <= k < |offsets| :: offsets[k] <= offsets[m]
  }

  lemma {:induction false} Greatest(offsets: seq<nat>) returns (m: nat)
    requires offsets != []
    ensures IsGreatest(offsets, m)
  {
    if |offsets| == 1 {
      m := 0;
    } else {
      var front := offsets[..|offsets| - 1];
      m := Greatest(front);
      assert forall k | 0 <= k < |front| :: offsets[k] == front[k];
      if offsets[m] < offsets[|offsets| - 1] {
        m := |offsets| - 1;
      }
    }
  }

  /** A page that ends with a row of the screen other than the last. */
  predicate EndsInnerRow(g: Geometry, offset: nat)
    requires IsScreen(g)
  {
    (offset + PAGE_SIZE) % g.line == 0 && offset + PAGE_SIZE < Size(g)
  }

  /** The last reported row is that of the greatest page. */
  lemma BottomOfGreatest(g: Geometry, offsets: seq<nat>, a: Area, m: nat)
    requires IsScreen(g) && ArePages(g, offsets) && Reports(g, offsets, a) && IsGreatest(offsets, m)
    ensures a.y2 == EndRow(g, offsets[m])
  {
    BottomRow(g, offsets, a);
    var j :| 0 <= j < |offsets| && a.y2 == EndRow(g, offsets[j]);
    RowsMono(g, offsets[j] + PAGE_SIZE, offsets[m] + PAGE_SIZE);
  }

  /** The last reported row is untouched exactly if the greatest page ends with a row of the screen other than the
      last. */
  lemma BottomExactly(g: Geometry, offsets: seq<nat>, a: Area, m: nat)
    requires IsScreen(g) && ArePages(g, offsets) && Reports(g, offsets, a) && IsGreatest(offsets, m)
    ensures Touches(g, offsets, a.y2) <==> !EndsInnerRow(g, offsets[m])
  {
    var end := offsets[m] + PAGE_SIZE;
    assert IsPage(g, offsets[m]);
    BottomOfGreatest(g, offsets, a, m);
    EndRowExactly(g, offsets[m]);
    if EndsInnerRow(g, offsets[m]) {
      RowBefore(g, end);
      RowInside(g, end);
      assert a.y2 * g.line == end;
      if Touches(g, offsets, a.y2) {
        var k := TouchedEnd(g, offsets, a.y2);
      }
    } else {
      EndsTouched(g, offsets, m);
    }
  }

  /** The reported rows lie on the screen and contain every touched row. The first is the first touched row. The last
      is the last touched row, or, exactly if the greatest page ends with an inner row of the screen, the one behind. */
  lemma RowsExactly(g: Geometry, offsets: seq<nat>, a: Area, m: nat)
    requires IsScreen(g) && ArePages(g, offsets) && Reports(g, offsets, a) && IsGreatest(offsets, m)
    ensures 0 <= a.y1 <= a.y2 <= g.yres - 1
    ensures forall row | Touches(g, offsets, row) :: a.y1 <= row <= a.y2
    ensures Touches(g, offsets, a.y1)
    ensures if EndsInnerRow(g, offsets[m]) then !Touches(g, offsets, a.y2) && Touches(g, offsets, a.y2 - 1)
            else Touches(g, offsets, a.y2)
  {
    TouchedReported(g, offsets, a);
    TopRow(g, offsets, a);
    var k :| 0 <= k < |offsets| && a.y1 == RowOf(g, offsets[k]);
    EndsTouched(g, offsets, k);
    BottomOfGreatest(g, offsets, a, m);
    EndsTouched(g, offsets, m);
    EndRowExactly(g, offsets[m]);
    BottomExactly(g, offsets, a, m);
  }

  /** On the driver's own screen: the page at 57344 ends with row 63, and row 64 is reported too. */
  lemma ExtraRow(offset: nat, a: Area)
    requires offset == 57344 && Reports(DRIVER, [offset], a)
    ensures ArePages(DRIVER, [offset]) && a.y2 == 64 && !Touches(DRIVER, [offset], 64)
  {
    var g, offsets := DRIVER, [offset];
    DriverPage(g, offset);
    assert ArePages(g, offsets) && IsGreatest(offsets, 0) && offsets[0] == offset;
    BottomOfGreatest(g, offsets, a, 0);
    BottomExactly(g, offsets, a, 0);
  }

  lemma DriverPage(g: Geometry, offset: nat)
    requires g == DRIVER && offset == 57344
    ensures IsPage(g, offset) && EndRow(g, offset) == 64 && EndsInnerRow(g, offset)
  {
    DivModUnique(offset, PAGE_SIZE, 14, 0);
    DivModUnique(offset + PAGE_SIZE, g.line, 64, 0);
  }

  /** The full width is reported for every list of pages exactly if a page holds two lines, unless the screen is one
      pixel wide or lower than three rows. */
  lemma FullWidthExactly(g: Geometry)
    requires IsScreen(g)
    ensures (forall offsets, a | ArePages(g, offsets) && Reports(g, offsets, a) :: a.x2 == g.xres - 1) <==>
            g.xres == 1 || (3 <= g.yres && 2 * g.line <= PAGE_SIZE)
  {
    if g.xres == 1 || (3 <= g.yres && 2 * g.line <= PAGE_SIZE) {
      forall offsets, a | ArePages(g, offsets) && Reports(g, offsets, a)
        ensures a.x2 == g.xres - 1
      {
        var end := offsets[|offsets| - 1] + PAGE_SIZE;
        if 2 * g.line <= PAGE_SIZE {
          QuotientAtLeast(end, g.line, 2);
        }
      }
    } else {
      var offsets := [0];
      MulMono(1, g.yres, g.line);
      assert ArePages(g, offsets);
      var a := DeferredArea(g, offsets);
      if PAGE_SIZE < 2 * g.line {
        RowBelow(g, PAGE_SIZE, 2);
      }
      assert a.x2 != g.xres - 1;
    }
  }

  lemma RowBelow(g: Geometry, at: nat, n: nat)
    requires IsScreen(g) && at < n * g.line
    ensures RowOf(g, at) < n
  {
    var r := RowOf(g, at);
    assert r * g.line <= at;
    if r >= n {
      MulMono(n, r, g.line);
    }
  }

  /** What is reported for a single page. */
  lemma DeferredArea(g: Geometry, offsets: seq<nat>) returns (a: Area)
    requires IsScreen(g) && |offsets| == 1 && ArePages(g, offsets)
    ensures Reports(g, offsets, a)
  {
    var o := offsets[0];
    assert IsPage(g, o);
    EndRowExactly(g, o);
    RowInside(g, o);
    a := Area(0, RowOf(g, o), if EndRow(g, o) > 1 then g.xres - 1 else 0, EndRow(g, o));
    assert a.y1 == RowOf(g, offsets[0]) && a.y2 == EndRow(g, offsets[0]);
  }

  // ---------------------------------------------------------------- what a flush covers

  predicate Inside(a: Area, x: int, y: int) {
    a.x1 <= x <= a.x2 && a.y1 <= y <= a.y2
  }

  /** Every pixel with a byte in one of the pages lies in the reported rectangle. */
  lemma TouchedInside(g: Geometry, width: nat, offsets: seq<nat>, a: Area, k: nat, x: nat, y: nat, at: nat)
    requires IsScreen(g) && g.xres * width <= g.line && ArePages(g, offsets) && Reports(g, offsets, a)
    requires k < |offsets| && InPage(g, offsets[k], at)
    requires x < g.xres && y < g.yres && y * g.line + x * width <= at < y * g.line + x * width + width
    ensures a.y1 <= y <= a.y2
    ensures (g.xres == 1 || (3 <= g.yres && 2 * g.line <= PAGE_SIZE)) ==> Inside(a, x, y)
  {
    MulMono(0, x, width);
    MulMono(x + 1, g.xres, width);
    MulDistrib(x, 1, width);
    DivModUnique(at, g.line, y, at - y * g.line);
    assert RowOf(g, at) == y;
    assert Touches(g, offsets, y);
    TouchedReported(g, offsets, a);
    FullWidthExactly(g);
  }
}
