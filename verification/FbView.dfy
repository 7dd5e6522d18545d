/** fbview: converts a raw frame to packed RGB, and scales it down for a terminal. */
module FbView {
  import opened Bytes

  datatype Error = ShortFrame | Unsupported | NegativeShift

  // ---------------------------------------------------------------- the converter

  /** An offset and a length. */
  datatype Channel = Channel(offset: nat, length: nat)

  const RGB565 := [Channel(11, 5), Channel(5, 6), Channel(0, 5)]
  const RGB888 := [Channel(16, 8), Channel(8, 8), Channel(0, 8)]

  /** Five or six bits widened to eight by repeating the top ones; the two parts do not overlap. */
  function Widen5(v: nat): nat {
    v * 8 + v / 4
  }

  function Widen6(v: nat): nat {
    v * 4 + v / 16
  }

  function Entry565(p: nat): (r: seq<byte>)
    requires p < 0x1_0000
    ensures |r| == 3
  {
    [Widen5(p / 0x800 % 0x20), Widen6(p / 0x20 % 0x40), Widen5(p % 0x20)]
  }

  /** `((p & mask) >> offset) << (8 - length)`, with `mask` the bits of the field. */
  function Shifted(p: nat, c: Channel): nat
    requires c.length <= 8
  {
    p / Pow2(c.offset) % Pow2(c.length) * Pow2(8 - c.length)
  }

  lemma ShiftedIsByte(p: nat, c: Channel)
    requires c.length <= 8
    ensures Shifted(p, c) < 0x100
  {
    assert Pow2(0) == 1;
    assert Pow2(4) == 16;
    assert Pow2(8) == 256;
    assert Pow2(c.length) * Pow2(8 - c.length) == 256;
    var v := p / Pow2(c.offset) % Pow2(c.length);
    MulMono(v + 1, Pow2(c.length), Pow2(8 - c.length));
    MulDistrib(v, 1, Pow2(8 - c.length));
  }

  function Triple32(p: nat, channels: seq<Channel>): (r: seq<byte>)
    requires |channels| == 3 && forall i | 0 <= i < 3 :: channels[i].length <= 8
    ensures |r| == 3
  {
    ShiftedIsByte(p, channels[0]);
    ShiftedIsByte(p, channels[1]);
    ShiftedIsByte(p, channels[2]);
    [Shifted(p, channels[0]), Shifted(p, channels[1]), Shifted(p, channels[2])]
  }

  /** The formats that convert knows: the table, the slices, the shifts. */
  datatype Format = Table | Slices | Shifts | Unknown

  function FormatOf(bpp: nat, channels: seq<Channel>): Format {
    if bpp == 16 && channels == RGB565 then Table
    else if bpp == 24 && channels == RGB888 then Slices
    else if bpp == 32 then Shifts
    else Unknown
  }

  function Width(f: Format): nat {
    match f
    case Table => 2
    case Slices => 3
    case Shifts => 4
    case Unknown => 0
  }

  predicate Shiftable(f: Format, channels: seq<Channel>) {
    f.Shifts? ==> |channels| == 3 && forall i | 0 <= i < 3 :: channels[i].length <= 8
  }

  /** The output bytes of the pixel stored at `at`. */
  function ViewTriple(f: Format, channels: seq<Channel>, data: seq<byte>, at: nat): (r: seq<byte>)
    requires at + Width(f) <= |data| && Shiftable(f, channels)
    ensures |r| == 3
  {
    match f
    case Table => Entry565(Load(data, at, 2))
    case Slices => [data[at + 2], data[at + 1], data[at]]
    case Shifts => Triple32(Load(data, at, 4), channels)
    case Unknown => [0, 0, 0]
  }

  /** The output for the first `n` pixels of a frame. */
  function ViewBody(f: Format, channels: seq<Channel>, data: seq<byte>, n: nat): (r: seq<byte>)
    requires n * Width(f) <= |data| && Shiftable(f, channels)
    ensures |r| == 3 * n
  {
    if n == 0 then []
    else
      MulDistrib(n - 1, 1, Width(f));
      MulMono(0, n - 1, Width(f));
      ViewBody(f, channels, data, n - 1) + ViewTriple(f, channels, data, (n - 1) * Width(f))
  }

  /** What convert returns or raises: a frame shorter than its pixels cannot be unpacked, and a channel of more than
      eight bits makes the first shift negative. */
  function Converted(bpp: nat, channels: seq<Channel>, data: seq<byte>, n: nat): Result<seq<byte>, Error>
    requires |channels| == 3
  {
    var f := FormatOf(bpp, channels);
    if f.Unknown? then Err(Unsupported)
    else if |data| < n * Width(f) then Err(ShortFrame)
    else if f.Shifts? && n > 0 && !Shiftable(f, channels) then Err(NegativeShift)
    else if n == 0 then Ok([])
    else Ok(ViewBody(f, channels, data, n))
  }

  // ---------------------------------------------------------------- what comes out, in numbers

  lemma CellInside(n: nat, k: nat, width: nat, size: nat)
    requires n * width <= size && k < n
    ensures 0 <= k * width && k * width + width <= size
  {
    MulMono(0, k, width);
    MulDistrib(k, 1, width);
    MulMono(k + 1, n, width);
  }

  lemma {:induction false} ViewAt(f: Format, channels: seq<Channel>, data: seq<byte>, n: nat, k: nat)
    requires n * Width(f) <= |data| && Shiftable(f, channels) && k < n
    ensures 0 <= k * Width(f) && k * Width(f) + Width(f) <= |data|
    ensures ViewBody(f, channels, data, n)[3 * k..3 * k + 3] == ViewTriple(f, channels, data, k * Width(f))
  {
    CellInside(n, k, Width(f), |data|);
    CellInside(n, n - 1, Width(f), |data|);
    var whole, front := ViewBody(f, channels, data, n), ViewBody(f, channels, data, n - 1);
    TripleAt(whole, front, ViewTriple(f, channels, data, (n - 1) * Width(f)), n - 1, k);
    if k == n - 1 {
    } else {
      ViewAt(f, channels, data, n - 1, k);
    }
  }

  lemma TripleAt(whole: seq<byte>, front: seq<byte>, last: seq<byte>, n: nat, k: nat)
    requires |front| == 3 * n && |last| == 3 && k <= n && whole == front + last
    ensures whole[3 * k..3 * k + 3] == if k < n then front[3 * k..3 * k + 3] else last
  {
  }

  /** Which frames are converted, and the error for the others. */
  lemma OutcomeExactly(bpp: nat, channels: seq<Channel>, data: seq<byte>, n: nat)
    requires |channels| == 3
    ensures var known16 := bpp == 16 && channels == [Channel(11, 5), Channel(5, 6), Channel(0, 5)];
            var known24 := bpp == 24 && channels == [Channel(16, 8), Channel(8, 8), Channel(0, 8)];
            var bytes := if known16 then 2 else if known24 then 3 else 4;
            var wide := channels[0].length > 8 || channels[1].length > 8 || channels[2].length > 8;
            var r := Converted(bpp, channels, data, n);
            && (r == Err(Unsupported) <==> !known16 && !known24 && bpp != 32)
            && (r == Err(ShortFrame) <==> (known16 || known24 || bpp == 32) && |data| < n * bytes)
            && (r == Err(NegativeShift) <==> bpp == 32 && |data| >= n * 4 && n > 0 && wide)
            && (r.Ok? ==> |r.value| == 3 * n)
  {
  }

  /** The colour of a 16-bit pixel: its parts of five, six and five bits, their top bits repeated below. */
  lemma EntryExactly(p: nat)
    requires p < 0x1_0000
    ensures Entry565(p) ==
            [p / 2048 % 32 * 8 + p / 2048 % 32 / 4, p / 32 % 64 * 4 + p / 32 % 64 / 16, p % 32 * 8 + p % 32 / 4]
  {
  }

  /** The k-th pixel of a frame of 16 bits. */
  lemma PixelOf565(data: seq<byte>, n: nat, k: nat)
    requires n * 2 <= |data| && k < n
    ensures var r := Converted(16, RGB565, data, n);
            && r.Ok? && |r.value| == 3 * n
            && r.value[3 * k..3 * k + 3] == Entry565(Word16(data[2 * k], data[2 * k + 1]))
  {
    ViewAt(Table, RGB565, data, n, k);
    LoadHalf(data, 2 * k);
  }

  /** Of 24 bits: its bytes in the opposite order. */
  lemma PixelOf888(data: seq<byte>, n: nat, k: nat)
    requires n * 3 <= |data| && k < n
    ensures var r := Converted(24, RGB888, data, n);
            && r.Ok? && |r.value| == 3 * n
            && r.value[3 * k..3 * k + 3] == [data[3 * k + 2], data[3 * k + 1], data[3 * k]]
  {
    ViewAt(Slices, RGB888, data, n, k);
  }

  lemma ShiftsTriple(channels: seq<Channel>, data: seq<byte>, at: nat)
    requires |channels| == 3 && forall i | 0 <= i < 3 :: channels[i].length <= 8
    requires at + 4 <= |data|
    ensures var p := Word32(data[at], data[at + 1], data[at + 2], data[at + 3]);
            ViewTriple(Shifts, channels, data, at) ==
            [Shifted(p, channels[0]), Shifted(p, channels[1]), Shifted(p, channels[2])]
  {
    LoadWord(data, at);
  }

  lemma ShiftsConverted(channels: seq<Channel>, data: seq<byte>, n: nat)
    requires |channels| == 3 && forall i | 0 <= i < 3 :: channels[i].length <= 8
    requires 0 < n && n * 4 <= |data|
    ensures Converted(32, channels, data, n) == Ok(ViewBody(Shifts, channels, data, n))
  {
  }

  /** Of 32 bits: its channels, shifted up. */
  lemma PixelOf32(channels: seq<Channel>, data: seq<byte>, n: nat, k: nat)
    requires |channels| == 3 && forall i | 0 <= i < 3 :: channels[i].length <= 8
    requires n * 4 <= |data| && k < n
    ensures var r := Converted(32, channels, data, n);
            var p := Word32(data[4 * k], data[4 * k + 1], data[4 * k + 2], data[4 * k + 3]);
            && r.Ok? && |r.value| == 3 * n
            && r.value[3 * k..3 * k + 3] == [Shifted(p, channels[0]), Shifted(p, channels[1]), Shifted(p, channels[2])]
  {
    ShiftsConverted(channels, data, n);
    ViewAt(Shifts, channels, data, n, k);
    ShiftsTriple(channels, data, 4 * k);
  }

  lemma Regroup(x: int, m: int, e: int)
    ensures x * (m * (2 * e)) == 2 * (x * e) * m
  {
  }

  lemma ZeroBelow(x: nat, m: nat, e: nat)
    requires 0 < m
    ensures 0 <= x * (m * (2 * e)) && x * (m * (2 * e)) / m % 2 == 0
  {
    MulMono(0, x, e);
    Regroup(x, m, e);
    EvenQuotient(x * e, m);
  }

  lemma EvenQuotient(y: nat, m: nat)
    requires 0 < m
    ensures 0 <= 2 * y * m && 2 * y * m / m % 2 == 0
  {
    MulMono(0, 2 * y, m);
    DivModUnique(2 * y * m, m, 2 * y, 0);
  }

  lemma ShiftedDown(x: nat, n: nat, m: nat)
    requires 0 < n && 0 < m
    ensures 0 < m * n && 0 <= x * n && x * n / (m * n) == x / m
  {
    var q, r := x / m, x % m;
    MulAtLeast(m, n);
    MulMono(0, x, n);
    MulMono(0, r, n);
    MulMono(r + 1, m, n);
    MulDistrib(r, 1, n);
    MulDistrib(q * m, r, n);
    MulAssoc(q, m, n);
    DivModUnique(x * n, m * n, q, r * n);
  }

  lemma BitOfRemainder(v: nat, m: nat, e: nat, big: nat)
    requires 0 < m && 0 < e && 0 < big == m * (2 * e)
    ensures v % big / m % 2 == v / m % 2
  {
    var a, x := v / big, v % big;
    var y: nat, q, r := a * e, x / m, x % m;
    Regroup(a, m, e);
    assert v == 2 * y * m + (q * m + r);
    MulDistrib(2 * y, q, m);
    DivModUnique(v, m, 2 * y + q, r);
    EvenPlus(y, q);
  }

  lemma EvenPlus(a: int, q: int)
    ensures (2 * a + q) % 2 == q % 2
  {
  }

  lemma Pow2Split(n: nat, k: nat)
    requires k < n
    ensures Pow2(n) == Pow2(k) * (2 * Pow2(n - k - 1))
  {
    Pow2Add(k, n - k);
  }

  lemma LowBits(x: nat, low: nat, k: nat)
    requires k < low
    ensures 0 <= x * Pow2(low) && x * Pow2(low) / Pow2(k) % 2 == 0
  {
    Pow2Split(low, k);
    ZeroBelow(x, Pow2(k), Pow2(low - k - 1));
  }

  lemma HighBits(x: nat, low: nat, k: nat)
    requires low <= k
    ensures 0 <= x * Pow2(low) && x * Pow2(low) / Pow2(k) == x / Pow2(k - low)
  {
    Pow2Add(k - low, low);
    ShiftedDown(x, Pow2(low), Pow2(k - low));
  }

  lemma FieldBits(v: nat, length: nat, j: nat)
    requires j < length
    ensures v % Pow2(length) / Pow2(j) % 2 == v / Pow2(j) % 2
  {
    Pow2Split(length, j);
    BitOfRemainder(v, Pow2(j), Pow2(length - j - 1), Pow2(length));
  }

  /** The bits of a shifted channel: its own from the top, and zeros below. */
  lemma ShiftedBits(p: nat, c: Channel, k: nat)
    requires c.length <= 8 && k < 8
    ensures Shifted(p, c) / Pow2(k) % 2 ==
            if k < 8 - c.length then 0 else p / Pow2(c.offset) / Pow2(k - (8 - c.length)) % 2
  {
    var v, low := p / Pow2(c.offset), 8 - c.length;
    if k < low {
      LowBits(v % Pow2(c.length), low, k);
    } else {
      HighBits(v % Pow2(c.length), low, k);
      FieldBits(v, c.length, k - low);
    }
  }

  class Converter {
    const w: nat
    const h: nat
    const bpp: nat
    const channels: seq<Channel>
    var table: array?<seq<byte>>

    ghost predicate Valid()
      reads this, table
    {
      && |channels| == 3
      && (table != null <==> FormatOf(bpp, channels).Table?)
      && (table != null ==>
            table.Length == 0x1_0000 && forall p | 0 <= p < 0x1_0000 :: table[p] == Entry565(p))
    }

    /** For the standard 16-bit format, tabulates the colour of every pixel value. */
    constructor (w: nat, h: nat, bpp: nat, channels: seq<Channel>)
      requires |channels| == 3
      ensures Valid() && this.w == w && this.h == h && this.bpp == bpp && this.channels == channels
    {
      this.w, this.h, this.bpp, this.channels := w, h, bpp, channels;
      table := null;
      new;
      if bpp == 16 && channels == RGB565 {
        table := BuildTable();
      }
    }

    static method BuildTable() returns (t: array<seq<byte>>)
      ensures fresh(t) && t.Length == 0x1_0000 && forall p | 0 <= p < 0x1_0000 :: t[p] == Entry565(p)
    {
      t := new seq<byte>[0x1_0000](i => []);
      var p := 0;
      while p < 0x1_0000
        invariant 0 <= p <= 0x1_0000
        invariant forall q | 0 <= q < p :: t[q] == Entry565(q)
      {
        var r, g, b := p / 0x800 % 0x20, p / 0x20 % 0x40, p % 0x20;
        t[p] := [r * 8 + r / 4, g * 4 + g / 16, b * 8 + b / 4];
        assert t[p] == Entry565(p);
        p := p + 1;
      }
    }

    /** The table path: every 16-bit word becomes its entry. */
    method ConvertTable(data: seq<byte>, n: nat) returns (out: seq<byte>)
      requires Valid() && table != null && n * 2 <= |data|
      ensures out == ViewBody(Table, channels, data, n)
    {
      out := [];
      var k := 0;
      while k < n
        invariant 0 <= k <= n
        invariant out == ViewBody(Table, channels, data, k)
      {
        LoadHalf(data, k * 2);
        out := out + table[Word16(data[k * 2], data[k * 2 + 1])];
        k := k + 1;
      }
    }

    /** The slice path: three strided copies into a fresh buffer. */
    method ConvertSlices(data: seq<byte>, n: nat) returns (out: seq<byte>)
      requires n * 3 <= |data|
      ensures out == ViewBody(Slices, channels, data, n)
    {
      var buf := new byte[n * 3](i => 0);
      CopyStrided(buf, 0, data, 2, n);
      CopyStrided(buf, 1, data, 1, n);
      CopyStrided(buf, 2, data, 0, n);
      out := buf[..];
      SlicesAreBody(channels, data, n, out);
    }

    /** The three assignments of _convert32 for one pixel. */
    method PutShifted(buf: array<byte>, k: nat, p: nat)
      requires Shiftable(Shifts, channels) && k + 3 <= buf.Length
      modifies buf
      ensures buf[..k + 3] == old(buf[..k]) + Triple32(p, channels)
    {
      ShiftedIsByte(p, channels[0]);
      ShiftedIsByte(p, channels[1]);
      ShiftedIsByte(p, channels[2]);
      buf[k] := Shifted(p, channels[0]);
      buf[k + 1] := Shifted(p, channels[1]);
      buf[k + 2] := Shifted(p, channels[2]);
      assert buf[..k + 3] == buf[..k] + [buf[k], buf[k + 1], buf[k + 2]];
    }

    /** One round of the loop in _convert32. */
    method ConvertNext(buf: array<byte>, data: seq<byte>, i: nat, k: nat)
      requires Shiftable(Shifts, channels) && i * 4 + 4 <= |data| && k == 3 * i && k + 3 <= buf.Length
      requires buf[..k] == ViewBody(Shifts, channels, data, i)
      modifies buf
      ensures buf[..k + 3] == ViewBody(Shifts, channels, data, i + 1)
    {
      LoadWord(data, i * 4);
      var p := Word32(data[i * 4], data[i * 4 + 1], data[i * 4 + 2], data[i * 4 + 3]);
      PutShifted(buf, k, p);
    }

    /** The loop in _convert32. */
    method ConvertAll(buf: array<byte>, data: seq<byte>, n: nat)
      requires Shiftable(Shifts, channels) && n * 4 <= |data| && buf.Length == n * 3
      modifies buf
      ensures buf[..] == ViewBody(Shifts, channels, data, n)
    {
      var i, k := 0, 0;
      while i < n
        invariant 0 <= i <= n && k == 3 * i
        invariant buf[..k] == ViewBody(Shifts, channels, data, i)
      {
        ConvertNext(buf, data, i, k);
        k := k + 3;
        i := i + 1;
      }
      WholeSlice(buf[..], k);
    }

    /** The shift path of _convert32. */
    method Convert32(data: seq<byte>, n: nat) returns (out: seq<byte>)
      requires Shiftable(Shifts, channels) && n * 4 <= |data|
      ensures out == ViewBody(Shifts, channels, data, n)
    {
      var buf := new byte[n * 3](i => 0);
      ConvertAll(buf, data, n);
      out := buf[..];
    }

    method Convert(data: seq<byte>) returns (r: Result<seq<byte>, Error>)
      requires Valid()
      ensures r == Converted(bpp, channels, data, w * h)
    {
      var n := w * h;
      if table != null {
        if |data| < n * 2 {
          return Err(ShortFrame);
        }
        var out := ConvertTable(data, n);
        return Ok(out);
      }
      if bpp == 24 && channels == RGB888 {
        if |data| < n * 3 {
          return Err(ShortFrame);
        }
        var out := ConvertSlices(data, n);
        return Ok(out);
      }
      if bpp == 32 {
        if |data| < n * 4 {
          return Err(ShortFrame);
        }
        if n > 0 && (channels[0].length > 8 || channels[1].length > 8 || channels[2].length > 8) {
          return Err(NegativeShift);
        }
        if n == 0 {
          return Ok([]);
        }
        var out := Convert32(data, n);
        return Ok(out);
      }
      r := Err(Unsupported);
    }
  }

  lemma WholeSlice<T>(s: seq<T>, k: nat)
    requires k == |s|
    ensures s[..k] == s
  {
  }

  /** `buf[to::3] = data[from::3]`, for `n` items. */
  method CopyStrided(buf: array<byte>, to: nat, data: seq<byte>, from: nat, n: nat)
    requires to < 3 && from < 3 && buf.Length == n * 3 && n * 3 <= |data|
    modifies buf
    ensures forall i | 0 <= i < n :: buf[i * 3 + to] == data[i * 3 + from]
    ensures forall i | 0 <= i < buf.Length && i % 3 != to :: buf[i] == old(buf[i])
  {
    var i := 0;
    while i < n
      invariant 0 <= i <= n
      invariant forall k | 0 <= k < i :: buf[k * 3 + to] == data[k * 3 + from]
      invariant forall k | 0 <= k < buf.Length && k % 3 != to :: buf[k] == old(buf[k])
    {
      buf[i * 3 + to] := data[i * 3 + from];
      i := i + 1;
    }
  }

  /** A buffer filled slice by slice holds the pixels one after the other. */
  lemma {:induction false} SlicesAreBody(channels: seq<Channel>, data: seq<byte>, n: nat, out: seq<byte>)
    requires n * 3 <= |data| && |out| == n * 3
    requires forall i | 0 <= i < n ::
               && out[i * 3 + 0] == data[i * 3 + 2]
               && out[i * 3 + 1] == data[i * 3 + 1]
               && out[i * 3 + 2] == data[i * 3 + 0]
    ensures out == ViewBody(Slices, channels, data, n)
  {
    if n == 0 {
    } else {
      var front := out[..(n - 1) * 3];
      SlicesAreBody(channels, data, n - 1, front);
      assert out == front + [out[(n - 1) * 3], out[(n - 1) * 3 + 1], out[(n - 1) * 3 + 2]];
    }
  }

  // ---------------------------------------------------------------- the terminal preview

  function Max(a: int, b: int): int {
    if a < b then b else a
  }

  function Min(a: int, b: int): int {
    if a < b then a else b
  }

  /** The foreground and the background colour of a half-block cell. */
  datatype Cell = Cell(upper: seq<byte>, lower: seq<byte>)

  function PixelRgb(rgb: seq<byte>, i: nat): seq<byte>
    requires i + 3 <= |rgb|
  {
    [rgb[i], rgb[i + 1], rgb[i + 2]]
  }

  /** Columns and rows sampled for a cell, as ansi_render computes them. */
  function CellWidth(w: nat, cols: nat): nat
    requires 0 < cols
  {
    Max(1, w / cols)
  }

  function CellHeight(h: nat, rows: nat): nat
    requires 0 < rows
  {
    Max(1, h / (rows * 2))
  }

  /** The middle of the column `tc`, before it is clamped. */
  function MiddleX(w: nat, cols: nat, tc: nat): int
    requires 0 < cols
  {
    tc * CellWidth(w, cols) + CellWidth(w, cols) / 2
  }

  /** The middle of half-row `s`: twice the text row, plus one for the lower half. */
  function MiddleY(h: nat, rows: nat, s: nat): int
    requires 0 < rows
  {
    s * CellHeight(h, rows) + CellHeight(h, rows) / 2
  }

  function SampleX(w: nat, cols: nat, tc: nat): int
    requires 0 < cols
  {
    Min(w - 1, MiddleX(w, cols, tc))
  }

  function SampleY(h: nat, rows: nat, s: nat): int
    requires 0 < rows
  {
    Min(h - 1, MiddleY(h, rows, s))
  }

  /** Every sample is a pixel of the image, whatever the terminal size. */
  lemma SamplesInside(w: nat, h: nat, cols: nat, rows: nat, tc: nat, s: nat)
    requires 0 < w && 0 < h && 0 < cols && 0 < rows
    ensures 0 <= SampleX(w, cols, tc) < w && 0 <= SampleY(h, rows, s) < h
    ensures 0 <= (SampleY(h, rows, s) * w + SampleX(w, cols, tc)) * 3
         && (SampleY(h, rows, s) * w + SampleX(w, cols, tc)) * 3 + 3 <= w * h * 3
  {
    var x, y := SampleX(w, cols, tc), SampleY(h, rows, s);
    MulMono(0, tc, CellWidth(w, cols));
    MulMono(0, s, CellHeight(h, rows));
    MulMono(0, y, w);
    MulMono(y + 1, h, w);
    MulDistrib(y, 1, w);
  }

  function SampledCell(rgb: seq<byte>, w: nat, h: nat, cols: nat, rows: nat, tr: nat, tc: nat): Cell
    requires 0 < w && 0 < h && 0 < cols && 0 < rows && |rgb| == w * h * 3
  {
    SamplesInside(w, h, cols, rows, tc, tr * 2);
    SamplesInside(w, h, cols, rows, tc, tr * 2 + 1);
    Cell(PixelRgb(rgb, (SampleY(h, rows, tr * 2) * w + SampleX(w, cols, tc)) * 3),
         PixelRgb(rgb, (SampleY(h, rows, tr * 2 + 1) * w + SampleX(w, cols, tc)) * 3))
  }

  /** What a cell shows, in the bytes of the image: in its upper half the pixel that the even half-row samples, in its
      lower half the one of the odd half-row. */
  predicate CellShows(rgb: seq<byte>, w: nat, h: nat, cols: nat, rows: nat, tr: nat, tc: nat, cell: Cell)
    requires 0 < cols && 0 < rows
  {
    var upper := (SampleY(h, rows, 2 * tr) * w + SampleX(w, cols, tc)) * 3;
    var lower := (SampleY(h, rows, 2 * tr + 1) * w + SampleX(w, cols, tc)) * 3;
    && 0 <= upper && upper + 3 <= |rgb| && cell.upper == rgb[upper..upper + 3]
    && 0 <= lower && lower + 3 <= |rgb| && cell.lower == rgb[lower..lower + 3]
  }

  lemma SampledCellShows(rgb: seq<byte>, w: nat, h: nat, cols: nat, rows: nat, tr: nat, tc: nat)
    requires 0 < w && 0 < h && 0 < cols && 0 < rows && |rgb| == w * h * 3
    ensures CellShows(rgb, w, h, cols, rows, tr, tc, SampledCell(rgb, w, h, cols, rows, tr, tc))
  {
    SamplesInside(w, h, cols, rows, tc, tr * 2);
    SamplesInside(w, h, cols, rows, tc, tr * 2 + 1);
  }

  /** The sampled column and row, in numbers: the middle of a block, or the last one of the image. */
  lemma SamplesExactly(w: nat, h: nat, cols: nat, rows: nat, tc: nat, s: nat)
    requires 0 < w && 0 < h && 0 < cols && 0 < rows
    ensures var cw, ch := if w < cols then 1 else w / cols, if h < rows * 2 then 1 else h / (rows * 2);
            && SampleX(w, cols, tc) == (if tc * cw + cw / 2 < w then tc * cw + cw / 2 else w - 1)
            && SampleY(h, rows, s) == (if s * ch + ch / 2 < h then s * ch + ch / 2 else h - 1)
  {
    StepExactly(w, cols);
    StepExactly(h, rows * 2);
  }

  lemma StepExactly(size: nat, n: nat)
    requires 0 < size && 0 < n
    ensures Max(1, size / n) == if size < n then 1 else size / n
  {
    if size < n {
      DivModUnique(size, n, 0, size);
    } else {
      QuotientAtLeast(size, n, 1);
    }
  }

  method AnsiRender(rgb: seq<byte>, w: nat, h: nat, cols: nat, rows: nat) returns (lines: seq<seq<Cell>>)
    requires 0 < w && 0 < h && 0 < cols && 0 < rows && |rgb| == w * h * 3
    ensures |lines| == rows
    ensures forall tr | 0 <= tr < rows ::
              |lines[tr]| == cols &&
              forall tc | 0 <= tc < cols :: lines[tr][tc] == SampledCell(rgb, w, h, cols, rows, tr, tc)
    ensures forall tr, tc | 0 <= tr < rows && 0 <= tc < cols ::
              CellShows(rgb, w, h, cols, rows, tr, tc, lines[tr][tc])
  {
    var cw, ch := Max(1, w / cols), Max(1, h / (rows * 2));
    lines := [];
    var tr := 0;
    while tr < rows
      invariant 0 <= tr <= rows && |lines| == tr
      invariant forall r | 0 <= r < tr ::
          |lines[r]| == cols &&
          forall tc | 0 <= tc < cols :: lines[r][tc] == SampledCell(rgb, w, h, cols, rows, r, tc)
    {
      var cells: seq<Cell> := [];
      var tc := 0;
      while tc < cols
        invariant 0 <= tc <= cols && |cells| == tc
        invariant forall c | 0 <= c < tc :: cells[c] == SampledCell(rgb, w, h, cols, rows, tr, c)
      {
        SamplesInside(w, h, cols, rows, tc, tr * 2);
        SamplesInside(w, h, cols, rows, tc, tr * 2 + 1);
        MulAssoc(tr, 2, ch);
        var x := Min(w - 1, tc * cw + cw / 2);
        var y0 := Min(h - 1, tr * 2 * ch + ch / 2);
        var y1 := Min(h - 1, (tr * 2 + 1) * ch + ch / 2);
        var i0, i1 := (y0 * w + x) * 3, (y1 * w + x) * 3;
        cells := cells + [Cell([rgb[i0], rgb[i0 + 1], rgb[i0 + 2]], [rgb[i1], rgb[i1 + 1], rgb[i1 + 2]])];
        tc := tc + 1;
      }
      lines := lines + [cells];
      tr := tr + 1;
    }
    forall tr, tc | 0 <= tr < rows && 0 <= tc < cols
      ensures CellShows(rgb, w, h, cols, rows, tr, tc, lines[tr][tc])
    {
      SampledCellShows(rgb, w, h, cols, rows, tr, tc);
    }
  }

  function CeilDiv(a: nat, b: nat): nat
    requires 0 < b
  {
    (a + b - 1) / b
  }

  /** The downscale that keeps the aspect ratio, and the grid it leaves. */
  function CellSize(w: nat, h: nat, maxCols: nat, maxRows: nat): nat
    requires 0 < maxCols && 0 < maxRows
  {
    Max(1, Max(CeilDiv(w, maxCols), CeilDiv(h, maxRows * 2)))
  }

  function Cols(w: nat, cell: nat): nat
    requires 0 < cell
  {
    Max(1, w / cell)
  }

  function TextRows(h: nat, cell: nat): nat
    requires 0 < cell
  {
    Max(1, h / (cell * 2))
  }

  lemma CeilDivFits(a: nat, b: nat, c: nat)
    requires 0 < b
    ensures CeilDiv(a, b) <= c <==> a <= c * b
  {
    var q, r := (a + b - 1) / b, (a + b - 1) % b;
    assert a + b - 1 == q * b + r;
    if q <= c {
      MulMono(q, c, b);
    } else {
      MulMono(c + 1, q, b);
      MulDistrib(c, 1, b);
    }
  }

  /** The cell size is the least whole number of pixels for which the image fits into the terminal, and the grid that
      is left respects both bounds. */
  lemma CellSizeIsLeast(w: nat, h: nat, maxCols: nat, maxRows: nat, c: nat)
    requires 0 < maxCols && 0 < maxRows
    ensures var cell := CellSize(w, h, maxCols, maxRows);
            && 0 < cell
            && w <= cell * maxCols && h <= cell * (maxRows * 2)
            && (0 < c && w <= c * maxCols && h <= c * (maxRows * 2) ==> cell <= c)
            && Cols(w, cell) <= maxCols && TextRows(h, cell) <= maxRows
  {
    var cell := CellSize(w, h, maxCols, maxRows);
    CeilDivFits(w, maxCols, cell);
    CeilDivFits(h, maxRows * 2, cell);
    CeilDivFits(w, maxCols, c);
    CeilDivFits(h, maxRows * 2, c);
    QuotientWithin(w, cell, maxCols);
    assert cell * (maxRows * 2) == cell * 2 * maxRows;
    QuotientWithin(h, cell * 2, maxRows);
  }

  /** The grid has as many whole cells as the image, or one. */
  lemma GridIsGreatest(w: nat, h: nat, cell: nat)
    requires 0 < cell
    ensures var cols, rows := Cols(w, cell), TextRows(h, cell);
            && (if w < cell then cols == 1 else cols * cell <= w < (cols + 1) * cell)
            && (if h < cell * 2 then rows == 1 else rows * (cell * 2) <= h < (rows + 1) * (cell * 2))
  {
    GreatestWhole(w, cell);
    GreatestWhole(h, cell * 2);
  }

  /** The greatest number of whole blocks, or one. */
  lemma GreatestWhole(size: nat, block: nat)
    requires 0 < block
    ensures var n := Max(1, size / block); if size < block then n == 1 else n * block <= size < (n + 1) * block
  {
    var q := size / block;
    MulDistrib(q, 1, block);
    if size < block {
      DivModUnique(size, block, 0, size);
    } else {
      QuotientAtLeast(size, block, 1);
    }
  }

  /** The step between the samples of a side of `size` pixels for `n` of them. */
  function StepOf(size: nat, n: nat): nat
    requires 0 < n
  {
    Max(1, size / n)
  }

  /** A grid no finer than the pixels is sampled without clamping. */
  lemma StepsInside(size: nat, n: nat, k: nat)
    requires 0 < n <= size && k < n
    ensures k * StepOf(size, n) + StepOf(size, n) / 2 <= size - 1
  {
    var step := StepOf(size, n);
    QuotientAtLeast(size, n, 1);
    MulDistrib(k, 1, step);
    MulMono(k + 1, n, step);
    assert n * (size / n) <= size;
  }

  /** A finer one is not: the last sample would be behind the image. */
  lemma StepsOutside(size: nat, n: nat)
    requires 0 < size < n
    ensures (n - 1) * StepOf(size, n) + StepOf(size, n) / 2 > size - 1
  {
    DivModUnique(size, n, 0, size);
  }

  /** The clamps of ansi_render, for any grid, with or without --fill: the column clamp is idle exactly if there are no
      more columns than pixels, the row clamp exactly if there are no more half-rows. */
  lemma ClampExactly(w: nat, h: nat, cols: nat, rows: nat)
    requires 0 < w && 0 < h && 0 < cols && 0 < rows
    ensures (forall tc | 0 <= tc < cols :: MiddleX(w, cols, tc) <= w - 1) <==> cols <= w
    ensures (forall s | 0 <= s < 2 * rows :: MiddleY(h, rows, s) <= h - 1) <==> 2 * rows <= h
  {
    if cols <= w {
      forall tc | 0 <= tc < cols
        ensures MiddleX(w, cols, tc) <= w - 1
      {
        StepsInside(w, cols, tc);
      }
    } else {
      StepsOutside(w, cols);
      assert MiddleX(w, cols, cols - 1) > w - 1;
    }
    if 2 * rows <= h {
      forall s | 0 <= s < 2 * rows
        ensures MiddleY(h, rows, s) <= h - 1
      {
        StepsInside(h, rows * 2, s);
      }
    } else {
      StepsOutside(h, rows * 2);
      assert MiddleY(h, rows, 2 * rows - 1) > h - 1;
    }
  }

  /** Where no clamp is needed, every sample lies in the block of its own cell, and the samples strictly increase. */
  lemma SamplesIncrease(w: nat, h: nat, cols: nat, rows: nat, tc: nat, s: nat)
    requires 0 < cols <= w && 0 < rows && tc < cols && s < 2 * rows <= h
    ensures var cw, ch := CellWidth(w, cols), CellHeight(h, rows);
            && tc * cw <= SampleX(w, cols, tc) < (tc + 1) * cw
            && s * ch <= SampleY(h, rows, s) < (s + 1) * ch
            && (tc + 1 < cols ==> SampleX(w, cols, tc) < SampleX(w, cols, tc + 1))
            && (s + 1 < 2 * rows ==> SampleY(h, rows, s) < SampleY(h, rows, s + 1))
  {
    var cw, ch := CellWidth(w, cols), CellHeight(h, rows);
    ClampExactly(w, h, cols, rows);
    assert MiddleX(w, cols, tc) <= w - 1 && MiddleY(h, rows, s) <= h - 1;
    MulDistrib(tc, 1, cw);
    MulDistrib(s, 1, ch);
    assert tc + 1 < cols ==> MiddleX(w, cols, tc + 1) <= w - 1;
    assert s + 1 < 2 * rows ==> MiddleY(h, rows, s + 1) <= h - 1;
  }

  /** Without --fill, there are never more columns than pixels, and more half-rows exactly for an image of a single
      row: the only one that needs a clamp. */
  lemma PreviewClampExactly(w: nat, h: nat, maxCols: nat, maxRows: nat)
    requires 0 < w && 0 < h && 0 < maxCols && 0 < maxRows
    ensures var cell := CellSize(w, h, maxCols, maxRows);
            var cols, rows := Cols(w, cell), TextRows(h, cell);
            && (forall tc | 0 <= tc < cols :: MiddleX(w, cols, tc) <= w - 1)
            && ((forall s | 0 <= s < 2 * rows :: MiddleY(h, rows, s) <= h - 1) <==> 2 <= h)
  {
    var cell := CellSize(w, h, maxCols, maxRows);
    GridWithin(w, cell);
    HalfRowsWithin(h, cell);
    ClampExactly(w, h, Cols(w, cell), TextRows(h, cell));
  }

  lemma GridWithin(w: nat, cell: nat)
    requires 0 < w && 0 < cell
    ensures Cols(w, cell) <= w
  {
    MulMono(1, cell, w / cell);
  }

  lemma HalfRowsWithin(h: nat, cell: nat)
    requires 0 < h && 0 < cell
    ensures TextRows(h, cell) * 2 <= h <==> 2 <= h
  {
    MulMono(2, cell * 2, h / (cell * 2));
  }
}
