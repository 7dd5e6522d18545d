/** What the dumps mean, pixel by pixel, and what is in the colormap. */
module FbCatProperties {
  import opened Bytes
  import opened FbCat

  // ---------------------------------------------------------------- pixels of the output

  lemma {:induction false} RowBodyAt(mem: seq<byte>, info: VarInfo, cmap: Colormap, line: nat, y: nat, n: nat, x: nat)
    requires Readable(|mem|, info, line) && FieldsFit(info) && IsColormap(cmap)
    requires x < n <= info.xres && y < info.yres
    ensures RowBody(mem, info, cmap, line, y, n)[3 * x..3 * x + 3] == Triple(mem, info, cmap, line, x, y)
  {
    if x == n - 1 {
    } else {
      RowBodyAt(mem, info, cmap, line, y, n - 1, x);
      assert RowBody(mem, info, cmap, line, y, n)[3 * x..3 * x + 3]
          == RowBody(mem, info, cmap, line, y, n - 1)[3 * x..3 * x + 3];
    }
  }

  lemma {:induction false} BodyRow(mem: seq<byte>, info: VarInfo, cmap: Colormap, line: nat, n: nat, y: nat)
    requires Readable(|mem|, info, line) && FieldsFit(info) && IsColormap(cmap) && y < n <= info.yres
    ensures var w := 3 * info.xres;
            && 0 <= y * w && y * w + w <= n * w
            && Body(mem, info, cmap, line, n)[y * w..y * w + w] == RowBody(mem, info, cmap, line, y, info.xres)
  {
    var w := 3 * info.xres;
    MulMono(0, y, w);
    MulDistrib(y, 1, w);
    MulMono(y + 1, n, w);
    MulDistrib(n - 1, 1, w);
    if y == n - 1 {
    } else {
      BodyRow(mem, info, cmap, line, n - 1, y);
      assert Body(mem, info, cmap, line, n)[y * w..y * w + w] == Body(mem, info, cmap, line, n - 1)[y * w..y * w + w];
    }
  }

  /** Pixel (x, y) of the image is the decoded pixel (x, y) of the visible part of the framebuffer. */
  lemma ImagePixel(mem: seq<byte>, info: VarInfo, cmap: Colormap, line: nat, x: nat, y: nat)
    requires Readable(|mem|, info, line) && FieldsFit(info) && IsColormap(cmap)
    requires x < info.xres && y < info.yres
    ensures var at, body := y * (3 * info.xres) + 3 * x, Body(mem, info, cmap, line, info.yres);
            && 0 <= at && at + 3 <= |body|
            && body[at..at + 3] == Triple(mem, info, cmap, line, x, y)
  {
    var w, body := 3 * info.xres, Body(mem, info, cmap, line, info.yres);
    BodyRow(mem, info, cmap, line, info.yres, y);
    RowBodyAt(mem, info, cmap, line, y, info.xres, x);
    SliceOfSlice(body, RowBody(mem, info, cmap, line, y, info.xres), Triple(mem, info, cmap, line, x, y), y * w, 3 * x);
  }

  lemma SliceOfSlice<T>(whole: seq<T>, part: seq<T>, piece: seq<T>, lo: nat, a: nat)
    requires lo + |part| <= |whole| && whole[lo..lo + |part|] == part
    requires a + |piece| <= |part| && part[a..a + |piece|] == piece
    ensures whole[lo + a..lo + a + |piece|] == piece
  {
    forall i | 0 <= i < |piece|
      ensures whole[lo + a + i] == piece[i]
    {
      assert part[a + i] == whole[lo..lo + |part|][a + i];
      assert piece[i] == part[a..a + |piece|][i];
    }
  }

  lemma {:induction false} MonoRowAt(mem: seq<byte>, info: VarInfo, black: bool, line: nat, y: nat, n: nat, k: nat)
    requires MonoReadable(|mem|, info, line) && k < n <= BytesPerRow(info) && y < info.yres
    ensures MonoRow(mem, info, black, line, y, n)[k] == MonoByte(mem, info, black, line, k, y)
  {
    if k == n - 1 {
    } else {
      MonoRowAt(mem, info, black, line, y, n - 1, k);
    }
  }

  lemma {:induction false} MonoBodyAt(mem: seq<byte>, info: VarInfo, black: bool, line: nat, n: nat, y: nat, k: nat)
    requires MonoReadable(|mem|, info, line) && k < BytesPerRow(info) && y < n <= info.yres
    ensures 0 <= y * BytesPerRow(info) && y * BytesPerRow(info) + k < n * BytesPerRow(info)
    ensures MonoBody(mem, info, black, line, n)[y * BytesPerRow(info) + k] == MonoByte(mem, info, black, line, k, y)
  {
    var w := BytesPerRow(info);
    MulMono(0, y, w);
    MulDistrib(y, 1, w);
    MulMono(y + 1, n, w);
    MulDistrib(n - 1, 1, w);
    if y < n - 1 {
      MonoBodyAt(mem, info, black, line, n - 1, y, k);
    } else {
      MonoRowAt(mem, info, black, line, y, w, k);
    }
  }

  /** Pixel x of output row y, the most significant bit first, is the bit of the visible pixel in the framebuffer, the
      least significant bit first, negated exactly when black is zero. */
  lemma MonoPixel(mem: seq<byte>, info: VarInfo, black: bool, line: nat, x: nat, y: nat)
    requires MonoReadable(|mem|, info, line) && x < info.xres && y < info.yres && info.xoffset % 8 == 0
    ensures var out := MonoBody(mem, info, black, line, info.yres);
            var from, to := (y + info.yoffset) * line + (info.xoffset + x) / 8, y * ((info.xres + 7) / 8) + x / 8;
            && 0 <= from < |mem| && 0 <= to < |out|
            && (HasBit(out[to], 7 - x % 8) <==> HasBit(mem[from], (info.xoffset + x) % 8) != black)
  {
    var k := x / 8;
    assert (info.xoffset + x) / 8 == info.xoffset / 8 + k && (info.xoffset + x) % 8 == x % 8;
    MonoBodyAt(mem, info, black, line, info.yres, y, k);
    MonoInside(|mem|, info, line, k, y);
    var b := mem[MonoAt(info, line, k, y)];
    ReverseBitsReverses(b, 7 - x % 8);
    ComplementBit(ReverseBits(b), 7 - x % 8);
  }

  // ---------------------------------------------------------------- the colormap

  lemma QuotientsIncrease(i: nat, j: nat, n: nat)
    requires 0 < n <= 0xFFFF && i < j
    ensures i * 0xFFFF / n < j * 0xFFFF / n
  {
    var a, b := i * 0xFFFF, j * 0xFFFF;
    assert a / n * n <= a;
    MulDistrib(a / n, 1, n);
    QuotientAtLeast(b, n, a / n + 1);
  }

  /** The colormap keeps the order of the channel values and uses the whole range. */
  lemma EntriesIncrease(i: nat, j: nat, length: nat)
    requires 1 <= length <= 8 && i < j < Pow2(length)
    ensures Entry(i, length) < Entry(j, length)
    ensures Entry(0, length) == 0 && Entry(Pow2(length) - 1, length) == 0xFFFF
  {
    Pow2UpTo8(length);
    var n := Pow2(length) - 1;
    QuotientsIncrease(i, j, n);
    DivModUnique(n * 0xFFFF, n, 0xFFFF, 0);
    DivModUnique(0, n, 0, 0);
  }
}
