/**
 The rectangle writer: rectangles of random place and colour, three bytes stored for every pixel. At 16 bits the
 third byte falls into the next pixel.
*/
module FbRectangle {
  import opened Bytes
  import opened Pictures

  /** The geometry of the screen, and the window to draw in: its size and place come from the environment. */
  datatype Info = Info(xres: nat, yres: nat, bpp: nat, width: nat, height: nat, posx: nat, posy: nat)

  predicate Supported(info: Info) {
    && 0 < info.xres && 0 < info.yres && 0 < info.width && 0 < info.height
    && (info.bpp == 16 || info.bpp == 24 || info.bpp == 32)
  }

  /** The bytes that the program maps. */
  function Size(info: Info): nat {
    info.xres * info.yres * info.bpp / 8
  }

  function Step(info: Info): nat {
    info.bpp / 8
  }

  function Line(info: Info): nat {
    info.xres * info.bpp / 8
  }

  lemma LineIsPixels(info: Info)
    requires Supported(info)
    ensures Line(info) == info.xres * Step(info) && 2 <= Step(info) <= 4
    ensures Size(info) == info.yres * Line(info)
  {
    TimesStep(info.xres, info.bpp);
    TimesStep(info.xres * info.yres, info.bpp);
    MulAssoc(info.yres, info.xres, Step(info));
  }

  lemma TimesStep(n: nat, bpp: nat)
    requires bpp == 16 || bpp == 24 || bpp == 32
    ensures n * bpp / 8 == n * (bpp / 8)
  {
  }

  /** The size of the rectangles: a quarter of the window each way. */
  function Width(info: Info): nat {
    info.width / 4
  }

  function Height(info: Info): nat {
    info.height / 4
  }

  // ---------------------------------------------------------------- what is stored

  /** Where a rectangle goes, and its colour. */
  datatype Paint = Paint(x: nat, y: nat, r: byte, g: byte, b: byte)

  /** The offset of pixel (x, y). */
  function ByteAt(info: Info, x: nat, y: nat): nat {
    MulMono(0, y, Line(info));
    MulMono(0, x, Step(info));
    y * Line(info) + x * Step(info)
  }

  lemma BytesMono(info: Info, x: nat, y: nat, x': nat, y': nat)
    requires x <= x' && y <= y'
    ensures ByteAt(info, x, y) <= ByteAt(info, x', y')
  {
    MulMono(x, x', Step(info));
    MulMono(y, y', Line(info));
  }

  /** Where the pixel in column `j`, row `i` of a rectangle is stored. */
  function StoreAt(info: Info, d: Paint, i: nat, j: nat): nat {
    ByteAt(info, d.x + j, d.y + i)
  }

  /** The three stores for a pixel, red first. */
  function Poke(d: Paint, mem: seq<byte>, at: nat): (r: seq<byte>)
    requires at + 2 < |mem|
    ensures |r| == |mem|
  {
    mem[at + 2 := d.r][at + 1 := d.g][at := d.b]
  }

  /** The stores for the first `n` pixels of row `i` are inside the mapping. */
  predicate RowStoresInside(info: Info, d: Paint, i: nat, n: nat, size: nat) {
    forall j | 0 <= j < n :: StoreAt(info, d, i, j) + 2 < size
  }

  /** Every store for a rectangle is inside the mapping. */
  predicate StoresInside(info: Info, d: Paint, size: nat) {
    forall i | 0 <= i < Height(info) :: RowStoresInside(info, d, i, Width(info), size)
  }

  /** The memory after the first `n` pixels of row `i`. */
  function Pokes(info: Info, d: Paint, mem: seq<byte>, i: nat, n: nat): (r: seq<byte>)
    requires RowStoresInside(info, d, i, n, |mem|)
    ensures |r| == |mem|
  {
    if n == 0 then mem else Poke(d, Pokes(info, d, mem, i, n - 1), StoreAt(info, d, i, n - 1))
  }

  /** The memory after the first `n` rows of a rectangle. */
  function Strips(info: Info, d: Paint, mem: seq<byte>, n: nat): (r: seq<byte>)
    requires StoresInside(info, d, |mem|) && n <= Height(info)
    ensures |r| == |mem|
  {
    if n == 0 then mem else Pokes(info, d, Strips(info, d, mem, n - 1), n - 1, Width(info))
  }

  predicate AllInside(info: Info, ds: seq<Paint>, size: nat) {
    forall k | 0 <= k < |ds| :: StoresInside(info, ds[k], size)
  }

  /** The memory after some rectangles. */
  function Painted(info: Info, mem: seq<byte>, ds: seq<Paint>): (r: seq<byte>)
    requires AllInside(info, ds, |mem|)
    ensures |r| == |mem|
  {
    if ds == [] then mem
    else Strips(info, ds[|ds| - 1], Painted(info, mem, ds[..|ds| - 1]), Height(info))
  }

  // ---------------------------------------------------------------- the loops

  /** The body of the inner loop. */
  method StorePixel(info: Info, buffer: array<byte>, d: Paint, data: nat, ghost i: nat, j: nat)
    requires data == StoreAt(info, d, i, 0) && StoreAt(info, d, i, j) + 2 < buffer.Length
    modifies buffer
    ensures buffer[..] == Poke(d, old(buffer[..]), StoreAt(info, d, i, j))
  {
    MulDistrib(d.x, j, Step(info));
    var at := info.bpp / 8 * j + data;
    buffer[at + 2] := d.r;
    buffer[at + 1] := d.g;
    buffer[at] := d.b;
  }

  /** The inner loop: one row. */
  method StoreRow(info: Info, buffer: array<byte>, d: Paint, data: nat, ghost i: nat)
    requires data == StoreAt(info, d, i, 0) && RowStoresInside(info, d, i, Width(info), buffer.Length)
    modifies buffer
    ensures buffer[..] == Pokes(info, d, old(buffer[..]), i, Width(info))
  {
    ghost var mem := buffer[..];
    var j := 0;
    while j < info.width / 4
      invariant 0 <= j <= Width(info)
      invariant buffer[..] == Pokes(info, d, mem, i, j)
    {
      StorePixel(info, buffer, d, data, i, j);
      j := j + 1;
    }
  }

  /** The offset of the first pixel of a rectangle. */
  method Start(info: Info, x: nat, y: nat) returns (data: nat)
    requires Supported(info)
    ensures data == ByteAt(info, x, y)
  {
    LineIsPixels(info);
    MulMono(0, y, info.xres);
    TimesStep(y * info.xres, info.bpp);
    MulAssoc(y, info.xres, Step(info));
    TimesStep(x, info.bpp);
    data := y * info.xres * info.bpp / 8 + x * info.bpp / 8;
  }

  lemma NextData(info: Info, x: nat, y: nat)
    ensures ByteAt(info, x, y) + info.xres * info.bpp / 8 == ByteAt(info, x, y + 1)
  {
    MulDistrib(y, 1, Line(info));
  }

  /** The outer loop: one rectangle. */
  method StoreRectangle(info: Info, buffer: array<byte>, d: Paint)
    requires Supported(info) && StoresInside(info, d, buffer.Length)
    modifies buffer
    ensures buffer[..] == Strips(info, d, old(buffer[..]), Height(info))
  {
    ghost var mem := buffer[..];
    var data := Start(info, d.x, d.y);
    var i := 0;
    while i < info.height / 4
      invariant 0 <= i <= Height(info)
      invariant data == StoreAt(info, d, i, 0)
      invariant buffer[..] == Strips(info, d, mem, i)
    {
      StoreRow(info, buffer, d, data, i);
      NextData(info, d.x, d.y + i);
      data := data + info.xres * info.bpp / 8;
      i := i + 1;
    }
  }

  /** Five numbers from rand. */
  datatype Random = Random(r: nat, g: nat, b: nat, x: nat, y: nat)

  function Chosen(info: Info, n: Random): (d: Paint)
    requires Supported(info)
    ensures info.posx <= d.x && d.x + Width(info) < info.posx + info.width
    ensures info.posy <= d.y && d.y + Height(info) < info.posy + info.height
  {
    Paint(info.posx + n.x % (info.width - Width(info)), info.posy + n.y % (info.height - Height(info)),
          n.r % 256, n.g % 256, n.b % 256)
  }

  /** Where the chosen rectangle starts in the window, and its colour. */
  lemma ChosenExactly(info: Info, n: Random)
    requires Supported(info)
    ensures var d := Chosen(info, n);
            && d.x - info.posx == n.x % (info.width - info.width / 4)
            && d.y - info.posy == n.y % (info.height - info.height / 4)
            && d.r == n.r % 256 && d.g == n.g % 256 && d.b == n.b % 256
  {
  }

  /** The numbers for the rectangle in the lower right corner of the window. */
  lemma FarCorner(info: Info) returns (n: Random)
    requires Supported(info)
    ensures var d := Chosen(info, n);
            d.x + Width(info) + 1 == info.posx + info.width && d.y + Height(info) + 1 == info.posy + info.height
  {
    n := Random(0, 0, 0, info.width - Width(info) - 1, info.height - Height(info) - 1);
    DivModUnique(n.x, n.x + 1, 0, n.x);
    DivModUnique(n.y, n.y + 1, 0, n.y);
  }

  /** The rectangles are empty, or the last store of the last of them is inside the mapping. */
  predicate WindowMapped(info: Info, size: nat) {
    || Width(info) == 0 || Height(info) == 0
    || ByteAt(info, info.posx + info.width - 2, info.posy + info.height - 2) + 2 < size
  }

  lemma ChosenInside(info: Info, n: Random, size: nat)
    requires Supported(info) && WindowMapped(info, size)
    ensures StoresInside(info, Chosen(info, n), size)
  {
    var d := Chosen(info, n);
    forall i | 0 <= i < Height(info)
      ensures RowStoresInside(info, d, i, Width(info), size)
    {
      forall j | 0 <= j < Width(info)
        ensures StoreAt(info, d, i, j) + 2 < size
      {
        BytesMono(info, d.x + j, d.y + i, info.posx + info.width - 2, info.posy + info.height - 2);
      }
    }
  }

  /** Every store of the program is inside the mapping, whatever rand returns, exactly if the rectangles are empty or
      the lower right corner of the window, less one column and one row, is inside it. */
  lemma MappingExactly(info: Info, size: nat)
    requires Supported(info)
    ensures (forall n :: StoresInside(info, Chosen(info, n), size)) <==> WindowMapped(info, size)
  {
    if WindowMapped(info, size) {
      forall n
        ensures StoresInside(info, Chosen(info, n), size)
      {
        ChosenInside(info, n, size);
      }
    } else {
      var n := FarCorner(info);
      var d := Chosen(info, n);
      assert !(StoreAt(info, d, Height(info) - 1, Width(info) - 1) + 2 < size);
      assert !RowStoresInside(info, d, Height(info) - 1, Width(info), size);
    }
  }

  function AllChosen(info: Info, ns: seq<Random>): (ds: seq<Paint>)
    requires Supported(info)
    ensures |ds| == |ns| && forall k | 0 <= k < |ds| :: ds[k] == Chosen(info, ns[k])
  {
    if ns == [] then [] else AllChosen(info, ns[..|ns| - 1]) + [Chosen(info, ns[|ns| - 1])]
  }

  lemma AllChosenInside(info: Info, ns: seq<Random>, size: nat)
    requires Supported(info) && WindowMapped(info, size)
    ensures AllInside(info, AllChosen(info, ns), size)
  {
    var ds := AllChosen(info, ns);
    forall k | 0 <= k < |ds|
      ensures StoresInside(info, ds[k], size)
    {
      ChosenInside(info, ns[k], size);
    }
  }

  /** The memory after the rectangles that rand chooses. */
  function PaintedFor(info: Info, mem: seq<byte>, ns: seq<Random>): (r: seq<byte>)
    requires Supported(info) && WindowMapped(info, |mem|)
    ensures |r| == |mem|
  {
    AllChosenInside(info, ns, |mem|);
    Painted(info, mem, AllChosen(info, ns))
  }

  /** One more rectangle. */
  lemma PaintedGrows(info: Info, mem: seq<byte>, ns: seq<Random>, n: Random)
    requires Supported(info) && WindowMapped(info, |mem|)
    ensures StoresInside(info, Chosen(info, n), |mem|)
    ensures PaintedFor(info, mem, ns + [n]) ==
            Strips(info, Chosen(info, n), PaintedFor(info, mem, ns), Height(info))
  {
    AllChosenInside(info, ns + [n], |mem|);
    ChosenInside(info, n, |mem|);
    assert (ns + [n])[..|ns|] == ns;
    var ds := AllChosen(info, ns + [n]);
    assert ds[..|ds| - 1] == AllChosen(info, ns) && ds[|ds| - 1] == Chosen(info, n);
  }

  /** One round of the main loop, the drawing of one random rectangle. */
  method Round(info: Info, buffer: array<byte>, n: Random)
    requires Supported(info) && StoresInside(info, Chosen(info, n), buffer.Length)
    modifies buffer
    ensures buffer[..] == Strips(info, Chosen(info, n), old(buffer[..]), Height(info))
  {
    var w, h := info.width / 4, info.height / 4;
    var x, y := n.x % (info.width - w), n.y % (info.height - h);
    var d := Paint(info.posx + x, info.posy + y, n.r % 256, n.g % 256, n.b % 256);
    assert d == Chosen(info, n);
    StoreRectangle(info, buffer, d);
  }

  /** The program until its time is up, for any window from which the stores cannot leave the mapping. */
  method Run(info: Info, buffer: array<byte>, ns: seq<Random>)
    requires Supported(info) && WindowMapped(info, buffer.Length)
    modifies buffer
    ensures buffer[..] == PaintedFor(info, old(buffer[..]), ns)
  {
    ghost var mem := buffer[..];
    ghost var seen: seq<Random> := [];
    var count := 0;
    while count < |ns|
      invariant 0 <= count <= |ns| && seen == ns[..count]
      invariant buffer[..] == PaintedFor(info, mem, seen)
    {
      PaintedGrows(info, mem, seen, ns[count]);
      Round(info, buffer, ns[count]);
      seen := seen + [ns[count]];
      count := count + 1;
    }
    assert seen == ns;
  }

  // ---------------------------------------------------------------- what is painted

  /** How many pixels behind a pixel its stores reach. */
  function Reach(info: Info): nat {
    if Step(info) == 2 then 1 else 0
  }

  /** The rectangle is empty or lies on the screen; at 16 bits, so does the column behind it. */
  predicate Fits(info: Info, d: Paint) {
    || Width(info) == 0 || Height(info) == 0
    || (d.x + Width(info) + Reach(info) <= info.xres && d.y + Height(info) <= info.yres)
  }

  /** Every rectangle that can be chosen fits: those of a window that is larger than the screen by one column and one
      row at most, or by one row at 16 bits. */
  predicate WindowFits(info: Info) {
    || Width(info) == 0 || Height(info) == 0
    || (info.posx + info.width + Reach(info) <= info.xres + 1 && info.posy + info.height <= info.yres + 1)
  }

  lemma WindowExactly(info: Info)
    requires Supported(info)
    ensures (forall n :: Fits(info, Chosen(info, n))) <==> WindowFits(info)
  {
    if !WindowFits(info) {
      var n := FarCorner(info);
      assert !Fits(info, Chosen(info, n));
    }
  }

  /** Without anything in the environment the window is the screen. */
  function WholeScreen(xres: nat, yres: nat, bpp: nat): (info: Info)
    ensures WindowFits(info)
  {
    Info(xres, yres, bpp, xres, yres, 0, 0)
  }

  /** Every pixel of the picture has as many bytes as the depth says. */
  predicate IsDeep(info: Info, pic: Picture) {
    && IsPicture(info.xres, info.yres, pic)
    && forall x, y | 0 <= x < info.xres && 0 <= y < info.yres :: |pic[y][x]| == Step(info)
  }

  /** What the colour bytes make of a pixel. */
  function Inked(d: Paint, v: seq<byte>): (r: seq<byte>)
    requires 2 <= |v|
    ensures |r| == |v|
  {
    if |v| == 2 then [d.b, d.g] else [d.b, d.g, d.r] + v[3..]
  }

  /** What the red byte makes of the pixel behind, at 16 bits. */
  function Spilled(d: Paint, v: seq<byte>): (r: seq<byte>)
    requires 2 <= |v|
    ensures |r| == |v|
  {
    if |v| == 2 then [d.r, v[1]] else v
  }

  /** The picture after the three stores for pixel (x, y). */
  function Dab(info: Info, d: Paint, pic: Picture, x: nat, y: nat): (r: Picture)
    requires Supported(info) && IsDeep(info, pic) && x + Reach(info) < info.xres && y < info.yres
    ensures IsDeep(info, r)
  {
    if Step(info) == 2 then
      var spilled := Dot(info.xres, info.yres, pic, x + 1, y, Spilled(d, pic[y][x + 1]));
      Dot(info.xres, info.yres, spilled, x, y, Inked(d, spilled[y][x]))
    else Dot(info.xres, info.yres, pic, x, y, Inked(d, pic[y][x]))
  }

  /** The first `n` pixels of a row of the rectangle, and what they reach, lie on the screen. */
  predicate RowFits(info: Info, d: Paint, y: nat, n: nat) {
    n == 0 || (d.x + n + Reach(info) <= info.xres && y < info.yres)
  }

  /** The picture after the first `n` pixels of a row of the rectangle. */
  function Dabs(info: Info, d: Paint, pic: Picture, y: nat, n: nat): (r: Picture)
    requires Supported(info) && IsDeep(info, pic) && RowFits(info, d, y, n)
    ensures IsDeep(info, r)
  {
    if n == 0 then pic else Dab(info, d, Dabs(info, d, pic, y, n - 1), d.x + (n - 1), y)
  }

  /** The picture after the first `n` rows of the rectangle. */
  function Bands(info: Info, d: Paint, pic: Picture, n: nat): (r: Picture)
    requires Supported(info) && IsDeep(info, pic) && Fits(info, d) && n <= Height(info)
    ensures IsDeep(info, r)
  {
    if n == 0 then pic else Dabs(info, d, Bands(info, d, pic, n - 1), d.y + (n - 1), Width(info))
  }

  /** The picture after some rectangles. */
  function Scene(info: Info, pic: Picture, ds: seq<Paint>): (r: Picture)
    requires Supported(info) && IsDeep(info, pic) && forall k | 0 <= k < |ds| :: Fits(info, ds[k])
    ensures IsDeep(info, r)
  {
    if ds == [] then pic
    else Bands(info, ds[|ds| - 1], Scene(info, pic, ds[..|ds| - 1]), Height(info))
  }

  // ---------------------------------------------------------------- pixel by pixel

  /** What a row of dabs makes of a pixel. */
  function Redab(d: Paint, y: nat, n: nat, px: nat, py: nat, v: seq<byte>): (r: seq<byte>)
    requires 2 <= |v|
    ensures |r| == |v|
  {
    if py == y && d.x <= px < d.x + n then Inked(d, v)
    else if py == y && px == d.x + n && n > 0 then Spilled(d, v)
    else v
  }

  lemma DabAt(info: Info, d: Paint, before: Picture, y: nat, n: nat, px: nat, py: nat, v: seq<byte>)
    requires Supported(info) && IsDeep(info, before) && RowFits(info, d, y, n + 1)
    requires px < info.xres && py < info.yres && 2 <= |v| && before[py][px] == Redab(d, y, n, px, py, v)
    ensures Dab(info, d, before, d.x + n, y)[py][px] == Redab(d, y, n + 1, px, py, v)
  {
    assert Inked(d, Spilled(d, v)) == Inked(d, v);
  }

  lemma {:induction false} DabsAt(info: Info, d: Paint, pic: Picture, y: nat, n: nat, px: nat, py: nat)
    requires Supported(info) && IsDeep(info, pic) && RowFits(info, d, y, n)
    requires px < info.xres && py < info.yres
    ensures Dabs(info, d, pic, y, n)[py][px] == Redab(d, y, n, px, py, pic[py][px])
  {
    if n == 0 {
    } else {
      DabsAt(info, d, pic, y, n - 1, px, py);
      DabAt(info, d, Dabs(info, d, pic, y, n - 1), y, n - 1, px, py, pic[py][px]);
    }
  }

  predicate InBand(info: Info, d: Paint, n: nat, px: nat, py: nat) {
    d.x <= px < d.x + Width(info) && d.y <= py < d.y + n
  }

  /** The column behind the rectangle. */
  predicate Behind(info: Info, d: Paint, n: nat, px: nat, py: nat) {
    px == d.x + Width(info) && 0 < Width(info) && d.y <= py < d.y + n
  }

  /** What a rectangle makes of a pixel. */
  function Repaint(info: Info, d: Paint, n: nat, px: nat, py: nat, v: seq<byte>): (r: seq<byte>)
    requires 2 <= |v|
    ensures |r| == |v|
  {
    if InBand(info, d, n, px, py) then Inked(d, v)
    else if Behind(info, d, n, px, py) then Spilled(d, v)
    else v
  }

  lemma {:induction false} BandsAt(info: Info, d: Paint, pic: Picture, n: nat, px: nat, py: nat)
    requires Supported(info) && IsDeep(info, pic) && Fits(info, d) && n <= Height(info)
    requires px < info.xres && py < info.yres
    ensures Bands(info, d, pic, n)[py][px] == Repaint(info, d, n, px, py, pic[py][px])
  {
    if n == 0 {
    } else {
      BandsAt(info, d, pic, n - 1, px, py);
      BandAt(info, d, Bands(info, d, pic, n - 1), n - 1, px, py, pic[py][px]);
    }
  }

  lemma BandAt(info: Info, d: Paint, before: Picture, n: nat, px: nat, py: nat, v: seq<byte>)
    requires Supported(info) && IsDeep(info, before) && Fits(info, d) && n < Height(info)
    requires px < info.xres && py < info.yres && 2 <= |v| && before[py][px] == Repaint(info, d, n, px, py, v)
    ensures Dabs(info, d, before, d.y + n, Width(info))[py][px] == Repaint(info, d, n + 1, px, py, v)
  {
    DabsAt(info, d, before, d.y + n, Width(info), px, py);
    NextBand(info, d, n, px, py, v);
  }

  /** What one more row of the rectangle makes of a pixel. */
  lemma NextBand(info: Info, d: Paint, n: nat, px: nat, py: nat, v: seq<byte>)
    requires 2 <= |v|
    ensures Repaint(info, d, n + 1, px, py, v) ==
            Redab(d, d.y + n, Width(info), px, py, Repaint(info, d, n, px, py, v))
  {
  }

  /** A rectangle at 24 or 32 bits sets the low three bytes of its pixels and changes nothing else; at 16 bits it sets
      both bytes of its pixels and the low byte of the pixels right behind them. */
  lemma RectangleExactly(info: Info, d: Paint, pic: Picture, px: nat, py: nat)
    requires Supported(info) && IsDeep(info, pic) && Fits(info, d) && px < info.xres && py < info.yres
    ensures var now, was := Bands(info, d, pic, Height(info))[py][px], pic[py][px];
            var inside := InBand(info, d, Height(info), px, py);
            && |now| == |was| == Step(info)
            && (inside ==> now[0] == d.b && now[1] == d.g && (Step(info) > 2 ==> now[2] == d.r))
            && (Step(info) == 4 ==> now[3] == was[3])
            && (!inside && (Step(info) > 2 || !Behind(info, d, Height(info), px, py)) ==> now == was)
            && (Behind(info, d, Height(info), px, py) && Step(info) == 2 ==> now == [d.r, was[1]])
  {
    BandsAt(info, d, pic, Height(info), px, py);
  }

  /** A pixel after some rectangles. */
  function Repainted(info: Info, ds: seq<Paint>, px: nat, py: nat, v: seq<byte>): (r: seq<byte>)
    requires 2 <= |v|
    ensures |r| == |v|
  {
    if ds == [] then v
    else Repaint(info, ds[|ds| - 1], Height(info), px, py, Repainted(info, ds[..|ds| - 1], px, py, v))
  }

  lemma {:induction false} SceneAt(info: Info, pic: Picture, ds: seq<Paint>, px: nat, py: nat)
    requires Supported(info) && IsDeep(info, pic) && forall k | 0 <= k < |ds| :: Fits(info, ds[k])
    requires px < info.xres && py < info.yres
    ensures Scene(info, pic, ds)[py][px] == Repainted(info, ds, px, py, pic[py][px])
  {
    if ds == [] {
    } else {
      var front := ds[..|ds| - 1];
      SceneAt(info, pic, front, px, py);
      BandsAt(info, ds[|ds| - 1], Scene(info, pic, front), Height(info), px, py);
    }
  }

  /** After any number of rectangles at 24 or 32 bits, a pixel shows the last rectangle that covers it, or what it
      showed before; the fourth byte is never written. */
  lemma {:induction false} LastCovers(info: Info, ds: seq<Paint>, px: nat, py: nat, v: seq<byte>, k: int)
    requires |v| == 3 || |v| == 4
    requires -1 <= k < |ds| && (0 <= k ==> InBand(info, ds[k], Height(info), px, py))
    requires forall j | k < j < |ds| :: !InBand(info, ds[j], Height(info), px, py)
    ensures Repainted(info, ds, px, py, v) == if k == -1 then v else [ds[k].b, ds[k].g, ds[k].r] + v[3..]
  {
    if ds == [] {
    } else {
      var front := ds[..|ds| - 1];
      if k < |ds| - 1 {
        LastCovers(info, front, px, py, v, k);
      } else {
        FourthStays(info, front, px, py, v);
      }
    }
  }

  /** Whether a rectangle stores into a pixel at 16 bits. */
  predicate Hits(info: Info, d: Paint, px: nat, py: nat) {
    InBand(info, d, Height(info), px, py) || Behind(info, d, Height(info), px, py)
  }

  /** After any number of rectangles at 16 bits, the last one that hits a pixel decides both bytes if it covers the
      pixel, and the low byte only if the pixel is behind it. */
  lemma {:induction false} LastHits(info: Info, ds: seq<Paint>, px: nat, py: nat, v: seq<byte>, k: int)
    requires |v| == 2 && -1 <= k < |ds| && (0 <= k ==> Hits(info, ds[k], px, py))
    requires forall j | k < j < |ds| :: !Hits(info, ds[j], px, py)
    ensures Repainted(info, ds, px, py, v) ==
            if k == -1 then v
            else if InBand(info, ds[k], Height(info), px, py) then [ds[k].b, ds[k].g]
            else [ds[k].r, Repainted(info, ds[..k], px, py, v)[1]]
  {
    if ds == [] {
    } else if k < |ds| - 1 {
      var front := ds[..|ds| - 1];
      LastHits(info, front, px, py, v, k);
      assert k >= 0 ==> front[..k] == ds[..k];
    }
  }

  lemma {:induction false} FourthStays(info: Info, ds: seq<Paint>, px: nat, py: nat, v: seq<byte>)
    requires |v| == 3 || |v| == 4
    ensures Repainted(info, ds, px, py, v)[3..] == v[3..]
  {
    if ds == [] {
    } else {
      FourthStays(info, ds[..|ds| - 1], px, py, v);
    }
  }

  // ---------------------------------------------------------------- from the memory to the picture

  /** The screen as a picture. */
  ghost function Screen(info: Info, mem: seq<byte>): (pic: Picture)
    requires Supported(info) && |mem| == Size(info)
    ensures IsDeep(info, pic)
  {
    LineIsPixels(info);
    var pic := Rows(mem, Line(info), Step(info), info.xres, info.yres);
    assert IsDeep(info, pic) by {
      forall x, y | 0 <= x < info.xres && 0 <= y < info.yres
        ensures |pic[y][x]| == Step(info)
      {
        PixelOfRows(mem, Line(info), Step(info), info.xres, info.yres, x, y);
      }
    }
    pic
  }

  /** One store of a pixel's bytes, as a dot on the screen. */
  lemma StoreOnScreen(info: Info, mem: seq<byte>, mem': seq<byte>, x: nat, y: nat, v: seq<byte>)
    requires Supported(info) && |mem| == |mem'| == Size(info)
    requires x < info.xres && y < info.yres && |v| == Step(info)
    requires Stored(mem, mem', ByteAt(info, x, y), v)
    ensures Screen(info, mem') == Dot(info.xres, info.yres, Screen(info, mem), x, y, v)
  {
    LineIsPixels(info);
    StoreIsDot(mem, mem', Line(info), Step(info), info.xres, info.yres, x, y, v);
  }

  lemma PixelOnScreen(info: Info, mem: seq<byte>, x: nat, y: nat)
    requires Supported(info) && |mem| == Size(info) && x < info.xres && y < info.yres
    ensures var at := ByteAt(info, x, y);
            0 <= at && at + Step(info) <= |mem| && Screen(info, mem)[y][x] == mem[at..at + Step(info)]
  {
    LineIsPixels(info);
    PixelOfRows(mem, Line(info), Step(info), info.xres, info.yres, x, y);
  }

  /** At 16 bits, the red byte falls into the next pixel. */
  lemma NarrowDab(info: Info, d: Paint, mem: seq<byte>, x: nat, y: nat, at: nat)
    requires Supported(info) && |mem| == Size(info) && Step(info) == 2
    requires x + 1 < info.xres && y < info.yres && at == ByteAt(info, x, y) && at + 3 < |mem|
    requires ByteAt(info, x + 1, y) == at + 2 && Screen(info, mem)[y][x + 1] == mem[at + 2..at + 4]
    ensures Screen(info, Poke(d, mem, at)) == Dab(info, d, Screen(info, mem), x, y)
  {
    var mem1 := mem[at + 2 := d.r];
    StoreOnScreen(info, mem, mem1, x + 1, y, [d.r, mem[at + 3]]);
    StoreOnScreen(info, mem1, Poke(d, mem, at), x, y, [d.b, d.g]);
  }

  lemma WideDab(info: Info, d: Paint, mem: seq<byte>, x: nat, y: nat, at: nat)
    requires Supported(info) && |mem| == Size(info) && Step(info) > 2
    requires x < info.xres && y < info.yres && at == ByteAt(info, x, y)
    requires at + Step(info) <= |mem| && Screen(info, mem)[y][x] == mem[at..at + Step(info)]
    ensures Screen(info, Poke(d, mem, at)) == Dab(info, d, Screen(info, mem), x, y)
  {
    StoreOnScreen(info, mem, Poke(d, mem, at), x, y, Inked(d, Screen(info, mem)[y][x]));
  }

  /** The stores for a pixel that lies on the screen, with what they reach, make a dab. */
  lemma PokeIsDab(info: Info, d: Paint, mem: seq<byte>, x: nat, y: nat)
    requires Supported(info) && |mem| == Size(info) && x + Reach(info) < info.xres && y < info.yres
    ensures ByteAt(info, x, y) + 2 < |mem|
    ensures Screen(info, Poke(d, mem, ByteAt(info, x, y))) == Dab(info, d, Screen(info, mem), x, y)
  {
    LineIsPixels(info);
    PixelOnScreen(info, mem, x, y);
    if Step(info) == 2 {
      MulDistrib(x, 1, Step(info));
      PixelOnScreen(info, mem, x + 1, y);
      NarrowDab(info, d, mem, x, y, ByteAt(info, x, y));
    } else {
      WideDab(info, d, mem, x, y, ByteAt(info, x, y));
    }
  }

  lemma NextPokeIsDab(info: Info, d: Paint, mem: seq<byte>, pic: Picture, i: nat, j: nat)
    requires Supported(info) && |mem| == Size(info) && IsDeep(info, pic) && Screen(info, mem) == pic
    requires RowFits(info, d, d.y + i, j + 1)
    ensures StoreAt(info, d, i, j) + 2 < |mem|
    ensures Screen(info, Poke(d, mem, StoreAt(info, d, i, j))) == Dab(info, d, pic, d.x + j, d.y + i)
  {
    PokeIsDab(info, d, mem, d.x + j, d.y + i);
  }

  lemma {:induction false} PokesAreDabs(info: Info, d: Paint, mem: seq<byte>, i: nat, n: nat)
    requires Supported(info) && |mem| == Size(info)
    requires RowFits(info, d, d.y + i, n) && RowStoresInside(info, d, i, n, |mem|)
    ensures Screen(info, Pokes(info, d, mem, i, n)) == Dabs(info, d, Screen(info, mem), d.y + i, n)
  {
    if n == 0 {
    } else {
      PokesAreDabs(info, d, mem, i, n - 1);
      NextPokeIsDab(info, d, Pokes(info, d, mem, i, n - 1), Dabs(info, d, Screen(info, mem), d.y + i, n - 1), i, n - 1);
    }
  }

  lemma StripIsBand(info: Info, d: Paint, mem: seq<byte>, pic: Picture, i: nat)
    requires Supported(info) && |mem| == Size(info) && i < Height(info) && IsDeep(info, pic)
    requires Fits(info, d) && StoresInside(info, d, |mem|) && Screen(info, mem) == pic
    ensures Screen(info, Pokes(info, d, mem, i, Width(info))) == Dabs(info, d, pic, d.y + i, Width(info))
  {
    PokesAreDabs(info, d, mem, i, Width(info));
  }

  lemma {:induction false} StripsAreBands(info: Info, d: Paint, mem: seq<byte>, pic: Picture, n: nat)
    requires Supported(info) && |mem| == Size(info) && IsDeep(info, pic) && Screen(info, mem) == pic
    requires Fits(info, d) && StoresInside(info, d, |mem|) && n <= Height(info)
    ensures Screen(info, Strips(info, d, mem, n)) == Bands(info, d, pic, n)
  {
    if n == 0 {
    } else {
      StripsAreBands(info, d, mem, pic, n - 1);
      StripIsBand(info, d, Strips(info, d, mem, n - 1), Bands(info, d, pic, n - 1), n - 1);
    }
  }

  /** What fits on the screen is inside the mapping. */
  lemma FitsInside(info: Info, d: Paint)
    requires Supported(info) && Fits(info, d)
    ensures StoresInside(info, d, Size(info))
  {
    var mem := seq(Size(info), i => 0 as byte);
    forall i | 0 <= i < Height(info)
      ensures RowStoresInside(info, d, i, Width(info), Size(info))
    {
      forall j | 0 <= j < Width(info)
        ensures StoreAt(info, d, i, j) + 2 < Size(info)
      {
        PokeIsDab(info, d, mem, d.x + j, d.y + i);
      }
    }
  }

  /** Stores that fit on the screen paint the scene. */
  lemma {:induction false} PaintedIsScene(info: Info, mem: seq<byte>, ds: seq<Paint>)
    requires Supported(info) && |mem| == Size(info) && AllInside(info, ds, |mem|)
    requires forall k | 0 <= k < |ds| :: Fits(info, ds[k])
    ensures Screen(info, Painted(info, mem, ds)) == Scene(info, Screen(info, mem), ds)
  {
    if ds == [] {
    } else {
      var front := ds[..|ds| - 1];
      PaintedIsScene(info, mem, front);
      var before := Painted(info, mem, front);
      StripsAreBands(info, ds[|ds| - 1], before, Screen(info, before), Height(info));
    }
  }

  /** What the program paints, for a window whose rectangles fit: the mapping suffices, and the screen shows the scene
      of the chosen rectangles. */
  lemma RunShows(info: Info, mem: seq<byte>, ns: seq<Random>)
    requires Supported(info) && WindowFits(info) && |mem| == Size(info)
    ensures WindowMapped(info, |mem|) && forall k | 0 <= k < |ns| :: Fits(info, AllChosen(info, ns)[k])
    ensures Screen(info, PaintedFor(info, mem, ns)) == Scene(info, Screen(info, mem), AllChosen(info, ns))
  {
    WindowExactly(info);
    forall n
      ensures StoresInside(info, Chosen(info, n), |mem|)
    {
      FitsInside(info, Chosen(info, n));
    }
    MappingExactly(info, |mem|);
    AllChosenInside(info, ns, |mem|);
    PaintedIsScene(info, mem, AllChosen(info, ns));
  }

  // ---------------------------------------------------------------- what the program leaves, byte by byte

  /** The rectangle for some random numbers covers a pixel. */
  predicate Covered(info: Info, n: Random, px: int, py: int)
    requires Supported(info)
  {
    var x := info.posx + n.x % (info.width - info.width / 4);
    var y := info.posy + n.y % (info.height - info.height / 4);
    x <= px < x + info.width / 4 && y <= py < y + info.height / 4
  }

  lemma CoveredIsInBand(info: Info, n: Random, px: nat, py: nat)
    requires Supported(info)
    ensures Covered(info, n, px, py) <==> InBand(info, Chosen(info, n), Height(info), px, py)
    ensures 0 < px && Covered(info, n, px - 1, py) && !Covered(info, n, px, py) <==>
            Behind(info, Chosen(info, n), Height(info), px, py)
  {
    ChosenExactly(info, n);
  }

  /** The bytes of a pixel. */
  function PixelBytes(info: Info, mem: seq<byte>, px: nat, py: nat): (v: seq<byte>)
    requires Supported(info) && |mem| == Size(info) && px < info.xres && py < info.yres
    ensures |v| == info.bpp / 8
    ensures var at := py * (info.xres * info.bpp / 8) + px * (info.bpp / 8);
            0 <= at && at + |v| <= |mem| && v == mem[at..at + |v|]
  {
    PixelOnScreen(info, mem, px, py);
    mem[ByteAt(info, px, py)..ByteAt(info, px, py) + Step(info)]
  }

  lemma PixelOfScreen(info: Info, mem: seq<byte>, px: nat, py: nat)
    requires Supported(info) && |mem| == Size(info) && px < info.xres && py < info.yres
    ensures Screen(info, mem)[py][px] == PixelBytes(info, mem, px, py)
  {
    PixelOnScreen(info, mem, px, py);
  }

  /** The bytes of a pixel after the program, from those before. */
  lemma PixelLeft(info: Info, mem: seq<byte>, ns: seq<Random>, px: nat, py: nat)
    requires Supported(info) && WindowFits(info) && |mem| == Size(info) && px < info.xres && py < info.yres
    ensures WindowMapped(info, |mem|)
    ensures PixelBytes(info, PaintedFor(info, mem, ns), px, py) ==
            Repainted(info, AllChosen(info, ns), px, py, PixelBytes(info, mem, px, py))
  {
    RunShows(info, mem, ns);
    PixelOfScreen(info, mem, px, py);
    PixelOfScreen(info, PaintedFor(info, mem, ns), px, py);
    SceneAt(info, Screen(info, mem), AllChosen(info, ns), px, py);
  }

  lemma LastCovered(info: Info, ns: seq<Random>, px: nat, py: nat, v: seq<byte>, k: int)
    requires Supported(info) && (|v| == 3 || |v| == 4)
    requires -1 <= k < |ns| && (0 <= k ==> Covered(info, ns[k], px, py))
    requires forall j | k < j < |ns| :: !Covered(info, ns[j], px, py)
    ensures Repainted(info, AllChosen(info, ns), px, py, v) ==
            if k == -1 then v else [ns[k].b % 256, ns[k].g % 256, ns[k].r % 256] + v[3..]
  {
    var ds := AllChosen(info, ns);
    forall j | 0 <= j < |ds|
      ensures Covered(info, ns[j], px, py) <==> InBand(info, ds[j], Height(info), px, py)
    {
      CoveredIsInBand(info, ns[j], px, py);
    }
    LastCovers(info, ds, px, py, v, k);
    if k >= 0 {
      ChosenExactly(info, ns[k]);
    }
  }

  /** After the program, at 24 or 32 bits: the low three bytes of every pixel are blue, green and red of the last
      rectangle that covers it, or what they were; a fourth byte is what it was. */
  lemma RunExactly(info: Info, mem: seq<byte>, ns: seq<Random>, px: nat, py: nat, k: int)
    requires Supported(info) && WindowFits(info) && |mem| == Size(info) && info.bpp != 16
    requires px < info.xres && py < info.yres
    requires -1 <= k < |ns| && (0 <= k ==> Covered(info, ns[k], px, py))
    requires forall j | k < j < |ns| :: !Covered(info, ns[j], px, py)
    ensures WindowMapped(info, |mem|)
    ensures var was, now := PixelBytes(info, mem, px, py), PixelBytes(info, PaintedFor(info, mem, ns), px, py);
            && 3 <= |was|
            && now == if k == -1 then was else [ns[k].b % 256, ns[k].g % 256, ns[k].r % 256] + was[3..]
  {
    PixelLeft(info, mem, ns, px, py);
    LastCovered(info, ns, px, py, PixelBytes(info, mem, px, py), k);
  }

  lemma LastHit(info: Info, ns: seq<Random>, px: nat, py: nat, v: seq<byte>, k: int)
    requires Supported(info) && |v| == 2 && -1 <= k < |ns|
    requires 0 <= k ==> Covered(info, ns[k], px, py) || (0 < px && Covered(info, ns[k], px - 1, py))
    requires forall j | k < j < |ns| ::
               !Covered(info, ns[j], px, py) && (0 < px ==> !Covered(info, ns[j], px - 1, py))
    ensures var now := Repainted(info, AllChosen(info, ns), px, py, v);
            if k == -1 then now == v
            else if Covered(info, ns[k], px, py) then now == [ns[k].b % 256, ns[k].g % 256]
            else now[0] == ns[k].r % 256
  {
    var ds := AllChosen(info, ns);
    forall j | 0 <= j < |ds|
      ensures Covered(info, ns[j], px, py) <==> InBand(info, ds[j], Height(info), px, py)
      ensures Covered(info, ns[j], px, py) || (0 < px && Covered(info, ns[j], px - 1, py)) <==>
              Hits(info, ds[j], px, py)
    {
      CoveredIsInBand(info, ns[j], px, py);
    }
    LastHits(info, ds, px, py, v, k);
    if k >= 0 {
      ChosenExactly(info, ns[k]);
    }
  }

  /** At 16 bits: both bytes are blue and green of the last rectangle that covers the pixel or ends right before it, if
      it covers it; if it ends before it, the low byte is its red. */
  lemma NarrowRunExactly(info: Info, mem: seq<byte>, ns: seq<Random>, px: nat, py: nat, k: int)
    requires Supported(info) && WindowFits(info) && |mem| == Size(info) && info.bpp == 16
    requires px < info.xres && py < info.yres && -1 <= k < |ns|
    requires 0 <= k ==> Covered(info, ns[k], px, py) || (0 < px && Covered(info, ns[k], px - 1, py))
    requires forall j | k < j < |ns| ::
               !Covered(info, ns[j], px, py) && (0 < px ==> !Covered(info, ns[j], px - 1, py))
    ensures WindowMapped(info, |mem|)
    ensures var was, now := PixelBytes(info, mem, px, py), PixelBytes(info, PaintedFor(info, mem, ns), px, py);
            if k == -1 then now == was
            else if Covered(info, ns[k], px, py) then now == [ns[k].b % 256, ns[k].g % 256]
            else now[0] == ns[k].r % 256
  {
    PixelLeft(info, mem, ns, px, py);
    LastHit(info, ns, px, py, PixelBytes(info, mem, px, py), k);
  }
}
