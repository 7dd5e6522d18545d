/** fbcat: decodes a framebuffer into the body of a PPM or PBM image. */
module FbCat {
  import opened Bytes

  datatype BitField = BitField(offset: nat, length: nat)

  datatype VarInfo = VarInfo(
    xres: nat,
    yres: nat,
    xoffset: nat,
    yoffset: nat,
    bpp: nat,
    red: BitField,
    green: BitField,
    blue: BitField)

  /** Sixteen bits for each value of a channel. */
  datatype Colormap = Colormap(red: seq<nat>, green: seq<nat>, blue: seq<nat>)

  const MAP_SIZE := 256

  predicate IsChannel(cmap: seq<nat>) {
    |cmap| == MAP_SIZE && forall i | 0 <= i < MAP_SIZE :: cmap[i] < 0x1_0000
  }

  predicate IsColormap(c: Colormap) {
    IsChannel(c.red) && IsChannel(c.green) && IsChannel(c.blue)
  }

  /** A field that a 32-bit pixel can hold and a colormap can serve. */
  predicate FieldFits(f: BitField) {
    f.offset < 32 && f.length <= 8
  }

  predicate FieldsFit(info: VarInfo) {
    FieldFits(info.red) && FieldFits(info.green) && FieldFits(info.blue)
  }

  lemma Pow2UpTo8(n: nat)
    requires n <= 8
    ensures Pow2(n) == [1, 2, 4, 8, 16, 32, 64, 128, 256][n]
  {
    assert Pow2(0) == 1;
    if 4 <= n {
      assert Pow2(4) == 16;
      assert Pow2(7) == 128;
    }
  }

  // ---------------------------------------------------------------- pixels to colours

  /** `(pixel >> offset) & ((1 << length) - 1)`. */
  function Field(pixel: nat, f: BitField): (r: nat)
    ensures r < Pow2(f.length)
  {
    pixel / Pow2(f.offset) % Pow2(f.length)
  }

  lemma ShiftedFits(v: nat, length: nat, offset: nat)
    requires v < Pow2(length) && length + offset <= 32
    ensures 0 <= v * Pow2(offset) < WORD
  {
    Pow2Words();
    Pow2Add(length, offset);
    Pow2Mono(length + offset, 32);
    MulMono(0, v, Pow2(offset));
    MulMono(v + 1, Pow2(length), Pow2(offset));
    MulDistrib(v, 1, Pow2(offset));
  }

  lemma FieldOfShifted(v: nat, f: BitField)
    requires v < Pow2(f.length)
    ensures 0 <= v * Pow2(f.offset) && Field(v * Pow2(f.offset), f) == v
  {
    var n := Pow2(f.offset);
    MulMono(0, v, n);
    DivModUnique(v * n, n, v, 0);
    DivModUnique(v, Pow2(f.length), 0, v);
  }

  function GetColor(pixel: nat, f: BitField, cmap: seq<nat>): byte
    requires FieldFits(f) && IsChannel(cmap)
  {
    Pow2UpTo8(f.length);
    cmap[Field(pixel, f)] / 0x100
  }

  /** The colormap entry for the value `i` of a channel of `length` bits. */
  function Entry(i: nat, length: nat): (r: nat)
    requires 1 <= length <= 8 && i < Pow2(length)
    ensures r < 0x1_0000
  {
    Pow2UpTo8(length);
    EntryBound(i, Pow2(length) - 1);
    i * 0xFFFF / (Pow2(length) - 1)
  }

  lemma EntryBound(i: nat, n: nat)
    requires 0 < n && i <= n
    ensures 0 <= i * 0xFFFF / n <= 0xFFFF
  {
    MulMono(i, n, 0xFFFF);
    QuotientWithin(i * 0xFFFF, n, 0xFFFF);
  }

  /** What main puts into the colormap of a truecolor visual; the other entries are never set. */
  predicate IsTrueColor(cmap: seq<nat>, length: nat) {
    && IsChannel(cmap) && 1 <= length <= 8
    && Pow2(length) <= MAP_SIZE
    && forall i | 0 <= i < Pow2(length) :: cmap[i] == Entry(i, length)
  }

  method InitChannel(cmap: array<nat>, length: nat)
    requires cmap.Length == MAP_SIZE && IsChannel(cmap[..]) && 1 <= length <= 8
    modifies cmap
    ensures IsTrueColor(cmap[..], length)
  {
    Pow2UpTo8(length);
    var i := 0;
    while i < Pow2(length)
      invariant 0 <= i <= Pow2(length)
      invariant IsChannel(cmap[..])
      invariant forall k | 0 <= k < i :: cmap[k] == Entry(k, length)
    {
      EntryBound(i, Pow2(length) - 1);
      cmap[i] := i * 0xFFFF / (Pow2(length) - 1);
      i := i + 1;
    }
  }

  // ---------------------------------------------------------------- the colour dump

  function BytesPerPixel(info: VarInfo): nat {
    (info.bpp + 7) / 8
  }

  /** The offset of the first visible pixel of a row. */
  function RowAt(info: VarInfo, line: nat, y: nat): nat {
    (y + info.yoffset) * line + info.xoffset * BytesPerPixel(info)
  }

  /** The offset of a visible pixel. */
  function PixelAt(info: VarInfo, line: nat, x: nat, y: nat): nat {
    RowAt(info, line, y) + x * BytesPerPixel(info)
  }

  /** The visible part of a line fits into the line, and the memory has all the lines. */
  predicate Readable(size: nat, info: VarInfo, line: nat) {
    && (info.xoffset + info.xres) * BytesPerPixel(info) <= line
    && (info.yoffset + info.yres) * line <= size
  }

  lemma PixelInside(size: nat, info: VarInfo, line: nat, x: nat, y: nat)
    requires Readable(size, info, line) && x < info.xres && y < info.yres
    ensures PixelAt(info, line, x, y) + BytesPerPixel(info) <= size
  {
    var n := BytesPerPixel(info);
    MulDistrib(info.xoffset, x + 1, n);
    MulDistrib(x, 1, n);
    MulMono(info.xoffset + x + 1, info.xoffset + info.xres, n);
    MulDistrib(y + info.yoffset, 1, line);
    MulMono(y + info.yoffset + 1, info.yoffset + info.yres, line);
  }

  /** The reads stay inside the mapped lines exactly when the visible part of a line fits into the line. */
  lemma ReadsInsideExactly(info: VarInfo, line: nat)
    requires 0 < info.xres && 0 < info.yres
    ensures (info.xoffset + info.xres) * BytesPerPixel(info) <= line <==>
            forall x, y | 0 <= x < info.xres && 0 <= y < info.yres ::
              PixelAt(info, line, x, y) + BytesPerPixel(info) <= (info.yoffset + info.yres) * line
  {
    var size := (info.yoffset + info.yres) * line;
    if (info.xoffset + info.xres) * BytesPerPixel(info) <= line {
      forall x, y | 0 <= x < info.xres && 0 <= y < info.yres
        ensures PixelAt(info, line, x, y) + BytesPerPixel(info) <= size
      {
        PixelInside(size, info, line, x, y);
      }
    } else {
      var n := BytesPerPixel(info);
      var x, y := info.xres - 1, info.yres - 1;
      MulDistrib(info.xoffset, x + 1, n);
      MulDistrib(x, 1, n);
      MulDistrib(y + info.yoffset, 1, line);
      assert PixelAt(info, line, x, y) + n > size;
    }
  }

  function Colors(red: BitField, green: BitField, blue: BitField, cmap: Colormap, pixel: nat): (r: seq<byte>)
    requires FieldFits(red) && FieldFits(green) && FieldFits(blue) && IsColormap(cmap)
    ensures |r| == 3
  {
    [GetColor(pixel, red, cmap.red), GetColor(pixel, green, cmap.green), GetColor(pixel, blue, cmap.blue)]
  }

  /** The three output bytes of a visible pixel. */
  function Triple(mem: seq<byte>, info: VarInfo, cmap: Colormap, line: nat, x: nat, y: nat): (r: seq<byte>)
    requires Readable(|mem|, info, line) && FieldsFit(info) && IsColormap(cmap)
    requires x < info.xres && y < info.yres
    ensures |r| == 3
  {
    PixelInside(|mem|, info, line, x, y);
    Colors(info.red, info.green, info.blue, cmap, Load(mem, PixelAt(info, line, x, y), BytesPerPixel(info)))
  }

  /** The first `n` pixels of output row `y`. */
  function RowBody(mem: seq<byte>, info: VarInfo, cmap: Colormap, line: nat, y: nat, n: nat): (r: seq<byte>)
    requires Readable(|mem|, info, line) && FieldsFit(info) && IsColormap(cmap)
    requires n <= info.xres && y < info.yres
    ensures |r| == 3 * n
  {
    if n == 0 then [] else RowBody(mem, info, cmap, line, y, n - 1) + Triple(mem, info, cmap, line, n - 1, y)
  }

  /** The first `n` rows of the image. */
  function Body(mem: seq<byte>, info: VarInfo, cmap: Colormap, line: nat, n: nat): (r: seq<byte>)
    requires Readable(|mem|, info, line) && FieldsFit(info) && IsColormap(cmap) && n <= info.yres
    ensures |r| == n * (3 * info.xres)
  {
    if n == 0 then []
    else
      MulDistrib(n - 1, 1, 3 * info.xres);
      Body(mem, info, cmap, line, n - 1) + RowBody(mem, info, cmap, line, n - 1, info.xres)
  }

  /** The switch on the pixel size in dump_video_memory: two or four bytes at once, any other number in a loop. */
  method LoadPixel(mem: seq<byte>, current: nat, n: nat) returns (pixel: nat, next: nat)
    requires current + n <= |mem|
    ensures pixel == Load(mem, current, n) && next == current + n
  {
    if n == 4 {
      pixel := Word32(mem[current], mem[current + 1], mem[current + 2], mem[current + 3]);
      LoadWord(mem, current);
      next := current + 4;
    } else if n == 2 {
      pixel := Word16(mem[current], mem[current + 1]);
      LoadHalf(mem, current);
      next := current + 2;
    } else {
      pixel, next := 0, current;
      var i := 0;
      while i < n
        invariant 0 <= i <= n && next == current + i
        invariant pixel == Load(mem, current, i)
      {
        LoadGrows(mem, current, i);
        pixel := pixel + mem[next] * Pow256(i);
        next := next + 1;
        i := i + 1;
      }
    }
  }

  /** The three assignments for one pixel. */
  method StoreColors(info: VarInfo, cmap: Colormap, row: array<byte>, x: nat, pixel: nat)
    requires FieldsFit(info) && IsColormap(cmap) && x * 3 + 3 <= row.Length
    modifies row
    ensures row[..(x + 1) * 3] == old(row[..x * 3]) + Colors(info.red, info.green, info.blue, cmap, pixel)
  {
    row[x * 3 + 0] := GetColor(pixel, info.red, cmap.red);
    row[x * 3 + 1] := GetColor(pixel, info.green, cmap.green);
    row[x * 3 + 2] := GetColor(pixel, info.blue, cmap.blue);
    assert row[..(x + 1) * 3] == row[..x * 3] + [row[x * 3], row[x * 3 + 1], row[x * 3 + 2]];
  }

  method DumpRow(mem: seq<byte>, info: VarInfo, cmap: Colormap, line: nat, y: nat, row: array<byte>)
    requires Readable(|mem|, info, line) && FieldsFit(info) && IsColormap(cmap) && y < info.yres
    requires row.Length == info.xres * 3
    modifies row
    ensures row[..] == RowBody(mem, info, cmap, line, y, info.xres)
  {
    var current := (y + info.yoffset) * line + info.xoffset * BytesPerPixel(info);
    var x := 0;
    while x < info.xres
      invariant 0 <= x <= info.xres
      invariant current == PixelAt(info, line, x, y)
      invariant row[..x * 3] == RowBody(mem, info, cmap, line, y, x)
    {
      PixelInside(|mem|, info, line, x, y);
      MulDistrib(x, 1, BytesPerPixel(info));
      var pixel;
      pixel, current := LoadPixel(mem, current, BytesPerPixel(info));
      StoreColors(info, cmap, row, x, pixel);
      x := x + 1;
    }
    assert row[..] == row[..x * 3];
  }

  method DumpVideoMemory(mem: seq<byte>, info: VarInfo, cmap: Colormap, line: nat) returns (out: seq<byte>)
    requires Readable(|mem|, info, line) && FieldsFit(info) && IsColormap(cmap)
    ensures out == Body(mem, info, cmap, line, info.yres)
  {
    var row := new byte[info.xres * 3](i => 0);
    out := [];
    var y := 0;
    while y < info.yres
      invariant 0 <= y <= info.yres
      invariant out == Body(mem, info, cmap, line, y)
    {
      DumpRow(mem, info, cmap, line, y, row);
      out := out + row[..];
      y := y + 1;
    }
  }

  // ---------------------------------------------------------------- the mono dump

  /** Multiply, mask and take the remainder: the bits of a byte in the opposite order. */
  function ReverseWord(b: u8): u8 {
    ((((b as bv64) * 0x0202020202) & 0x0108_8442_2010) % 1023) as u8
  }

  function ReverseBits(b: byte): byte {
    ReverseWord(b as u8) as int
  }

  function Complement(b: byte): byte {
    (!(b as u8)) as int
  }

  lemma WordRoundTrip(v: u8) returns (b: byte)
    ensures b == v as int && b as u8 == v
  {
    b := v as int;
  }

  lemma BitOfWord(v: u8, k: nat)
    requires k < 8
    ensures HasBit(v as int, k) <==> v & Mask(k) != 0
  {
    var b := WordRoundTrip(v);
    BitIsMask(b, k);
  }

  lemma ReverseWordBit(b: u8, k: nat)
    requires k < 8
    ensures ReverseWord(b) & Mask(k) != 0 <==> b & Mask(7 - k) != 0
  {
  }

  /** The expression is exactly bit reversal. */
  lemma ReverseBitsReverses(b: byte, k: nat)
    requires k < 8
    ensures HasBit(ReverseBits(b), k) <==> HasBit(b, 7 - k)
  {
    var w := b as u8;
    ReverseWordBit(w, k);
    BitIsMask(b, 7 - k);
    BitOfWord(ReverseWord(w), k);
  }

  lemma ReverseBitsInvolution(b: byte)
    ensures ReverseBits(ReverseBits(b)) == b
  {
    forall k | 0 <= k < 8
      ensures HasBit(ReverseBits(ReverseBits(b)), k) <==> HasBit(b, k)
    {
      ReverseBitsReverses(ReverseBits(b), k);
      ReverseBitsReverses(b, 7 - k);
    }
    Pow2UpTo8(8);
    SameBits(ReverseBits(ReverseBits(b)), b, 8);
  }

  lemma ComplementBit(b: byte, k: nat)
    requires k < 8
    ensures HasBit(Complement(b), k) <==> !HasBit(b, k)
  {
    BitIsMask(b, k);
    BitOfWord(!(b as u8), k);
    ComplementWordBit(b as u8, k);
  }

  lemma ComplementWordBit(b: u8, k: nat)
    requires k < 8
    ensures !b & Mask(k) != 0 <==> b & Mask(k) == 0
  {
  }

  function BytesPerRow(info: VarInfo): nat {
    (info.xres + 7) / 8
  }

  predicate MonoReadable(size: nat, info: VarInfo, line: nat) {
    && info.xoffset / 8 + BytesPerRow(info) <= line
    && (info.yoffset + info.yres) * line <= size
  }

  /** The offset of the source byte for byte `x` of output row `y`. */
  function MonoAt(info: VarInfo, line: nat, x: nat, y: nat): nat {
    (y + info.yoffset) * line + info.xoffset / 8 + x
  }

  lemma MonoInside(size: nat, info: VarInfo, line: nat, x: nat, y: nat)
    requires MonoReadable(size, info, line) && x < BytesPerRow(info) && y < info.yres
    ensures MonoAt(info, line, x, y) < size
  {
    MulDistrib(y + info.yoffset, 1, line);
    MulMono(y + info.yoffset + 1, info.yoffset + info.yres, line);
  }

  /** The reads of a mono dump that is not refused stay inside the mapped lines exactly when the bytes of a visible row
      fit into the line. */
  lemma MonoReadsInsideExactly(info: VarInfo, line: nat)
    requires 0 < info.xres && 0 < info.yres && info.xoffset % 8 == 0
    ensures info.xoffset / 8 + BytesPerRow(info) <= line <==>
            forall x, y | 0 <= x < BytesPerRow(info) && 0 <= y < info.yres ::
              MonoAt(info, line, x, y) < (info.yoffset + info.yres) * line
  {
    var size := (info.yoffset + info.yres) * line;
    MulMono(0, info.yoffset + info.yres, line);
    if info.xoffset / 8 + BytesPerRow(info) <= line {
      forall x, y | 0 <= x < BytesPerRow(info) && 0 <= y < info.yres
        ensures MonoAt(info, line, x, y) < size
      {
        MonoInside(size, info, line, x, y);
      }
    } else {
      MulDistrib(info.yres - 1 + info.yoffset, 1, line);
      assert MonoAt(info, line, BytesPerRow(info) - 1, info.yres - 1) >= size;
    }
  }

  function MonoByte(mem: seq<byte>, info: VarInfo, blackIsZero: bool, line: nat, x: nat, y: nat): byte
    requires MonoReadable(|mem|, info, line) && x < BytesPerRow(info) && y < info.yres
  {
    MonoInside(|mem|, info, line, x, y);
    var b := ReverseBits(mem[MonoAt(info, line, x, y)]);
    if blackIsZero then Complement(b) else b
  }

  function MonoRow(mem: seq<byte>, info: VarInfo, blackIsZero: bool, line: nat, y: nat, n: nat): (r: seq<byte>)
    requires MonoReadable(|mem|, info, line) && n <= BytesPerRow(info) && y < info.yres
    ensures |r| == n
  {
    if n == 0 then []
    else MonoRow(mem, info, blackIsZero, line, y, n - 1) + [MonoByte(mem, info, blackIsZero, line, n - 1, y)]
  }

  function MonoBody(mem: seq<byte>, info: VarInfo, blackIsZero: bool, line: nat, n: nat): (r: seq<byte>)
    requires MonoReadable(|mem|, info, line) && n <= info.yres
    ensures |r| == n * BytesPerRow(info)
  {
    if n == 0 then []
    else
      MulDistrib(n - 1, 1, BytesPerRow(info));
      MonoBody(mem, info, blackIsZero, line, n - 1)
      + MonoRow(mem, info, blackIsZero, line, n - 1, BytesPerRow(info))
  }

  method DumpMonoRow(mem: seq<byte>, info: VarInfo, blackIsZero: bool, line: nat, y: nat, row: array<byte>)
    requires MonoReadable(|mem|, info, line) && y < info.yres && row.Length == BytesPerRow(info)
    modifies row
    ensures row[..] == MonoRow(mem, info, blackIsZero, line, y, BytesPerRow(info))
  {
    var current := (y + info.yoffset) * line + info.xoffset / 8;
    var x := 0;
    while x < BytesPerRow(info)
      invariant 0 <= x <= BytesPerRow(info)
      invariant current == MonoAt(info, line, x, y)
      invariant row[..x] == MonoRow(mem, info, blackIsZero, line, y, x)
    {
      MonoInside(|mem|, info, line, x, y);
      row[x] := ReverseBits(mem[current]);
      current := current + 1;
      if blackIsZero {
        row[x] := Complement(row[x]);
      }
      assert row[..x + 1] == row[..x] + [row[x]];
      x := x + 1;
    }
    assert row[..] == row[..x];
  }

  datatype Error = NotSupported | ReadFailed

  method DumpVideoMemoryMono(mem: seq<byte>, info: VarInfo, blackIsZero: bool, line: nat)
    returns (r: Result<seq<byte>, Error>)
    requires info.xoffset % 8 == 0 ==> MonoReadable(|mem|, info, line)
    ensures r == if info.xoffset % 8 != 0 then Err(NotSupported)
                 else Ok(MonoBody(mem, info, blackIsZero, line, info.yres))
  {
    var row := new byte[BytesPerRow(info)](i => 0);
    if info.xoffset % 8 != 0 {
      return Err(NotSupported);
    }
    var out := [];
    var y := 0;
    while y < info.yres
      invariant 0 <= y <= info.yres
      invariant out == MonoBody(mem, info, blackIsZero, line, y)
    {
      DumpMonoRow(mem, info, blackIsZero, line, y, row);
      out := out + row[..];
      y := y + 1;
    }
    r := Ok(out);
  }
}
