/** Exactly when the two decoders agree: on which formats, and on which layouts of the lines. */
module Strides {
  import opened Bytes
  import opened FbCat
  import opened FbCatProperties
  import opened Decoders
  import V = FbView

  // ---------------------------------------------------------------- memories that tell them apart

  /** A pixel that the programs show differently. */
  lemma Differ(mem: seq<byte>, info: VarInfo, cmap: Colormap, line: nat, x: nat, y: nat, k: nat)
    requires Readable(|mem|, info, line) && FieldsFit(info) && TrueColorMaps(info, cmap) && Known(info)
    requires x < info.xres && y < info.yres && k < info.xres * info.yres && 3 * k == y * (3 * info.xres) + 3 * x
    requires 0 <= k * BytesPerPixel(info) && k * BytesPerPixel(info) + BytesPerPixel(info) <= |mem|
    requires Triple(mem, info, cmap, line, x, y) !=
             V.ViewTriple(FormatFor(info), Channels(info), mem, k * BytesPerPixel(info))
    ensures !Agree(mem, info, cmap, line)
  {
    FrameFits(|mem|, info, line);
    var n: nat := info.xres * info.yres;
    V.ViewAt(FormatFor(info), Channels(info), mem, n, k);
    BodyAt(mem, info, cmap, line, x, y, k);
  }

  /** A memory with a single byte that is not zero. */
  function Marked(size: nat, at: nat, v: byte): (mem: seq<byte>)
    ensures |mem| == size && forall i | 0 <= i < size :: mem[i] == if i == at then v else 0
  {
    seq(size, i => if i == at then v else 0)
  }

  lemma {:induction false} LoadZeros(mem: seq<byte>, at: nat, n: nat)
    requires at + n <= |mem| && forall i | at <= i < at + n :: mem[i] == 0
    ensures Load(mem, at, n) == 0
    decreases n
  {
    if n == 0 {
    } else {
      LoadZeros(mem, at + 1, n - 1);
    }
  }

  lemma {:induction false} LoadMark(mem: seq<byte>, at: nat, n: nat, p: nat)
    requires at <= p < at + n <= |mem| && forall i | at <= i < at + n && i != p :: mem[i] == 0
    ensures Load(mem, at, n) == mem[p] * Pow256(p - at)
    decreases n
  {
    if at == p {
      LoadZeros(mem, at + 1, n - 1);
      assert Pow256(0) == 1;
    } else {
      LoadMark(mem, at + 1, n - 1, p);
      MulAssoc(0x100, mem[p], Pow256(p - at - 1));
      MulAssoc(mem[p], 0x100, Pow256(p - at - 1));
    }
  }

  lemma {:induction false} Pow256IsPow2(n: nat)
    ensures Pow256(n) == Pow2(8 * n)
  {
    if n == 0 {
    } else {
      Pow256IsPow2(n - 1);
      Pow2Add(8, 8 * n - 8);
      Pow2Words();
    }
  }

  /** A pixel below a field has zero in it. */
  lemma BelowField(pixel: nat, f: BitField, cmap: seq<nat>)
    requires FieldFits(f) && IsTrueColor(cmap, f.length) && pixel < Pow2(f.offset)
    ensures GetColor(pixel, f, cmap) == 0
  {
    Pow2UpTo8(f.length);
    DivModUnique(pixel, Pow2(f.offset), 0, pixel);
    DivModUnique(0, Pow2(f.length), 0, 0);
    DivModUnique(0, Pow2(f.length) - 1, 0, 0);
    assert Field(pixel, f) == 0;
  }

  // ---------------------------------------------------------------- a mark that only fbview sees

  /** The lowest bit of any field. */
  function LowestBit(info: VarInfo): (o: nat)
    ensures o <= info.red.offset && o <= info.green.offset && o <= info.blue.offset
    ensures o == info.red.offset || o == info.green.offset || o == info.blue.offset
  {
    var o := if info.red.offset <= info.green.offset then info.red.offset else info.green.offset;
    if o <= info.blue.offset then o else info.blue.offset
  }

  /** The memory with that bit set in the pixel at `base`. */
  function MarkedBit(size: nat, info: VarInfo, base: nat): (mem: seq<byte>)
    requires FieldsFit(info)
    ensures |mem| == size
  {
    Pow2UpTo8(LowestBit(info) % 8);
    Marked(size, base + LowestBit(info) / 8, Pow2(LowestBit(info) % 8))
  }

  /** What a pixel that starts at or behind `base` reads of the mark: nothing, or a single bit, the lower the further
      behind the pixel starts. */
  lemma MarkRead(size: nat, info: VarInfo, base: nat, at: nat, n: nat)
    requires FieldsFit(info) && base <= at && at + n <= size
    ensures var pixel, o := Load(MarkedBit(size, info, base), at, n), LowestBit(info);
            && (base < at ==> pixel < Pow2(o))
            && (base == at && o / 8 < n ==> pixel == Pow2(o))
  {
    var mem, o := MarkedBit(size, info, base), LowestBit(info);
    var p := base + o / 8;
    if p < at || at + n <= p {
      LoadZeros(mem, at, n);
    } else {
      LoadMark(mem, at, n, p);
      Pow256IsPow2(p - at);
      Pow2Add(o % 8, 8 * (p - at));
      if base < at {
        Pow2Mono(o % 8 + 8 * (p - at), o - 1);
        assert Pow2(o) == 2 * Pow2(o - 1);
      }
    }
  }

  /** fbview sees the bit in the field that starts with it. */
  lemma BitIsSeen(f: BitField, pixel: nat)
    requires FieldFits(f) && 1 <= f.length && pixel == Pow2(f.offset)
    ensures 0 < V.Shifted(pixel, V.Channel(f.offset, f.length))
  {
    Pow2Mono(1, f.length);
    FieldOfShifted(1, f);
    assert Field(pixel, f) == 1;
  }

  lemma BlackBelow(info: VarInfo, cmap: Colormap, pixel: nat)
    requires FieldsFit(info) && TrueColorMaps(info, cmap) && pixel < Pow2(LowestBit(info))
    ensures Colors(info.red, info.green, info.blue, cmap, pixel) == [0, 0, 0]
  {
    Pow2Mono(LowestBit(info), info.red.offset);
    Pow2Mono(LowestBit(info), info.green.offset);
    Pow2Mono(LowestBit(info), info.blue.offset);
    BelowField(pixel, info.red, cmap.red);
    BelowField(pixel, info.green, cmap.green);
    BelowField(pixel, info.blue, cmap.blue);
  }

  lemma OneIsBlue(p: nat)
    requires p == 1
    ensures V.Entry565(p)[2] != 0
  {
    DivModUnique(p, 0x20, 0, 1);
  }

  /** The triple that fbview makes of the marked pixel is not black. */
  lemma MarkIsSeen(size: nat, info: VarInfo, at: nat)
    requires FieldsFit(info) && Known(info) && at + BytesPerPixel(info) <= size
    requires 1 <= info.red.length && 1 <= info.green.length && 1 <= info.blue.length
    ensures V.ViewTriple(FormatFor(info), Channels(info), MarkedBit(size, info, at), at) != [0, 0, 0]
  {
    var mem, o := MarkedBit(size, info, at), LowestBit(info);
    Pow2UpTo8(0);
    if Is565(info) {
      MarkRead(size, info, at, at, 2);
      OneIsBlue(Load(mem, at, 2));
    } else if Is888(info) {
      assert mem[at] == 1;
    } else {
      MarkRead(size, info, at, at, 4);
      var pixel := Load(mem, at, 4);
      if o == info.red.offset {
        BitIsSeen(info.red, pixel);
      } else if o == info.green.offset {
        BitIsSeen(info.green, pixel);
      } else {
        BitIsSeen(info.blue, pixel);
      }
    }
  }

  /** If the k-th pixel lies behind the place where contiguous lines would have it, some memory tells the programs
      apart. */
  lemma MovedPixel(size: nat, info: VarInfo, cmap: Colormap, line: nat, x: nat, y: nat, k: nat)
    returns (mem: seq<byte>)
    requires Readable(size, info, line) && FieldsFit(info) && TrueColorMaps(info, cmap) && Known(info)
    requires x < info.xres && y < info.yres && k < info.xres * info.yres && 3 * k == y * (3 * info.xres) + 3 * x
    requires 0 <= k * BytesPerPixel(info) < PixelAt(info, line, x, y)
    ensures |mem| == size && !Agree(mem, info, cmap, line)
  {
    var base, at, n := k * BytesPerPixel(info), PixelAt(info, line, x, y), BytesPerPixel(info);
    PixelInside(size, info, line, x, y);
    mem := MarkedBit(size, info, base);
    MarkRead(size, info, base, at, n);
    BlackBelow(info, cmap, Load(mem, at, n));
    MarkIsSeen(size, info, base);
    Differ(mem, info, cmap, line, x, y, k);
  }

  lemma OffsetMoves(info: VarInfo, line: nat)
    requires (info.xoffset + info.xres) * BytesPerPixel(info) <= line && 0 < BytesPerPixel(info)
    requires 0 < info.xres && 0 < info.yres && (info.xoffset != 0 || info.yoffset != 0)
    ensures 0 < PixelAt(info, line, 0, 0) && 0 < info.xres * info.yres
  {
    var n := BytesPerPixel(info);
    MulAtLeast(info.xoffset + info.xres, n);
    MulMono(1, info.xres, info.yres);
    MulMono(0, info.yoffset, line);
    MulMono(0, info.xoffset, n);
    if info.xoffset != 0 {
      MulAtLeast(info.xoffset, n);
    } else {
      MulAtLeast(info.yoffset, line);
    }
  }

  lemma StrideMoves(info: VarInfo, line: nat)
    requires info.xoffset == 0 && info.yoffset == 0 && (info.xoffset + info.xres) * BytesPerPixel(info) <= line
    requires !Contiguous(info, line) && 0 < info.xres && 0 < info.yres
    ensures 1 < info.yres && info.xres < info.xres * info.yres
    ensures info.xres * BytesPerPixel(info) < PixelAt(info, line, 0, 1)
  {
    MulMono(2, info.yres, info.xres);
  }

  // ---------------------------------------------------------------- a pixel that they decode differently

  /** A memory that starts with a word. */
  function Leading(size: nat, w: word): (mem: seq<byte>)
    requires 4 <= size
    ensures |mem| == size
  {
    Store32(w) + seq(size - 4, i => 0)
  }

  lemma LeadingWord(size: nat, w: word)
    requires 4 <= size
    ensures Load(Leading(size, w), 0, 4) == w
  {
    LoadWord(Leading(size, w), 0);
    LoadWord(Store32(w), 0);
    StoreLoadRoundTrip(0, w);
  }

  /** At 32 bits, a channel that does not match shows on some pixel. */
  lemma OtherColor(info: VarInfo, cmap: Colormap) returns (pixel: word)
    requires FieldsFit(info) && TrueColorMaps(info, cmap)
    requires !(Matches(info.red) && Matches(info.green) && Matches(info.blue))
    ensures Colors(info.red, info.green, info.blue, cmap, pixel) != V.Triple32(pixel, Channels(info))
  {
    ShiftAgreesExactly(info.red, cmap.red);
    ShiftAgreesExactly(info.green, cmap.green);
    ShiftAgreesExactly(info.blue, cmap.blue);
    if !Matches(info.red) {
      pixel :| GetColor(pixel, info.red, cmap.red) !=
               V.Shifted(pixel, V.Channel(info.red.offset, info.red.length));
    } else if !Matches(info.green) {
      pixel :| GetColor(pixel, info.green, cmap.green) !=
               V.Shifted(pixel, V.Channel(info.green.offset, info.green.length));
    } else {
      pixel :| GetColor(pixel, info.blue, cmap.blue) !=
               V.Shifted(pixel, V.Channel(info.blue.offset, info.blue.length));
    }
  }

  lemma OtherDepth(size: nat, info: VarInfo, cmap: Colormap, line: nat) returns (mem: seq<byte>)
    requires Readable(size, info, line) && FieldsFit(info) && TrueColorMaps(info, cmap) && Contiguous(info, line)
    requires info.bpp == 32 && !SharedFormat(info) && 0 < info.xres && 0 < info.yres
    ensures |mem| == size && !Agree(mem, info, cmap, line)
  {
    FrameFits(size, info, line);
    MulMono(1, info.xres, info.yres);
    PixelInside(size, info, line, 0, 0);
    var pixel := OtherColor(info, cmap);
    mem := Leading(size, pixel);
    LeadingWord(size, pixel);
    Differ(mem, info, cmap, line, 0, 0, 0);
  }

  /** The two programs agree on every content of the memory exactly on the shared formats with contiguous lines: at 16
      and 24 bits the standard ones, at 32 bits those whose channels match. fbview has no stride and no offset. */
  lemma AgreeExactly(size: nat, info: VarInfo, cmap: Colormap, line: nat)
    requires Readable(size, info, line) && FieldsFit(info) && TrueColorMaps(info, cmap)
    requires 0 < info.xres && 0 < info.yres
    ensures (forall mem: seq<byte> | |mem| == size :: Agree(mem, info, cmap, line)) <==>
            SharedFormat(info) && Contiguous(info, line)
  {
    if SharedFormat(info) && Contiguous(info, line) {
      forall mem: seq<byte> | |mem| == size
        ensures Agree(mem, info, cmap, line)
      {
        DecodersAgree(mem, info, cmap, line);
      }
    } else if !Known(info) {
      var mem := Marked(size, 0, 0);
      assert !Agree(mem, info, cmap, line);
    } else if info.xoffset != 0 || info.yoffset != 0 {
      OffsetMoves(info, line);
      var mem := MovedPixel(size, info, cmap, line, 0, 0, 0);
    } else if !Contiguous(info, line) {
      StrideMoves(info, line);
      var mem := MovedPixel(size, info, cmap, line, 0, 1, info.xres);
    } else {
      var mem := OtherDepth(size, info, cmap, line);
    }
  }
}
