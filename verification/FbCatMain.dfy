/** fbcat's main program: what it asks of the device, how it reads it, and what image comes out. */
module FbCatMain {
  import opened Bytes
  import opened FbCat
  import opened FbCatProperties
  import D = Decoders

  datatype Visual = TrueColor | DirectColor | PseudoColor | StaticPseudoColor | Mono01 | Mono10 | OtherVisual

  /** What the program is told by the driver: the fixed and the variable information and, for a visual with a
      palette, its colormap. */
  datatype Device = Device(
    packedPixels: bool,
    visual: Visual,
    line: nat,
    info: VarInfo,
    palette: Colormap,
    content: seq<byte>)

  predicate IsMono(v: Visual) {
    v.Mono01? || v.Mono10?
  }

  predicate Accepted(d: Device) {
    && d.packedPixels
    && d.info.red.length <= 8 && d.info.green.length <= 8 && d.info.blue.length <= 8
    && !d.visual.OtherVisual?
    && (d.info.bpp < 8 ==> IsMono(d.visual))
    && (IsMono(d.visual) ==> d.info.bpp == 1)
  }

  /** What the program relies on without a check, if it gets so far: fields inside a pixel, which a truecolor visual
      does not leave empty, and a visible line that fits into its line. */
  predicate Sane(d: Device) {
    && IsColormap(d.palette)
    && (Accepted(d) && !IsMono(d.visual) ==>
          && d.info.red.offset < 32 && d.info.green.offset < 32 && d.info.blue.offset < 32
          && (d.visual.TrueColor? ==> 1 <= d.info.red.length && 1 <= d.info.green.length && 1 <= d.info.blue.length)
          && (d.info.xoffset + d.info.xres) * BytesPerPixel(d.info) <= d.line)
    && (Accepted(d) && IsMono(d.visual) && d.info.xoffset % 8 == 0 ==>
          d.info.xoffset / 8 + BytesPerRow(d.info) <= d.line)
  }

  /** A colormap for the device, with what the stack held in the entries that are never set. */
  predicate MapFor(d: Device, cmap: Colormap) {
    if d.visual.TrueColor? then
      && IsTrueColor(cmap.red, d.info.red.length)
      && IsTrueColor(cmap.green, d.info.green.length)
      && IsTrueColor(cmap.blue, d.info.blue.length)
    else cmap == d.palette
  }

  /** Whether a memory has what the dump reads. */
  predicate Dumpable(d: Device, info: VarInfo, size: nat) {
    if IsMono(d.visual) then info.xoffset % 8 == 0 ==> MonoReadable(size, info, d.line)
    else Readable(size, info, d.line) && FieldsFit(info)
  }

  /** The dump of a memory that starts with line 0 of the frame. */
  function Dump(d: Device, info: VarInfo, cmap: Colormap, mem: seq<byte>): Result<seq<byte>, Error>
    requires Dumpable(d, info, |mem|) && IsColormap(cmap)
  {
    if IsMono(d.visual) then
      if info.xoffset % 8 != 0 then Err(NotSupported)
      else Ok(MonoBody(mem, info, d.visual.Mono10?, d.line, info.yres))
    else Ok(Body(mem, info, cmap, d.line, info.yres))
  }

  /** Whether all the lines up to the last visible one exist. */
  predicate Mappable(d: Device) {
    d.line * (d.info.yres + d.info.yoffset) <= |d.content|
  }

  /** Whether the visible lines can be had: they exist, or they are empty. */
  predicate Complete(d: Device) {
    Mappable(d) || d.line * d.info.yres == 0
  }

  lemma LinesCommute(d: Device)
    ensures d.line * (d.info.yres + d.info.yoffset) == (d.info.yoffset + d.info.yres) * d.line
    ensures d.line * d.info.yres == d.info.yres * d.line && d.line * d.info.yoffset == d.info.yoffset * d.line
    ensures d.line * (d.info.yres + d.info.yoffset) == d.line * d.info.yoffset + d.line * d.info.yres
  {
    MulDistrib(d.info.yoffset, d.info.yres, d.line);
  }

  /** What the mapping shows: the lines from the first of the frame to the last visible one. */
  function Mapped(d: Device): seq<byte>
    requires Mappable(d)
  {
    LinesCommute(d);
    MulMono(0, d.info.yoffset + d.info.yres, d.line);
    d.content[..d.line * (d.info.yres + d.info.yoffset)]
  }

  /** What the fallback reads: the visible lines. */
  function Window(d: Device): (r: seq<byte>)
    requires Complete(d)
    ensures |r| == d.line * d.info.yres
  {
    LinesCommute(d);
    MulMono(0, d.info.yoffset, d.line);
    MulMono(0, d.info.yres, d.line);
    if Mappable(d) then Mapped(d)[d.line * d.info.yoffset..] else []
  }

  lemma WindowDumpable(d: Device)
    requires Sane(d) && Accepted(d) && Complete(d)
    ensures Dumpable(d, Unshifted(d.info), |Window(d)|)
  {
    LinesCommute(d);
  }

  /** What the program outputs, whichever way it reads the device. */
  function Screenshot(d: Device, cmap: Colormap): Result<seq<byte>, Error>
    requires Sane(d) && IsColormap(cmap)
  {
    if !Accepted(d) then Err(NotSupported)
    else if !Complete(d) then Err(ReadFailed)
    else
      WindowDumpable(d);
      Dump(d, Unshifted(d.info), cmap, Window(d))
  }

  // A memory without its first lines, read with the row offset zero.

  function Unshifted(info: VarInfo): VarInfo {
    info.(yoffset := 0)
  }

  lemma RowsShift(info: VarInfo, line: nat, y: nat)
    ensures 0 <= info.yoffset * line && (y + info.yoffset) * line == y * line + info.yoffset * line
  {
    MulDistrib(y, info.yoffset, line);
    MulMono(0, info.yoffset, line);
  }

  lemma WindowReadable(mem: seq<byte>, info: VarInfo, line: nat)
    requires (info.yoffset + info.yres) * line <= |mem|
    ensures 0 <= info.yoffset * line <= |mem| && info.yres * line <= |mem| - info.yoffset * line
  {
    RowsShift(info, line, info.yres);
    MulMono(0, info.yres, line);
  }

  /** The memory from the first visible line on. */
  function From(mem: seq<byte>, info: VarInfo, line: nat): (r: seq<byte>)
    requires (info.yoffset + info.yres) * line <= |mem|
    ensures (Unshifted(info).yoffset + info.yres) * line <= |r|
  {
    WindowReadable(mem, info, line);
    mem[info.yoffset * line..]
  }

  lemma WindowTriple(mem: seq<byte>, info: VarInfo, cmap: Colormap, line: nat, x: nat, y: nat)
    requires Readable(|mem|, info, line) && FieldsFit(info) && IsColormap(cmap) && x < info.xres && y < info.yres
    ensures Triple(From(mem, info, line), Unshifted(info), cmap, line, x, y) == Triple(mem, info, cmap, line, x, y)
  {
    WindowReadable(mem, info, line);
    PixelShift(info, line, x, y);
    PixelInside(|mem|, info, line, x, y);
    var off, at := info.yoffset * line, PixelAt(info, line, x, y);
    LoadWindow(mem, off, |mem|, at, BytesPerPixel(info));
    assert mem[off..] == mem[off..|mem|];
  }

  lemma PixelShift(info: VarInfo, line: nat, x: nat, y: nat)
    ensures 0 <= info.yoffset * line
    ensures PixelAt(Unshifted(info), line, x, y) == PixelAt(info, line, x, y) - info.yoffset * line
  {
    RowsShift(info, line, y);
  }

  lemma {:induction false} WindowRow(mem: seq<byte>, info: VarInfo, cmap: Colormap, line: nat, y: nat, n: nat)
    requires Readable(|mem|, info, line) && FieldsFit(info) && IsColormap(cmap) && n <= info.xres && y < info.yres
    ensures RowBody(From(mem, info, line), Unshifted(info), cmap, line, y, n) == RowBody(mem, info, cmap, line, y, n)
  {
    if n == 0 {
    } else {
      WindowTriple(mem, info, cmap, line, n - 1, y);
      WindowRow(mem, info, cmap, line, y, n - 1);
    }
  }

  /** Bodies with the same rows are the same. */
  lemma {:induction false} SameRows(mem: seq<byte>, info: VarInfo, c: Colormap, mem': seq<byte>, info': VarInfo,
                                    c': Colormap, line: nat, n: nat)
    requires Readable(|mem|, info, line) && FieldsFit(info) && IsColormap(c)
    requires Readable(|mem'|, info', line) && FieldsFit(info') && IsColormap(c')
    requires info'.xres == info.xres && n <= info.yres == info'.yres
    requires forall y | 0 <= y < n ::
               RowBody(mem', info', c', line, y, info.xres) == RowBody(mem, info, c, line, y, info.xres)
    ensures Body(mem', info', c', line, n) == Body(mem, info, c, line, n)
  {
    if n == 0 {
    } else {
      SameRows(mem, info, c, mem', info', c', line, n - 1);
    }
  }

  lemma WindowBody(mem: seq<byte>, info: VarInfo, cmap: Colormap, line: nat, n: nat)
    requires Readable(|mem|, info, line) && FieldsFit(info) && IsColormap(cmap) && n <= info.yres
    ensures Body(From(mem, info, line), Unshifted(info), cmap, line, n) == Body(mem, info, cmap, line, n)
  {
    var window := From(mem, info, line);
    forall y | 0 <= y < n
      ensures RowBody(window, Unshifted(info), cmap, line, y, info.xres) == RowBody(mem, info, cmap, line, y, info.xres)
    {
      WindowRow(mem, info, cmap, line, y, info.xres);
    }
    SameRows(mem, info, cmap, window, Unshifted(info), cmap, line, n);
  }

  lemma WindowMonoByte(mem: seq<byte>, info: VarInfo, black: bool, line: nat, x: nat, y: nat)
    requires MonoReadable(|mem|, info, line) && x < BytesPerRow(info) && y < info.yres
    ensures MonoByte(From(mem, info, line), Unshifted(info), black, line, x, y) ==
            MonoByte(mem, info, black, line, x, y)
  {
    WindowReadable(mem, info, line);
    MonoInside(|mem|, info, line, x, y);
    RowsShift(info, line, y);
    MulMono(0, y, line);
  }

  lemma {:induction false} WindowMonoRow(mem: seq<byte>, info: VarInfo, black: bool, line: nat, y: nat, n: nat)
    requires MonoReadable(|mem|, info, line) && n <= BytesPerRow(info) && y < info.yres
    ensures MonoRow(From(mem, info, line), Unshifted(info), black, line, y, n) ==
            MonoRow(mem, info, black, line, y, n)
  {
    if n == 0 {
    } else {
      WindowMonoByte(mem, info, black, line, n - 1, y);
      WindowMonoRow(mem, info, black, line, y, n - 1);
    }
  }

  /** Bodies with the same rows are the same. */
  lemma {:induction false} SameMonoRows(mem: seq<byte>, info: VarInfo, mem': seq<byte>, info': VarInfo, black: bool,
                                        line: nat, n: nat)
    requires MonoReadable(|mem|, info, line) && MonoReadable(|mem'|, info', line)
    requires info'.xres == info.xres && n <= info.yres == info'.yres
    requires forall y | 0 <= y < n ::
               MonoRow(mem', info', black, line, y, BytesPerRow(info)) ==
               MonoRow(mem, info, black, line, y, BytesPerRow(info))
    ensures MonoBody(mem', info', black, line, n) == MonoBody(mem, info, black, line, n)
  {
    if n == 0 {
    } else {
      SameMonoRows(mem, info, mem', info', black, line, n - 1);
    }
  }

  lemma WindowMonoBody(mem: seq<byte>, info: VarInfo, black: bool, line: nat, n: nat)
    requires MonoReadable(|mem|, info, line) && n <= info.yres
    ensures MonoBody(From(mem, info, line), Unshifted(info), black, line, n) == MonoBody(mem, info, black, line, n)
  {
    var window := From(mem, info, line);
    forall y | 0 <= y < n
      ensures MonoRow(window, Unshifted(info), black, line, y, BytesPerRow(info)) ==
              MonoRow(mem, info, black, line, y, BytesPerRow(info))
    {
      WindowMonoRow(mem, info, black, line, y, BytesPerRow(info));
    }
    SameMonoRows(mem, info, window, Unshifted(info), black, line, n);
  }

  lemma WindowIsFrom(d: Device)
    requires Mappable(d)
    ensures (d.info.yoffset + d.info.yres) * d.line <= |Mapped(d)| && Window(d) == From(Mapped(d), d.info, d.line)
  {
    LinesCommute(d);
  }

  lemma ColorFallback(d: Device, cmap: Colormap)
    requires Mappable(d) && IsColormap(cmap) && FieldsFit(d.info)
    requires Readable(|Mapped(d)|, d.info, d.line) && Readable(|Window(d)|, Unshifted(d.info), d.line)
    ensures Body(Mapped(d), d.info, cmap, d.line, d.info.yres) ==
            Body(Window(d), Unshifted(d.info), cmap, d.line, d.info.yres)
  {
    WindowIsFrom(d);
    WindowBody(Mapped(d), d.info, cmap, d.line, d.info.yres);
  }

  lemma MonoFallback(d: Device, black: bool)
    requires Mappable(d)
    requires MonoReadable(|Mapped(d)|, d.info, d.line) && MonoReadable(|Window(d)|, Unshifted(d.info), d.line)
    ensures MonoBody(Mapped(d), d.info, black, d.line, d.info.yres) ==
            MonoBody(Window(d), Unshifted(d.info), black, d.line, d.info.yres)
  {
    WindowIsFrom(d);
    WindowMonoBody(Mapped(d), d.info, black, d.line, d.info.yres);
  }

  lemma MappedDumpable(d: Device)
    requires Sane(d) && Accepted(d) && Mappable(d)
    ensures Dumpable(d, d.info, |Mapped(d)|) && Dumpable(d, Unshifted(d.info), |Window(d)|)
  {
    WindowIsFrom(d);
    WindowDumpable(d);
  }

  /** Mapping the whole frame dumps the same image as reading the window with the row offset forced to zero, for
      every content, offset and geometry. */
  lemma FallbackAgrees(d: Device, cmap: Colormap)
    requires Sane(d) && Accepted(d) && Mappable(d) && IsColormap(cmap)
    ensures Dumpable(d, d.info, |Mapped(d)|) && Dumpable(d, d.info.(yoffset := 0), |Window(d)|)
    ensures Dump(d, d.info, cmap, Mapped(d)) == Dump(d, d.info.(yoffset := 0), cmap, Window(d))
  {
    MappedDumpable(d);
    if !IsMono(d.visual) {
      ColorFallback(d, cmap);
    } else if d.info.xoffset % 8 == 0 {
      MonoFallback(d, d.visual.Mono10?);
    }
  }

  // What a truecolor dump makes of the entries that are never set.

  /** Two channels that agree on the values of a field. */
  predicate SameChannel(f: BitField, c: seq<nat>, e: seq<nat>) {
    IsChannel(c) && IsChannel(e) && forall i | 0 <= i < Pow2(f.length) && i < MAP_SIZE :: c[i] == e[i]
  }

  predicate SameMaps(info: VarInfo, c: Colormap, e: Colormap) {
    && SameChannel(info.red, c.red, e.red)
    && SameChannel(info.green, c.green, e.green)
    && SameChannel(info.blue, c.blue, e.blue)
  }

  lemma SameColor(pixel: nat, f: BitField, c: seq<nat>, e: seq<nat>)
    requires FieldFits(f) && SameChannel(f, c, e)
    ensures GetColor(pixel, f, c) == GetColor(pixel, f, e)
  {
    Pow2UpTo8(f.length);
    assert c[Field(pixel, f)] == e[Field(pixel, f)];
  }

  lemma SameTriple(mem: seq<byte>, info: VarInfo, c: Colormap, e: Colormap, line: nat, x: nat, y: nat)
    requires Readable(|mem|, info, line) && FieldsFit(info) && SameMaps(info, c, e)
    requires x < info.xres && y < info.yres
    ensures Triple(mem, info, c, line, x, y) == Triple(mem, info, e, line, x, y)
  {
    PixelInside(|mem|, info, line, x, y);
    var pixel := Load(mem, PixelAt(info, line, x, y), BytesPerPixel(info));
    SameColor(pixel, info.red, c.red, e.red);
    SameColor(pixel, info.green, c.green, e.green);
    SameColor(pixel, info.blue, c.blue, e.blue);
  }

  lemma {:induction false} SameRowBody(mem: seq<byte>, info: VarInfo, c: Colormap, e: Colormap, line: nat, y: nat,
                                       n: nat)
    requires Readable(|mem|, info, line) && FieldsFit(info) && SameMaps(info, c, e) && n <= info.xres && y < info.yres
    ensures RowBody(mem, info, c, line, y, n) == RowBody(mem, info, e, line, y, n)
  {
    if n == 0 {
    } else {
      SameTriple(mem, info, c, e, line, n - 1, y);
      SameRowBody(mem, info, c, e, line, y, n - 1);
    }
  }

  lemma SameBody(mem: seq<byte>, info: VarInfo, c: Colormap, e: Colormap, line: nat, n: nat)
    requires Readable(|mem|, info, line) && FieldsFit(info) && SameMaps(info, c, e) && n <= info.yres
    ensures Body(mem, info, c, line, n) == Body(mem, info, e, line, n)
  {
    forall y | 0 <= y < n
      ensures RowBody(mem, info, c, line, y, info.xres) == RowBody(mem, info, e, line, y, info.xres)
    {
      SameRowBody(mem, info, c, e, line, y, info.xres);
    }
    SameRows(mem, info, c, mem, info, e, line, n);
  }

  lemma MapsAgree(d: Device, c: Colormap, e: Colormap)
    requires IsColormap(c) && IsColormap(e) && MapFor(d, c) && MapFor(d, e)
    ensures SameMaps(d.info, c, e)
  {
  }

  /** The screenshot is a function of the device: whatever the colormap holds in the entries that are never set, the
      output is the same. */
  lemma UnsetEntriesUnread(d: Device, c: Colormap, e: Colormap)
    requires Sane(d) && IsColormap(c) && IsColormap(e) && (Accepted(d) ==> MapFor(d, c) && MapFor(d, e))
    ensures Screenshot(d, c) == Screenshot(d, e)
  {
    if Accepted(d) && Complete(d) && !IsMono(d.visual) {
      WindowDumpable(d);
      MapsAgree(d, c, e);
      SameBody(Window(d), Unshifted(d.info), c, e, d.line, d.info.yres);
    }
  }

  method TrueColorMap(d: Device) returns (cmap: Colormap)
    requires Sane(d) && Accepted(d) && d.visual.TrueColor?
    ensures IsColormap(cmap)
    ensures IsTrueColor(cmap.red, d.info.red.length)
    ensures IsTrueColor(cmap.green, d.info.green.length)
    ensures IsTrueColor(cmap.blue, d.info.blue.length)
  {
    var red, green, blue := new nat[MAP_SIZE](i => 0), new nat[MAP_SIZE](i => 0), new nat[MAP_SIZE](i => 0);
    InitChannel(red, d.info.red.length);
    InitChannel(green, d.info.green.length);
    InitChannel(blue, d.info.blue.length);
    cmap := Colormap(red[..], green[..], blue[..]);
  }

  /** Maps the frame, or reads its visible lines and forgets the row offset. The kernel may refuse to map, and does
      when the device is shorter than the mapping asked for; a short read is an error. */
  method ReadFrame(d: Device, mayMap: bool) returns (ok: bool, yoffset: nat, mem: seq<byte>)
    ensures ok <==> Complete(d)
    ensures ok ==>
              || (Mappable(d) && yoffset == d.info.yoffset && mem == Mapped(d))
              || (yoffset == 0 && mem == Window(d))
  {
    LinesCommute(d);
    MulMono(0, d.info.yoffset, d.line);
    MulMono(0, d.info.yres, d.line);
    ok, yoffset, mem := true, d.info.yoffset, [];
    var mappedLength := d.line * (d.info.yres + d.info.yoffset);
    if mayMap && mappedLength <= |d.content| {
      mem := d.content[..mappedLength];
    } else {
      var bufferSize, offset := d.line * d.info.yres, d.line * d.info.yoffset;
      yoffset := 0;
      mem := if |d.content| <= offset then []
             else d.content[offset..if |d.content| < offset + bufferSize then |d.content| else offset + bufferSize];
      ok := |mem| == bufferSize;
    }
  }

  /** The checks before the frame is read. */
  method Check(d: Device) returns (accepted: bool, mono: bool, blackIsZero: bool)
    ensures accepted <==> Accepted(d)
    ensures accepted ==> mono == IsMono(d.visual) && blackIsZero == d.visual.Mono10?
  {
    accepted, mono, blackIsZero := false, false, false;
    if !d.packedPixels || d.info.red.length > 8 || d.info.green.length > 8 || d.info.blue.length > 8 {
      return;
    }
    match d.visual {
      case TrueColor =>
      case DirectColor =>
      case PseudoColor =>
      case StaticPseudoColor =>
      case Mono01 => mono := true;
      case Mono10 => mono, blackIsZero := true, true;
      case OtherVisual => return;
    }
    accepted := (d.info.bpp >= 8 || mono) && (d.info.bpp == 1 || !mono);
  }

  /** The colormap of the device: computed for a truecolor visual, asked for otherwise. */
  method LoadColormap(d: Device) returns (cmap: Colormap)
    requires Sane(d) && Accepted(d)
    ensures IsColormap(cmap) && MapFor(d, cmap)
  {
    if d.visual.TrueColor? {
      cmap := TrueColorMap(d);
    } else {
      cmap := d.palette;
    }
  }

  /** The program from the queries to the dump, in terms of the colormap that it fills in. */
  method Run(d: Device, mayMap: bool) returns (r: Result<seq<byte>, Error>, cmap: Colormap)
    requires Sane(d)
    ensures IsColormap(cmap) && (Accepted(d) ==> MapFor(d, cmap))
    ensures r == Screenshot(d, cmap)
  {
    cmap := d.palette;
    var accepted, mono, blackIsZero := Check(d);
    if !accepted {
      return Err(NotSupported), cmap;
    }
    cmap := LoadColormap(d);
    var ok, yoffset, mem := ReadFrame(d, mayMap);
    if !ok {
      return Err(ReadFailed), cmap;
    }
    WindowDumpable(d);
    if Mappable(d) {
      FallbackAgrees(d, cmap);
    }
    if mono {
      r := DumpVideoMemoryMono(mem, d.info.(yoffset := yoffset), blackIsZero, d.line);
    } else {
      var out := DumpVideoMemory(mem, d.info.(yoffset := yoffset), cmap, d.line);
      r := Ok(out);
    }
  }

  // ---------------------------------------------------------------- the image, from the device's own fields

  /** The program refuses the device, before it reads it or, for a mono offset, behind that. */
  predicate Refused(d: Device) {
    var mono := d.visual == Mono01 || d.visual == Mono10;
    || !d.packedPixels
    || d.info.red.length > 8 || d.info.green.length > 8 || d.info.blue.length > 8
    || d.visual == OtherVisual
    || (d.info.bpp < 8 && !mono)
    || (mono && d.info.bpp != 1)
    || (mono && d.info.xoffset % 8 != 0 && !Short(d))
  }

  /** The device has fewer bytes than the lines up to the last visible one, of which some are not empty. */
  predicate Short(d: Device) {
    d.line * d.info.yres > 0 && |d.content| < d.line * (d.info.yres + d.info.yoffset)
  }

  lemma ShortExactly(d: Device)
    ensures Short(d) <==> !Complete(d)
  {
    MulMono(0, d.info.yres, d.line);
  }

  /** Which devices are refused, which cannot be read, and which give an image, with its size. */
  lemma OutcomeExactly(d: Device, cmap: Colormap)
    requires Sane(d) && IsColormap(cmap)
    ensures Screenshot(d, cmap) == Err(NotSupported) <==> Refused(d)
    ensures Screenshot(d, cmap) == Err(ReadFailed) <==> !Refused(d) && Short(d)
    ensures !Refused(d) && !Short(d) ==>
              && Screenshot(d, cmap).Ok?
              && |Screenshot(d, cmap).value| ==
                 d.info.yres * if d.visual == Mono01 || d.visual == Mono10 then (d.info.xres + 7) / 8
                               else 3 * d.info.xres
  {
    ShortExactly(d);
  }

  /** The byte that a channel of a pixel becomes: its value, scaled to sixteen bits for a truecolor visual and looked
      up in the palette for the others, without its low byte. */
  function ChannelByte(d: Device, pixel: nat, f: BitField, palette: seq<nat>): int
    requires f.length <= 8 && |palette| == MAP_SIZE && (d.visual.TrueColor? ==> 1 <= f.length)
  {
    Pow2UpTo8(f.length);
    var i := pixel / Pow2(f.offset) % Pow2(f.length);
    if d.visual.TrueColor? then i * 0xFFFF / (Pow2(f.length) - 1) / 0x100 else palette[i] / 0x100
  }

  lemma ChannelOfMap(d: Device, pixel: nat, f: BitField, map': seq<nat>, palette: seq<nat>)
    requires FieldFits(f) && IsChannel(map') && IsChannel(palette)
    requires if d.visual.TrueColor? then IsTrueColor(map', f.length) else map' == palette
    ensures GetColor(pixel, f, map') == ChannelByte(d, pixel, f, palette)
  {
    Pow2UpTo8(f.length);
    assert d.visual.TrueColor? ==> map'[Field(pixel, f)] == Entry(Field(pixel, f), f.length);
  }

  /** A device with colours that gives an image. */
  predicate InColor(d: Device) {
    !Refused(d) && !Short(d) && d.visual != Mono01 && d.visual != Mono10
  }

  predicate InMono(d: Device) {
    !Refused(d) && !Short(d) && (d.visual == Mono01 || d.visual == Mono10)
  }

  /** The three bytes of pixel (x, y) of the image are the channels of the pixel in the content of the device, with the
      offsets of the visible part added. */
  predicate ColorShown(d: Device, out: seq<byte>, x: nat, y: nat)
    requires Sane(d) && InColor(d)
  {
    var n := (d.info.bpp + 7) / 8;
    var from, to := (y + d.info.yoffset) * d.line + (d.info.xoffset + x) * n, y * (3 * d.info.xres) + 3 * x;
    && 0 <= from && from + n <= |d.content| && 0 <= to && to + 3 <= |out|
    && var pixel := Load(d.content, from, n);
       && out[to] == ChannelByte(d, pixel, d.info.red, d.palette.red)
       && out[to + 1] == ChannelByte(d, pixel, d.info.green, d.palette.green)
       && out[to + 2] == ChannelByte(d, pixel, d.info.blue, d.palette.blue)
  }

  /** The bit of pixel (x, y) of the image, the high one first, is the bit of the pixel in the content of the device,
      the low one first, negated for the visual in which a set bit is white. */
  predicate MonoShown(d: Device, out: seq<byte>, x: nat, y: nat) {
    var from := (y + d.info.yoffset) * d.line + (d.info.xoffset + x) / 8;
    var to := y * ((d.info.xres + 7) / 8) + x / 8;
    && 0 <= from < |d.content| && 0 <= to < |out|
    && (HasBit(out[to], 7 - x % 8) <==> HasBit(d.content[from], (d.info.xoffset + x) % 8) != (d.visual == Mono10))
  }

  /** Something of the device is visible, so that all its lines can be mapped. */
  lemma VisibleIsMappable(d: Device)
    requires Sane(d) && Accepted(d) && Complete(d) && 0 < d.info.xres && 0 < d.info.yres
    requires IsMono(d.visual) ==> d.info.xoffset % 8 == 0
    ensures Mappable(d)
  {
    if !IsMono(d.visual) {
      MulMono(1, BytesPerPixel(d.info), d.info.xoffset + d.info.xres);
    }
    assert 0 < d.line;
    MulMono(1, d.info.yres, d.line);
  }

  lemma PixelOfContent(d: Device, x: nat, y: nat)
    requires Mappable(d) && Readable(|Mapped(d)|, d.info, d.line) && x < d.info.xres && y < d.info.yres
    ensures var n := (d.info.bpp + 7) / 8;
            var from := (y + d.info.yoffset) * d.line + (d.info.xoffset + x) * n;
            && PixelAt(d.info, d.line, x, y) == from && 0 <= from && from + n <= |Mapped(d)| <= |d.content|
            && Load(Mapped(d), from, n) == Load(d.content, from, n)
  {
    var n := BytesPerPixel(d.info);
    MulDistrib(d.info.xoffset, x, n);
    PixelInside(|Mapped(d)|, d.info, d.line, x, y);
    LoadWindow(d.content, 0, |Mapped(d)|, PixelAt(d.info, d.line, x, y), n);
  }

  lemma ChannelsOfMap(d: Device, cmap: Colormap, pixel: nat)
    requires FieldsFit(d.info) && IsColormap(cmap) && IsColormap(d.palette) && MapFor(d, cmap)
    requires d.visual.TrueColor? ==> 1 <= d.info.red.length && 1 <= d.info.green.length && 1 <= d.info.blue.length
    ensures Colors(d.info.red, d.info.green, d.info.blue, cmap, pixel) ==
            [ChannelByte(d, pixel, d.info.red, d.palette.red), ChannelByte(d, pixel, d.info.green, d.palette.green),
             ChannelByte(d, pixel, d.info.blue, d.palette.blue)]
  {
    ChannelOfMap(d, pixel, d.info.red, cmap.red, d.palette.red);
    ChannelOfMap(d, pixel, d.info.green, cmap.green, d.palette.green);
    ChannelOfMap(d, pixel, d.info.blue, cmap.blue, d.palette.blue);
  }

  lemma ThreeOf(out: seq<byte>, to: nat, triple: seq<byte>)
    requires to + 3 <= |out| && out[to..to + 3] == triple
    ensures out[to] == triple[0] && out[to + 1] == triple[1] && out[to + 2] == triple[2]
  {
    assert out[to..to + 3][0] == out[to] && out[to..to + 3][1] == out[to + 1] && out[to..to + 3][2] == out[to + 2];
  }

  lemma ColorOfContent(d: Device, cmap: Colormap, out: seq<byte>, x: nat, y: nat)
    requires Sane(d) && InColor(d) && IsColormap(cmap) && MapFor(d, cmap) && FieldsFit(d.info)
    requires Mappable(d) && Readable(|Mapped(d)|, d.info, d.line) && x < d.info.xres && y < d.info.yres
    requires out == Body(Mapped(d), d.info, cmap, d.line, d.info.yres)
    ensures ColorShown(d, out, x, y)
  {
    ImagePixel(Mapped(d), d.info, cmap, d.line, x, y);
    TripleOfContent(d, cmap, x, y);
    ThreeOf(out, y * (3 * d.info.xres) + 3 * x, Triple(Mapped(d), d.info, cmap, d.line, x, y));
  }

  lemma TripleOfContent(d: Device, cmap: Colormap, x: nat, y: nat)
    requires IsColormap(cmap) && IsColormap(d.palette) && MapFor(d, cmap) && FieldsFit(d.info)
    requires d.visual.TrueColor? ==> 1 <= d.info.red.length && 1 <= d.info.green.length && 1 <= d.info.blue.length
    requires Mappable(d) && Readable(|Mapped(d)|, d.info, d.line) && x < d.info.xres && y < d.info.yres
    ensures var n := (d.info.bpp + 7) / 8;
            var from := (y + d.info.yoffset) * d.line + (d.info.xoffset + x) * n;
            && 0 <= from && from + n <= |d.content|
            && var pixel := Load(d.content, from, n);
               Triple(Mapped(d), d.info, cmap, d.line, x, y) ==
               [ChannelByte(d, pixel, d.info.red, d.palette.red), ChannelByte(d, pixel, d.info.green, d.palette.green),
                ChannelByte(d, pixel, d.info.blue, d.palette.blue)]
  {
    PixelOfContent(d, x, y);
    ChannelsOfMap(d, cmap, Load(Mapped(d), PixelAt(d.info, d.line, x, y), BytesPerPixel(d.info)));
  }

  lemma ColorPixel(d: Device, cmap: Colormap, x: nat, y: nat)
    requires Sane(d) && IsColormap(cmap) && InColor(d) && MapFor(d, cmap) && x < d.info.xres && y < d.info.yres
    ensures Screenshot(d, cmap).Ok? && ColorShown(d, Screenshot(d, cmap).value, x, y)
  {
    ShortExactly(d);
    VisibleIsMappable(d);
    FallbackAgrees(d, cmap);
    ColorOfContent(d, cmap, Screenshot(d, cmap).value, x, y);
  }

  lemma MonoOfContent(d: Device, out: seq<byte>, x: nat, y: nat)
    requires IsMono(d.visual) && Mappable(d) && MonoReadable(|Mapped(d)|, d.info, d.line) && d.info.xoffset % 8 == 0
    requires x < d.info.xres && y < d.info.yres
    requires out == MonoBody(Mapped(d), d.info, d.visual.Mono10?, d.line, d.info.yres)
    ensures MonoShown(d, out, x, y)
  {
    MonoPixel(Mapped(d), d.info, d.visual.Mono10?, d.line, x, y);
    MappedByte(d, (y + d.info.yoffset) * d.line + (d.info.xoffset + x) / 8);
  }

  lemma MappedByte(d: Device, i: int)
    requires Mappable(d) && 0 <= i < |Mapped(d)|
    ensures |Mapped(d)| <= |d.content| && Mapped(d)[i] == d.content[i]
  {
  }

  lemma MonoPixelShown(d: Device, cmap: Colormap, x: nat, y: nat)
    requires Sane(d) && IsColormap(cmap) && InMono(d) && x < d.info.xres && y < d.info.yres
    ensures Screenshot(d, cmap).Ok? && MonoShown(d, Screenshot(d, cmap).value, x, y)
  {
    ShortExactly(d);
    VisibleIsMappable(d);
    FallbackAgrees(d, cmap);
    MonoOfContent(d, Screenshot(d, cmap).value, x, y);
  }

  /** The program, said of the device alone: which devices it refuses, which it cannot read, and for the others the
      size of the image and every pixel of it. It does not matter whether the kernel maps, nor what the unset entries of
      the colormap hold. The colormap is returned beside the output. */
  method Capture(d: Device, mayMap: bool) returns (r: Result<seq<byte>, Error>, cmap: Colormap)
    requires Sane(d)
    ensures IsColormap(cmap) && (Accepted(d) ==> MapFor(d, cmap))
    ensures forall e | IsColormap(e) && (Accepted(d) ==> MapFor(d, e)) :: r == Screenshot(d, e)
    ensures r == Err(NotSupported) <==> Refused(d)
    ensures r == Err(ReadFailed) <==> !Refused(d) && Short(d)
    ensures InColor(d) ==>
              && r.Ok? && |r.value| == d.info.yres * (3 * d.info.xres)
              && forall x, y | 0 <= x < d.info.xres && 0 <= y < d.info.yres :: ColorShown(d, r.value, x, y)
    ensures InMono(d) ==>
              && r.Ok? && |r.value| == d.info.yres * ((d.info.xres + 7) / 8)
              && forall x, y | 0 <= x < d.info.xres && 0 <= y < d.info.yres :: MonoShown(d, r.value, x, y)
  {
    r, cmap := Run(d, mayMap);
    forall e | IsColormap(e) && (Accepted(d) ==> MapFor(d, e))
      ensures r == Screenshot(d, e)
    {
      UnsetEntriesUnread(d, cmap, e);
    }
    OutcomeExactly(d, cmap);
    forall x, y | InColor(d) && 0 <= x < d.info.xres && 0 <= y < d.info.yres
      ensures ColorShown(d, r.value, x, y)
    {
      ColorPixel(d, cmap, x, y);
    }
    forall x, y | InMono(d) && 0 <= x < d.info.xres && 0 <= y < d.info.yres
      ensures MonoShown(d, r.value, x, y)
    {
      MonoPixelShown(d, cmap, x, y);
    }
  }

  predicate IsXrgb8888(d: Device) {
    && d.packedPixels && d.visual == TrueColor && d.info.bpp == 32 && IsColormap(d.palette)
    && d.info.red == BitField(16, 8) && d.info.green == BitField(8, 8) && d.info.blue == BitField(0, 8)
  }

  /** A 32-bit truecolor screen with eight bits for red, green and blue, from the top: the image has the bytes of the
      device, in the opposite order. */
  lemma Xrgb8888(d: Device, cmap: Colormap, x: nat, y: nat)
    requires IsXrgb8888(d) && (d.info.xoffset + d.info.xres) * 4 <= d.line
    requires d.line * (d.info.yres + d.info.yoffset) <= |d.content|
    requires x < d.info.xres && y < d.info.yres && IsColormap(cmap) && MapFor(d, cmap)
    ensures var at, to := (y + d.info.yoffset) * d.line + (d.info.xoffset + x) * 4, y * (3 * d.info.xres) + 3 * x;
            && Sane(d) && Screenshot(d, cmap).Ok? && to + 3 <= |Screenshot(d, cmap).value|
            && 0 <= at && at + 4 <= |d.content| && 0 <= to
            && Screenshot(d, cmap).value[to..to + 3] == [d.content[at + 2], d.content[at + 1], d.content[at]]
  {
    ColorPixel(d, cmap, x, y);
    XrgbBytes(d, cmap, (y + d.info.yoffset) * d.line + (d.info.xoffset + x) * 4);
    SliceOfThree(Screenshot(d, cmap).value, y * (3 * d.info.xres) + 3 * x);
  }

  lemma SliceOfThree(out: seq<byte>, to: int)
    requires 0 <= to && to + 3 <= |out|
    ensures out[to..to + 3] == [out[to], out[to + 1], out[to + 2]]
  {
  }

  lemma XrgbBytes(d: Device, cmap: Colormap, at: int)
    requires IsXrgb8888(d) && IsColormap(cmap) && MapFor(d, cmap) && 0 <= at && at + 4 <= |d.content|
    ensures var pixel := Load(d.content, at, 4);
            && ChannelByte(d, pixel, d.info.red, d.palette.red) == d.content[at + 2]
            && ChannelByte(d, pixel, d.info.green, d.palette.green) == d.content[at + 1]
            && ChannelByte(d, pixel, d.info.blue, d.palette.blue) == d.content[at]
  {
    var pixel := Load(d.content, at, 4);
    LoadWord(d.content, at);
    D.BytesOfWord32(d.content[at], d.content[at + 1], d.content[at + 2], d.content[at + 3]);
    D.ColorBytes(d.info, cmap, pixel);
    ChannelsOfMap(d, cmap, pixel);
  }
}
