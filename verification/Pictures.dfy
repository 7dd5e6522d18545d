/** Pictures: the pixels of a memory, and what storing the bytes of one pixel changes. */
module Pictures {
  import opened Bytes

  /** The bytes of every pixel: rows of pixels. */
  type Picture = seq<seq<seq<byte>>>

  /** The first `n` pixels of a row whose pixels are `pw` bytes wide. */
  function Pixels(row: seq<byte>, pw: nat, n: nat): (r: seq<seq<byte>>)
    requires n * pw <= |row|
    ensures |r| == n
  {
    if n == 0 then []
    else
      MulDistrib(n - 1, 1, pw);
      MulMono(0, n - 1, pw);
      Pixels(row, pw, n - 1) + [row[(n - 1) * pw..n * pw]]
  }

  lemma {:induction false} PixelsAt(row: seq<byte>, pw: nat, n: nat, i: nat)
    requires n * pw <= |row| && i < n
    ensures 0 <= i * pw && (i + 1) * pw <= |row| && i * pw + pw == (i + 1) * pw
    ensures Pixels(row, pw, n)[i] == row[i * pw..(i + 1) * pw]
  {
    MulDistrib(i, 1, pw);
    MulMono(0, i, pw);
    MulMono(i + 1, n, pw);
    MulMono(n - 1, n, pw);
    if i == n - 1 {
    } else {
      PixelsAt(row, pw, n - 1, i);
    }
  }

  /** The first `n` rows of a memory whose rows are `line` bytes apart. */
  function Rows(mem: seq<byte>, line: nat, pw: nat, xres: nat, n: nat): (r: Picture)
    requires n * line <= |mem| && xres * pw <= line
    ensures |r| == n && forall i | 0 <= i < n :: |r[i]| == xres
  {
    if n == 0 then []
    else
      MulDistrib(n - 1, 1, line);
      MulMono(0, n - 1, line);
      Rows(mem, line, pw, xres, n - 1) + [Pixels(mem[(n - 1) * line..n * line], pw, xres)]
  }

  lemma {:induction false} RowsAt(mem: seq<byte>, line: nat, pw: nat, xres: nat, n: nat, i: nat)
    requires n * line <= |mem| && xres * pw <= line && i < n
    ensures 0 <= i * line && (i + 1) * line <= |mem| && i * line + line == (i + 1) * line
    ensures Rows(mem, line, pw, xres, n)[i] == Pixels(mem[i * line..(i + 1) * line], pw, xres)
  {
    MulDistrib(i, 1, line);
    MulMono(0, i, line);
    MulMono(i + 1, n, line);
    MulMono(n - 1, n, line);
    if i == n - 1 {
    } else {
      RowsAt(mem, line, pw, xres, n - 1, i);
    }
  }

  /** What storing `v` at offset `at` makes of a memory. */
  predicate Stored(mem: seq<byte>, mem': seq<byte>, at: int, v: seq<byte>) {
    && 0 <= at && at + |v| <= |mem| && |mem'| == |mem|
    && forall k | 0 <= k < |mem| :: mem'[k] == if at <= k < at + |v| then v[k - at] else mem[k]
  }

  lemma StoreInRow(row: seq<byte>, row': seq<byte>, pw: nat, n: nat, x: nat, v: seq<byte>)
    requires n * pw <= |row| && x < n && |v| == pw && Stored(row, row', x * pw, v)
    ensures Pixels(row', pw, n) == Pixels(row, pw, n)[x := v]
  {
    forall j | 0 <= j < n
      ensures Pixels(row', pw, n)[j] == Pixels(row, pw, n)[x := v][j]
    {
      PixelsAt(row, pw, n, j);
      PixelsAt(row', pw, n, j);
      Apart(j, x, pw);
    }
  }

  /** Two cells of equal size are the same or do not overlap. */
  lemma Apart(i: nat, j: nat, size: nat)
    ensures i < j ==> i * size + size <= j * size
    ensures j < i ==> j * size + size <= i * size
  {
    MulDistrib(i, 1, size);
    MulDistrib(j, 1, size);
    if i < j {
      MulMono(i + 1, j, size);
    } else if j < i {
      MulMono(j + 1, i, size);
    }
  }

  /** Where the bytes of a pixel are, inside its row and inside the memory. */
  lemma PixelPlace(line: nat, pw: nat, xres: nat, yres: nat, x: nat, y: nat)
    requires xres * pw <= line && x < xres && y < yres
    ensures 0 <= x * pw && x * pw + pw <= line
    ensures 0 <= y * line && y * line + line <= yres * line
  {
    MulMono(0, x, pw);
    MulMono(x + 1, xres, pw);
    MulDistrib(x, 1, pw);
    MulMono(0, y, line);
    MulMono(y + 1, yres, line);
    MulDistrib(y, 1, line);
  }

  /** A store seen from a slice of the memory: inside it, or not at all. */
  lemma SliceOfStore(mem: seq<byte>, mem': seq<byte>, at: int, v: seq<byte>, lo: nat, hi: nat)
    requires Stored(mem, mem', at, v) && lo <= hi <= |mem|
    ensures hi <= at || at + |v| <= lo ==> mem'[lo..hi] == mem[lo..hi]
    ensures lo <= at && at + |v| <= hi ==> Stored(mem[lo..hi], mem'[lo..hi], at - lo, v)
  {
  }

  lemma StoreInRows(mem: seq<byte>, mem': seq<byte>, line: nat, pw: nat, xres: nat, yres: nat, x: nat, y: nat,
                    v: seq<byte>, j: nat)
    requires yres * line <= |mem| && xres * pw <= line && x < xres && y < yres && |v| == pw && j < yres
    requires Stored(mem, mem', y * line + x * pw, v)
    ensures Rows(mem', line, pw, xres, yres)[j] ==
            if j == y then Rows(mem, line, pw, xres, yres)[y][x := v] else Rows(mem, line, pw, xres, yres)[j]
  {
    PixelPlace(line, pw, xres, yres, x, y);
    RowsAt(mem, line, pw, xres, yres, j);
    RowsAt(mem', line, pw, xres, yres, j);
    Apart(j, y, line);
    StoreInLine(mem, mem', j * line, (j + 1) * line, y * line, pw, xres, x, v);
  }

  /** A store into the line that starts at `base`, seen from the line `lo` to `hi`, the same line or another. */
  lemma StoreInLine(mem: seq<byte>, mem': seq<byte>, lo: nat, hi: nat, base: nat, pw: nat, xres: nat, x: nat,
                    v: seq<byte>)
    requires lo <= hi <= |mem| && xres * pw <= hi - lo && x < xres && |v| == pw
    requires 0 <= x * pw && x * pw + pw <= hi - lo && Stored(mem, mem', base + x * pw, v)
    requires lo == base || base + (hi - lo) <= lo || hi <= base
    ensures Pixels(mem'[lo..hi], pw, xres) ==
            if lo == base then Pixels(mem[lo..hi], pw, xres)[x := v] else Pixels(mem[lo..hi], pw, xres)
  {
    SliceOfStore(mem, mem', base + x * pw, v, lo, hi);
    if lo == base {
      StoreInRow(mem[lo..hi], mem'[lo..hi], pw, xres, x, v);
    }
  }

  /** Storing the bytes of one pixel changes that pixel of the picture and no other. */
  lemma StoreIsDot(mem: seq<byte>, mem': seq<byte>, line: nat, pw: nat, xres: nat, yres: nat, x: nat, y: nat,
                   v: seq<byte>)
    requires yres * line <= |mem| && xres * pw <= line && x < xres && y < yres && |v| == pw
    requires Stored(mem, mem', y * line + x * pw, v)
    ensures Rows(mem', line, pw, xres, yres) == Dot(xres, yres, Rows(mem, line, pw, xres, yres), x, y, v)
  {
    forall j | 0 <= j < yres
      ensures Rows(mem', line, pw, xres, yres)[j] == Dot(xres, yres, Rows(mem, line, pw, xres, yres), x, y, v)[j]
    {
      StoreInRows(mem, mem', line, pw, xres, yres, x, y, v, j);
    }
  }

  predicate OnScreen(xres: nat, yres: nat, x: int, y: int) {
    0 <= x < xres && 0 <= y < yres
  }

  predicate IsPicture(xres: nat, yres: nat, pic: Picture) {
    |pic| == yres && forall y | 0 <= y < yres :: |pic[y]| == xres
  }

  function Dot(xres: nat, yres: nat, pic: Picture, x: int, y: int, v: seq<byte>): (r: Picture)
    requires IsPicture(xres, yres, pic) && OnScreen(xres, yres, x, y)
    ensures IsPicture(xres, yres, r)
  {
    pic[y := pic[y][x := v]]
  }

  /** A pixel of the picture is the bytes at its place in the memory. */
  lemma PixelOfRows(mem: seq<byte>, line: nat, pw: nat, xres: nat, yres: nat, x: nat, y: nat)
    requires yres * line <= |mem| && xres * pw <= line && x < xres && y < yres
    ensures 0 <= y * line + x * pw && y * line + x * pw + pw <= |mem|
    ensures Rows(mem, line, pw, xres, yres)[y][x] == mem[y * line + x * pw..y * line + x * pw + pw]
  {
    PixelPlace(line, pw, xres, yres, x, y);
    RowsAt(mem, line, pw, xres, yres, y);
    PixelsAt(mem[y * line..(y + 1) * line], pw, xres, x);
    SliceInSlice(mem, y * line, (y + 1) * line, x * pw, (x + 1) * pw);
  }

  lemma SliceInSlice<T>(s: seq<T>, lo: nat, hi: nat, a: nat, b: nat)
    requires lo <= hi <= |s| && a <= b <= hi - lo
    ensures s[lo..hi][a..b] == s[lo + a..lo + b]
  {
    var part := s[lo..hi];
    forall i | a <= i < b
      ensures part[i] == s[lo + i]
    {
    }
    assert |part[a..b]| == b - a;
  }
}
