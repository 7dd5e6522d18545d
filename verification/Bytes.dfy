/** Bytes, machine words, little-endian order, and a few facts of arithmetic that the other modules share. */
module Bytes {

  /** Memory and pixels are numbers, so that addresses and channels can be computed with them. */
  type byte = x: int | 0 <= x < 0x100
  type word = x: int | 0 <= x < 0x1_0000_0000

  /** One more than the greatest word. */
  const WORD := 0x1_0000_0000

  /** Registers and flags are bit vectors. */
  type u8 = bv8
  type u16 = bv16
  type u32 = bv32

  datatype Option<+T> = None | Some(value: T)

  datatype Result<+T, +E> = Ok(value: T) | Err(error: E)

  function Pow2(n: nat): (r: nat)
    ensures 0 < r
  {
    if n == 0 then 1 else 2 * Pow2(n - 1)
  }

  // ---------------------------------------------------------------- bits of a byte

  /** `1 << k`. */
  function Mask(k: nat): u8
    requires k < 8
  {
    if k == 0 then 0x01 else if k == 1 then 0x02 else if k == 2 then 0x04 else if k == 3 then 0x08
    else if k == 4 then 0x10 else if k == 5 then 0x20 else if k == 6 then 0x40 else 0x80
  }

  /** Bit `k` of a byte. */
  predicate HasBit(b: byte, k: nat) {
    if k == 0 then b % 2 == 1 else HasBit(b / 2, k - 1)
  }

  lemma {:induction false} BitByDivision(b: byte, k: nat)
    requires k < 8
    ensures HasBit(b, k) <==> b / [1, 2, 4, 8, 16, 32, 64, 128][k] % 2 == 1
  {
    if k == 0 {
    } else {
      BitByDivision(b / 2, k - 1);
    }
  }

  /** The bits determine the number. */
  lemma {:induction false} SameBits(b: byte, c: byte, n: nat)
    requires b < Pow2(n) && c < Pow2(n) && forall k | 0 <= k < n :: HasBit(b, k) <==> HasBit(c, k)
    ensures b == c
  {
    if n == 0 {
    } else {
      assert HasBit(b, 0) <==> HasBit(c, 0);
      forall k | 0 <= k < n - 1
        ensures HasBit(b / 2, k) <==> HasBit(c / 2, k)
      {
        assert HasBit(b, k + 1) <==> HasBit(c, k + 1);
      }
      SameBits(b / 2, c / 2, n - 1);
    }
  }

  /** It is what `b & (1 << k)` tests. */
  lemma BitIsMask(b: byte, k: nat)
    requires k < 8
    ensures HasBit(b, k) <==> (b as u8) & Mask(k) != 0
  {
    BitByDivision(b, k);
  }

  // ---------------------------------------------------------------- little-endian words

  function Store16(v: nat): (r: seq<byte>)
    requires v < 0x1_0000
    ensures |r| == 2
  {
    [v % 0x100, v / 0x100]
  }

  function Store32(v: word): (r: seq<byte>)
    ensures |r| == 4
  {
    [v % 0x100, v / 0x100 % 0x100, v / 0x1_0000 % 0x100, v / 0x100_0000]
  }

  function Pow256(n: nat): (r: nat)
    ensures 0 < r
  {
    if n == 0 then 1 else 0x100 * Pow256(n - 1)
  }

  /** The number that `n` bytes hold, the low byte first. Shifted bytes do not overlap, so that `|` is a sum. */
  function Load(mem: seq<byte>, at: nat, n: nat): (r: nat)
    requires at + n <= |mem|
    ensures r < Pow256(n)
    decreases n
  {
    if n == 0 then 0 else mem[at] + 0x100 * Load(mem, at + 1, n - 1)
  }

  function Word16(b0: nat, b1: nat): nat {
    b0 + 0x100 * b1
  }

  function Word32(b0: byte, b1: byte, b2: byte, b3: byte): nat {
    b0 + 0x100 * b1 + 0x1_0000 * b2 + 0x100_0000 * b3
  }

  lemma LoadHalf(mem: seq<byte>, at: nat)
    requires at + 2 <= |mem|
    ensures Load(mem, at, 2) == Word16(mem[at], mem[at + 1])
  {
    assert Load(mem, at + 2, 0) == 0;
    assert Load(mem, at + 1, 1) == mem[at + 1];
  }

  lemma LoadWord(mem: seq<byte>, at: nat)
    requires at + 4 <= |mem|
    ensures Load(mem, at, 4) == Word32(mem[at], mem[at + 1], mem[at + 2], mem[at + 3])
  {
    LoadHalf(mem, at + 2);
    assert Load(mem, at + 1, 3) == mem[at + 1] + 0x100 * Load(mem, at + 2, 2);
  }

  /** One more byte on top. */
  lemma {:induction false} LoadGrows(mem: seq<byte>, at: nat, n: nat)
    requires at + n < |mem|
    ensures Load(mem, at, n + 1) == Load(mem, at, n) + mem[at + n] * Pow256(n)
    decreases n
  {
    if n != 0 {
      LoadGrows(mem, at + 1, n - 1);
      assert mem[at + n] * Pow256(n) == 0x100 * (mem[at + n] * Pow256(n - 1));
    } else {
      assert Load(mem, at + 1, 0) == 0;
    }
  }

  /** Loading through a window on the memory. */
  lemma {:induction false} LoadWindow(mem: seq<byte>, lo: nat, hi: nat, at: nat, n: nat)
    requires lo <= at && at + n <= hi <= |mem|
    ensures Load(mem[lo..hi], at - lo, n) == Load(mem, at, n)
    decreases n
  {
    if n == 0 {
    } else {
      LoadWindow(mem, lo, hi, at + 1, n - 1);
    }
  }

  lemma WordIsBytes(w: word)
    ensures w % 0x100 + 0x100 * (w / 0x100 % 0x100) + 0x1_0000 * (w / 0x1_0000 % 0x100)
            + 0x100_0000 * (w / 0x100_0000) == w
  {
    var high: nat := w / 0x100;
    var higher: nat := high / 0x100;
    DivModUnique(w, 0x1_0000, higher, high % 0x100 * 0x100 + w % 0x100);
    DivModUnique(w, 0x100_0000, higher / 0x100,
                 higher % 0x100 * 0x1_0000 + high % 0x100 * 0x100 + w % 0x100);
  }

  /** Storing a word and loading it back is the identity. */
  lemma StoreLoadRoundTrip(half: nat, w: word)
    requires half < 0x1_0000
    ensures Load(Store16(half), 0, 2) == half
    ensures Load(Store32(w), 0, 4) == w
  {
    LoadHalf(Store16(half), 0);
    LoadWord(Store32(w), 0);
    WordIsBytes(w);
  }

  // ---------------------------------------------------------------- joining fields

  /** `a | b`. */
  function BitOr(a: nat, b: nat): nat {
    if a == 0 && b == 0 then 0
    else 2 * BitOr(a / 2, b / 2) + if a % 2 == 1 || b % 2 == 1 then 1 else 0
  }

  lemma {:induction false} OrZero(a: nat)
    ensures BitOr(a, 0) == a
  {
    if a == 0 {
    } else {
      OrZero(a / 2);
    }
  }

  lemma OrDouble(a: nat, b: nat)
    ensures BitOr(2 * a, b) == 2 * BitOr(a, b / 2) + b % 2
  {
  }

  /** Joining fields that do not overlap is adding them. */
  lemma {:induction false} OrIsSum(a: nat, k: nat, b: nat)
    requires b < Pow2(k)
    ensures BitOr(a * Pow2(k), b) == a * Pow2(k) + b
  {
    OrZero(a);
    if k == 0 {
    } else {
      OrIsSum(a, k - 1, b / 2);
      MulAssoc(a, 2, Pow2(k - 1));
      MulAssoc(2, a, Pow2(k - 1));
      OrDouble(a * Pow2(k - 1), b);
    }
  }

  lemma {:induction false} Pow2Add(a: nat, b: nat)
    ensures Pow2(a + b) == Pow2(a) * Pow2(b)
  {
    if a == 0 {
    } else {
      Pow2Add(a - 1, b);
    }
  }

  lemma {:induction false} Pow2Mono(a: nat, b: nat)
    requires a <= b
    ensures Pow2(a) <= Pow2(b)
  {
    if a == b {
    } else {
      Pow2Mono(a, b - 1);
    }
  }

  lemma Pow2Words()
    ensures Pow2(0) == 1 && Pow2(5) == 0x20 && Pow2(10) == 0x400 && Pow2(11) == 0x800
    ensures Pow2(16) == 0x1_0000 && Pow2(32) == WORD
  {
    assert Pow2(4) == 16 && Pow2(8) == 0x100;
    assert Pow2(12) == 0x1000 && Pow2(16) == 0x1_0000 && Pow2(20) == 0x10_0000;
    assert Pow2(24) == 0x100_0000 && Pow2(28) == 0x1000_0000;
  }

  // ---------------------------------------------------------------- arithmetic

  lemma ConcatAssoc<T>(a: seq<T>, b: seq<T>, c: seq<T>)
    ensures (a + b) + c == a + (b + c)
  {
  }

  lemma MulAtLeast(a: int, d: int)
    requires 0 < d
    ensures 1 <= a ==> d <= a * d
    ensures a <= -1 ==> a * d <= -d
  {
  }

  lemma MulMono(a: int, b: int, d: int)
    requires a <= b && 0 <= d
    ensures a * d <= b * d
  {
  }

  lemma MulAssoc(a: int, b: int, c: int)
    ensures a * b * c == a * (b * c)
  {
  }

  lemma MulDistrib(a: int, b: int, c: int)
    ensures (a + b) * c == a * c + b * c
  {
  }

  /** Quotient and remainder are unique. */
  lemma DivModUnique(n: int, d: int, q: int, r: int)
    requires 0 < d && 0 <= r < d && n == q * d + r
    ensures n / d == q && n % d == r
  {
    var q', r' := n / d, n % d;
    assert (q' - q) * d == r - r';
    MulAtLeast(q' - q, d);
  }

  lemma QuotientAtLeast(a: nat, n: nat, q: nat)
    requires 0 < n && q * n <= a
    ensures q <= a / n
  {
    if a / n < q {
      MulMono(a / n + 1, q, n);
      MulDistrib(a / n, 1, n);
    }
  }

  lemma QuotientBelow(a: nat, d: nat, b: nat)
    requires 0 < d && a < b * d
    ensures a / d < b
  {
    if b <= a / d {
      MulMono(b, a / d, d);
    }
  }

  lemma QuotientWithin(a: nat, d: nat, b: nat)
    requires 0 < d && a <= d * b
    ensures a / d <= b
  {
    if b < a / d {
      MulMono(b + 1, a / d, d);
      MulDistrib(b, 1, d);
    }
  }
}
