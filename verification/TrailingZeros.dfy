/**
 * Exact division without division: the magic multipliers and the removal of trailing zeros
 * that finish the shortest-digits search.
 */
module TrailingZeros {
  import opened Powers
  import opened WideWords

  // ----- magic multipliers -----

  /** The quotient by 100 of a 32-bit word. */
  function DivideBy100(n: Word32): (q: Word32)
    ensures q == n / 100
  {
    MagicDivides(n, 100, 1374389535, 0x20_0000_0000);
    n * 1374389535 / 0x20_0000_0000
  }

  const MAGIC_1000: int := 2361183241434822607

  function DivideBy1000(n: Word64): Word64 {
    Umul128Upper(n, MAGIC_1000) / 0x80
  }

  /** The multiplier for 1000 serves all 64-bit words but those ending in 999 near the top. */
  lemma DivideBy1000Exact(n: Word64)
    ensures DivideBy1000(n) == n / 1000 <==> n % 1000 != 999 || n < 15534100272597517999
  {
    MagicProduct(n, 1000, MAGIC_1000, 0x80_0000_0000_0000_0000);
    TwoShifts(n * MAGIC_1000);
    ExcessOf1000(n, n * MAGIC_1000, n / 1000, n % 1000);
  }

  lemma TwoShifts(x: int)
    ensures x / W64 / 0x80 == x / 0x80_0000_0000_0000_0000
  {
  }

  /** The excess spills over only behind the largest remainder and a large enough quotient. */
  lemma ExcessOf1000(n: Word64, product: int, q: int, r: int)
    requires n == 1000 * q + r && 0 <= r < 1000
    requires product == q * 0x80_0000_0000_0000_0000 + (q * 152 + r * MAGIC_1000)
    ensures product / 0x80_0000_0000_0000_0000 == q <==> r != 999 || n < 15534100272597517999
  {
    var p: int := 0x80_0000_0000_0000_0000;
    var low := q * 152 + r * MAGIC_1000;
    if low < p {
      DivModUnique(product, p, q, low);
    } else {
      DivModUnique(product, p, q + 1, low - p);
    }
  }

  datatype Small = Tens | Hundreds {
    function Divisor(): int { if Tens? then 10 else 100 }
    function Magic(): int { 0x1_0000 / Divisor() + 1 }
  }

  lemma SmallMagic(n: Word32, unit: Small)
    requires n <= unit.Divisor() * 10
    ensures 0 <= n * unit.Magic() < W32
    ensures n * unit.Magic() / 0x1_0000 == n / unit.Divisor()
    ensures n * unit.Magic() % 0x1_0000 < unit.Magic() <==> n % unit.Divisor() == 0
  {
    match unit {
      case Tens => MagicDivides(n, 10, 6554, 0x1_0000);
      case Hundreds => MagicDivides(n, 100, 656, 0x1_0000);
    }
  }

  /** Division by ten or a hundred of a number of at most ten times as much, with its exactness. */
  function DivideSmall(n: Word32, unit: Small): (r: (Word32, bool))
    requires n <= unit.Divisor() * 10
    ensures r.0 == n / unit.Divisor()
    ensures r.1 <==> n % unit.Divisor() == 0
  {
    SmallMagic(n, unit);
    var m := n * unit.Magic() % W32;
    (m / 0x1_0000, m % 0x1_0000 < unit.Magic())
  }

  // ----- divisibility by a rotated product -----

  /** Rotation to the right of a word of p * v values, by the bits that p counts. */
  function Rotr(n: int, p: int, v: int): int
    requires p > 0
  {
    n / p + n % p * v
  }

  /** If m divides n, multiplying by the inverse of m divides. */
  lemma InverseDivides(t: int, m: int, inv: int, w: int, b: int)
    requires m * inv == b * w + 1 && 0 <= t < w
    ensures t * m * inv % w == t
  {
    calc {
      t * m * inv;
      { MulAssoc(t, m, inv); }
      t * (b * w + 1);
      (t * b) * w + t;
    }
    DivModUnique(t * m * inv, w, t * b, t);
  }

  /** A small enough product with the inverse is a quotient. */
  lemma SmallIsQuotient(n: int, m: int, inv: int, w: int, b: int)
    requires m * inv == b * w + 1 && 0 <= n < w && m > 0
    requires n * inv % w * m < w
    ensures n == n * inv % w * m
  {
    var x, a := n * inv % w, n * inv / w;
    calc {
      x * m;
      (n * inv - a * w) * m;
      n * inv * m - a * w * m;
      { MulAssoc(n, inv, m); MulAssoc(a, w, m); }
      n * (b * w + 1) - a * (w * m);
      n + (n * b) * w - (a * m) * w;
      n + (n * b - a * m) * w;
    }
    var k := n * b - a * m;
    if k > 0 { MulLe(1, k, w); } else if k < 0 { MulLe(k, -1, w); }
    MulLe(0, x, m);
  }

  /**
   * The divisibility test: the product with the inverse of m, rotated by the bits of p, is at most
   * the count of multiples exactly if m * p divides n, and is then the quotient.
   */
  lemma RotatedQuotient(n: int, m: int, inv: int, b: int, p: int, v: int, d: int, q: int)
    requires m * inv == b * (p * v) + 1 && m > 0 && p > 0 && v > 0 && 0 <= n < p * v
    requires d == m * p && d > 0 && q == Rotr(n * inv % (p * v), p, v)
    ensures q <= (p * v - 1) / d <==> n % d == 0
    ensures n % d == 0 ==> q == n / d
  {
    QuotientBelow(q, d, p * v);
    if n % d == 0 {
      DividingRotates(n / d, m, inv, b, p, v);
      assert n / d * d == n;
    } else if q * d < p * v {
      RotatingDivides(n, m, inv, b, p, v, d);
      assert false;
    }
  }

  lemma DividingRotates(t: int, m: int, inv: int, b: int, p: int, v: int)
    requires m * inv == b * (p * v) + 1 && m > 0 && p > 0 && v > 0 && 0 <= t * (m * p) < p * v
    ensures Rotr(t * (m * p) * inv % (p * v), p, v) == t
  {
    assert t * (m * p) == (t * p) * m by { MulSwap(t, 1, m, p); MulAssoc(t, p, m); }
    BelowProduct(t, m, p, p * v);
    InverseDivides(t * p, m, inv, p * v, b);
    DivModUnique(t * p, p, t, 0);
  }

  lemma BelowProduct(t: int, m: int, p: int, w: int)
    requires m > 0 && p > 0 && 0 <= (t * p) * m < w
    ensures 0 <= t * p < w
  {
    if t * p < 0 { MulLe(t * p, -1, m); } else { MulLe(1, m, t * p); }
  }

  lemma QuotientBelow(t: int, d: int, w: int)
    requires d > 0
    ensures t * d < w <==> t <= (w - 1) / d
  {
    var k := (w - 1) / d;
    if t <= k { MulLe(t, k, d); } else { MulLe(k + 1, t, d); }
  }

  lemma RotatingDivides(n: int, m: int, inv: int, b: int, p: int, v: int, d: int)
    requires m * inv == b * (p * v) + 1 && m > 0 && p > 0 && v > 0 && 0 <= n < p * v && d == m * p && d > 0
    requires Rotr(n * inv % (p * v), p, v) * d < p * v
    ensures n % d == 0
  {
    var x := n * inv % (p * v);
    NothingRotated(x, m, p, v, d);
    SmallIsQuotient(n, m, inv, p * v, b);
    MulSwap(x / p, 1, p, m);
    DivModUnique(n, d, x / p, 0);
  }

  /** A small rotated word had nothing in the bits that were moved to the top. */
  lemma NothingRotated(x: int, m: int, p: int, v: int, d: int)
    requires x >= 0 && m > 0 && p > 0 && v > 0 && d == m * p
    requires Rotr(x, p, v) * d < p * v
    ensures x == x / p * p
    ensures x * m == x / p * d
    ensures x * m < p * v
  {
    if x % p > 0 {
      RotatedIsLarge(x / p, x % p, m, p, v, d);
      assert false;
    }
    MulAssoc(x / p, p, m);
  }

  lemma RotatedIsLarge(h: int, l: int, m: int, p: int, v: int, d: int)
    requires h >= 0 && l > 0 && m > 0 && p > 0 && v > 0 && d == m * p
    ensures (h + l * v) * d >= p * v
  {
    MulLe(1, l, v);
    MulLe(1, m, p);
    MulLe(v, h + l * v, d);
    MulLe(p, d, v);
  }

  // ----- the loops -----

  datatype Width = Bits32 | Bits64 {
    function Words(): int { if Bits32? then W32 else W64 }
    function Inverse5(): int { if Bits32? then 0xcccc_cccd else 0xcccc_cccc_cccc_cccd }
    function Inverse25(): int { Inverse5() * Inverse5() % Words() }
  }

  /** One test for a factor of a hundred: a candidate quotient, valid when small enough. */
  function TestHundred(u: Width, n: int): (q: int)
    requires 0 <= n < u.Words()
    ensures q <= (u.Words() - 1) / 100 <==> n % 100 == 0
    ensures n % 100 == 0 ==> n == 100 * q
  {
    var q := Rotr(n * u.Inverse25() % u.Words(), 4, u.Words() / 4);
    match u {
      case Bits32 => RotatedQuotient(n, 25, 0xc28f5c29, 19, 4, W32 / 4, 100, q); q
      case Bits64 => RotatedQuotient(n, 25, 10330176681277348905, 14, 4, W64 / 4, 100, q); q
    }
  }

  function TestTen(u: Width, n: int): (q: int)
    requires 0 <= n < u.Words()
    ensures q <= (u.Words() - 1) / 10 <==> n % 10 == 0
    ensures n % 10 == 0 ==> n == 10 * q
  {
    var q := Rotr(n * u.Inverse5() % u.Words(), 2, u.Words() / 2);
    match u {
      case Bits32 => RotatedQuotient(n, 5, 0xcccc_cccd, 4, 2, W32 / 2, 10, q); q
      case Bits64 => RotatedQuotient(n, 5, 0xcccc_cccc_cccc_cccd, 4, 2, W64 / 2, 10, q); q
    }
  }

  function SetLowBit(s: nat): nat { if s % 2 == 0 then s + 1 else s }

  /** n is what remains of n0 after s zeros are taken from its end. */
  ghost predicate Shortened(n0: int, n: int, s: nat) { n0 == n * Pow(10, s) }

  lemma ShortenedNot(n: int)
    ensures Shortened(n, n, 0)
  {
  }

  lemma OneTenOnly(n: int, q: int)
    requires n == 10 * q && n % 100 != 0
    ensures q % 10 != 0
  {
  }

  lemma LowBitOfEven(s: nat)
    requires s % 2 == 0
    ensures SetLowBit(s) == s + 1
  {
  }

  lemma ShortenedByTen(n0: int, n: int, s: nat, q: int)
    requires Shortened(n0, n, s) && n == 10 * q
    ensures Shortened(n0, q, s + 1)
  {
    assert Pow(10, s + 1) == 10 * Pow(10, s);
    MulAssoc(q, 10, Pow(10, s));
  }

  /** The loop the three cases share: pairs of zeros, then at most one more. */
  method Strip(u: Width, n0: int, s0: nat) returns (n: int, s: nat)
    requires 0 < n0 < u.Words() && s0 % 2 == 0
    ensures s >= s0 && Shortened(n0, n, s - s0)
    ensures n > 0 && n % 10 != 0
  {
    hide *;
    n, s := n0, s0;
    ShortenedNot(n0);
    while true
      invariant 0 < n < u.Words()
      invariant s >= s0 && s % 2 == 0
      invariant Shortened(n0, n, s - s0)
      decreases n
    {
      var q := TestHundred(u, n);
      if q > (u.Words() - 1) / 100 { break; }
      ShortenedByTen(n0, n, s - s0, 10 * q);
      ShortenedByTen(n0, 10 * q, s - s0 + 1, q);
      n := q;
      s := s + 2;
    }
    var q := TestTen(u, n);
    if q <= (u.Words() - 1) / 10 {
      ShortenedByTen(n0, n, s - s0, q);
      OneTenOnly(n, q);
      n := q;
      LowBitOfEven(s);
      s := SetLowBit(s);
    }
  }

  method RemoveTrailingZeros32(n0: Word32) returns (n: int, s: nat)
    requires n0 != 0
    ensures n0 == n * Pow(10, s) && n % 10 != 0
  {
    n, s := Strip(Bits32, n0, 0);
  }

  const MAGIC_E8: int := 12379400392853802749
  const E8: int := 100000000

  /** Whether 10^8 divides n, and the quotient cut to 32 bits. */
  function TestEightZeros(n: Word64): (r: (bool, Word32))
    ensures r.0 <==> n % E8 == 0
    ensures r.1 == n / E8 % W32
  {
    var nm := Umul128(n, MAGIC_E8);
    MagicDivides(n, E8, MAGIC_E8, 0x400_0000 * W64);
    LowNinetyBits(nm);
    (nm.high % 0x400_0000 == 0 && nm.low < MAGIC_E8, nm.high / 0x400_0000 % W32)
  }

  lemma LowNinetyBits(p: Wide)
    ensures p.Value() / (0x400_0000 * W64) == p.high / 0x400_0000
    ensures p.Value() % (0x400_0000 * W64) < MAGIC_E8 <==> p.high % 0x400_0000 == 0 && p.low < MAGIC_E8
  {
    DivModUnique(p.Value(), 0x400_0000 * W64, p.high / 0x400_0000, p.high % 0x400_0000 * W64 + p.low);
  }

  /**
   * On 64 bits the result is the number without its zeros exactly when the quotient by 10^8, which
   * is cut to 32 bits, was not damaged; a quotient cut to zero is left to NeverLeaves.
   */
  method RemoveTrailingZeros64(n0: Word64) returns (n: int, s: nat)
    requires n0 != 0
    requires n0 % E8 == 0 ==> n0 / E8 % W32 != 0
    ensures n % 10 != 0
    ensures n0 == n * Pow(10, s) <==> n0 % E8 != 0 || n0 < W32 * E8
  {
    var (divisible, n32) := TestEightZeros(n0);
    if divisible {
      n, s := Strip(Bits32, n32, 8);
      CutQuotient(n0, n, s);
    } else {
      n, s := Strip(Bits64, n0, 0);
    }
  }

  lemma CutQuotient(n0: int, n: int, s: nat)
    requires n0 > 0 && n0 % E8 == 0 && s >= 8
    requires Shortened(n0 / E8 % W32, n, s - 8)
    ensures n0 == n * Pow(10, s) <==> n0 < W32 * E8
  {
    PowAdd(10, s - 8, 8);
    assert Pow(10, 8) == E8;
    MulAssoc(n, Pow(10, s - 8), E8);
    assert n * Pow(10, s) == n0 / E8 % W32 * E8;
  }

  /** A quotient cut to zero keeps the first loop going on the same state for ever. */
  lemma NeverLeaves(n0: Word64)
    requires n0 % E8 == 0 && n0 / E8 % W32 == 0
    ensures TestEightZeros(n0) == (true, 0)
    ensures TestHundred(Bits32, 0) == 0 <= (Bits32.Words() - 1) / 100
    ensures n0 != 0 ==> n0 >= W32 * E8
  {
    hide TestEightZeros, TestHundred;
    CutToZero(n0);
  }

  lemma CutToZero(n0: int)
    requires n0 >= 0 && n0 % E8 == 0 && n0 / E8 % W32 == 0
    ensures n0 != 0 ==> n0 >= W32 * E8
  {
    var q := n0 / E8;
    assert n0 == q * E8 && q == q / W32 * W32;
  }
}
