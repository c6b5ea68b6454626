/** Wide products from narrow words, and division by a constant through a magic multiplier. */
module WideWords {
  import opened Powers

  const W32: int := 0x1_0000_0000
  const W64: int := 0x1_0000_0000_0000_0000
  const W128: int := 0x1_0000_0000_0000_0000_0000_0000_0000_0000

  type Word32 = x: int | 0 <= x < 0x1_0000_0000
  type Word64 = x: int | 0 <= x < 0x1_0000_0000_0000_0000

  function Wrap(x: int): (r: Word64) { x % W64 }

  datatype Wide = Wide(high: Word64, low: Word64) {
    function Value(): int { high * W64 + low }
  }

  // ----- products -----

  lemma ProductBound(a: int, b: int, m: int, n: int)
    requires 0 <= a <= m && 0 <= b <= n
    ensures 0 <= a * b <= m * n
  {
    MulLe(a, m, b);
    MulLe(b, n, m);
  }

  /** The four partial products of two numbers cut in halves. */
  lemma HalvesProduct(a: int, b: int, c: int, d: int, w: int)
    ensures (a * w + b) * (c * w + d) == (a * c) * (w * w) + (b * c + a * d) * w + b * d
  {
    calc {
      (a * w + b) * (c * w + d);
      (a * w) * (c * w + d) + b * (c * w + d);
      (a * w) * (c * w) + (a * w) * d + b * (c * w) + b * d;
      { MulSwap(a, w, c, w); }
      (a * c) * (w * w) + (a * w) * d + b * (c * w) + b * d;
      { assert (a * w) * d == (a * d) * w; MulAssoc(b, c, w); }
      (a * c) * (w * w) + (b * c) * w + (a * d) * w + b * d;
    }
  }

  /** The portable branch of the 64 by 64 multiplication: no partial sum is cut off. */
  function Umul128(x: Word64, y: Word64): (r: Wide)
    ensures r.Value() == x * y
  {
    HalvesMean(x); HalvesMean(y);
    UmulHalves(x / W32, x % W32, y / W32, y % W32)
  }

  lemma HalvesMean(x: Word64)
    ensures 0 <= x / W32 < W32 && 0 <= x % W32 < W32
    ensures x / W32 * W32 + x % W32 == x
  {
  }

  function UmulHalves(a: Word32, b: Word32, c: Word32, d: Word32): (r: Wide)
    ensures r.Value() == (a * W32 + b) * (c * W32 + d)
  {
    PartialsFit(a, b, c, d);
    JoinPartials(a * c, b * c, a * d, b * d);
    JoinedPartials(Wrap(a * c), Wrap(b * c), Wrap(a * d), Wrap(b * d))
  }

  function JoinedPartials(ac: Word64, bc: Word64, ad: Word64, bd: Word64): Wide {
    var intermediate := Wrap(bd / W32 + ad % W32 + bc % W32);
    Wide(Wrap(ac + intermediate / W32 + ad / W32 + bc / W32), Wrap(Wrap(intermediate * W32) + bd % W32))
  }

  lemma PartialsFit(a: Word32, b: Word32, c: Word32, d: Word32)
    ensures 0 <= a * c < W64 && 0 <= b * c < W64 && 0 <= a * d < W64 && 0 <= b * d < W64
    ensures 0 <= (a * c) * W64 + (b * c + a * d) * W32 + b * d < W128
    ensures (a * W32 + b) * (c * W32 + d) == (a * c) * W64 + (b * c + a * d) * W32 + b * d
  {
    ProductBound(a * W32 + b, c * W32 + d, W64 - 1, W64 - 1);
    ProductBound(a, c, W32 - 1, W32 - 1);
    ProductBound(b, c, W32 - 1, W32 - 1);
    ProductBound(a, d, W32 - 1, W32 - 1);
    ProductBound(b, d, W32 - 1, W32 - 1);
    HalvesProduct(a, b, c, d, W32);
  }

  lemma JoinPartials(ac: int, bc: int, ad: int, bd: int)
    requires 0 <= ac < W64 && 0 <= bc < W64 && 0 <= ad < W64 && 0 <= bd < W64
    requires ac * W64 + (bc + ad) * W32 + bd < W128
    ensures JoinedPartials(Wrap(ac), Wrap(bc), Wrap(ad), Wrap(bd)).Value() == ac * W64 + (bc + ad) * W32 + bd
  {
    hide Wrap;
    var t := bd / W32 + ad % W32 + bc % W32;
    HalvesMean(ad); HalvesMean(bc); HalvesMean(bd); HalvesMean(t);
    var bc1, bc0, ad1, ad0, bd1, bd0, t1, t0 :=
      bc / W32, bc % W32, ad / W32, ad % W32, bd / W32, bd % W32, t / W32, t % W32;
    DigitsJoin(ac, bc1, bc0, ad1, ad0, bd1, bd0, t1, t0);
    ShiftedUp(t);
    Fits(ac); Fits(bc); Fits(ad); Fits(bd); Fits(t); Fits(ac + t1 + ad1 + bc1); Fits(t0 * W32 + bd0);
  }

  lemma Fits(x: int)
    requires 0 <= x < W64
    ensures Wrap(x) == x
  {
  }

  /** Column by column: nothing but the definition of the digits is used. */
  lemma DigitsJoin(ac: int, bc1: int, bc0: int, ad1: int, ad0: int, bd1: int, bd0: int, t1: int, t0: int)
    requires 0 <= ac && 0 <= bc1 && 0 <= ad1 && 0 <= t1
    requires 0 <= t0 < W32 && 0 <= bd0 < W32
    requires t1 * W32 + t0 == bd1 + ad0 + bc0
    requires ac * W64 + (bc1 * W32 + bc0 + (ad1 * W32 + ad0)) * W32 + (bd1 * W32 + bd0) < W128
    ensures 0 <= ac + t1 + ad1 + bc1 < W64
    ensures (ac + t1 + ad1 + bc1) * W64 + (t0 * W32 + bd0) ==
            ac * W64 + (bc1 * W32 + bc0 + (ad1 * W32 + ad0)) * W32 + (bd1 * W32 + bd0)
  {
  }

  /** Shifting a word up by 32 bits keeps its lower half. */
  lemma ShiftedUp(t: Word64)
    ensures Wrap(t * W32) == t % W32 * W32
  {
    DivModUnique(t * W32, W64, t / W32, t % W32 * W32);
  }

  function Umul128Upper(x: Word64, y: Word64): (r: Word64)
    ensures r == x * y / W64
  {
    HighPart(Umul128(x, y));
    Umul128(x, y).high
  }

  lemma HighPart(p: Wide)
    ensures p.Value() / W64 == p.high && p.Value() % W64 == p.low
  {
  }

  /** Adding a word to a wide number, the carry found by comparison. */
  function AddWord(a: Wide, w: Word64): (r: Wide)
    ensures r.Value() == (a.Value() + w) % W128
  {
    var low := Wrap(a.low + w);
    var carry := if low < a.low then 1 else 0;
    CarriedSum(a, w, carry);
    Wide(Wrap(a.high + carry), low)
  }

  lemma CarriedSum(a: Wide, w: Word64, carry: int)
    requires carry == if Wrap(a.low + w) < a.low then 1 else 0
    ensures Wide(Wrap(a.high + carry), Wrap(a.low + w)).Value() == (a.Value() + w) % W128
  {
    assert a.low + w == carry * W64 + Wrap(a.low + w);
    Reduce(a.high + carry, Wrap(a.low + w));
  }

  /** Reducing a wide number is reducing its upper word. */
  lemma Reduce(h: int, low: Word64)
    ensures (h * W64 + low) % W128 == Wrap(h) * W64 + low
  {
    assert h * W64 + low == h / W64 * W128 + (Wrap(h) * W64 + low);
  }

  function Umul192Upper(x: Word64, y: Wide): (r: Wide)
    ensures r.Value() == x * y.Value() / W64
  {
    UpperSum(x, y, x * y.high, x * y.low);
    AddWord(Umul128(x, y.high), Umul128Upper(x, y.low))
  }

  lemma UpperSum(x: Word64, y: Wide, h: int, l: int)
    requires h == x * y.high && l == x * y.low
    ensures (h + l / W64) % W128 == x * y.Value() / W64
  {
    SplitFactor(x, y.high, y.low, W64);
    ProductBound(x, y.high, W64 - 1, W64 - 1);
    ProductBound(x, y.low, W64 - 1, W64 - 1);
    HighOfSum(h, l);
  }

  lemma SplitFactor(x: int, h: int, l: int, w: int)
    ensures x * (h * w + l) == (x * h) * w + x * l
  {
    MulAssoc(x, h, w);
  }

  lemma HighOfSum(a: int, b: int)
    requires 0 <= a <= (W64 - 1) * (W64 - 1) && 0 <= b <= (W64 - 1) * (W64 - 1)
    ensures (a + b / W64) % W128 == (a * W64 + b) / W64
  {
  }

  function Umul192Lower(x: Word64, y: Wide): (r: Wide)
    ensures r.Value() == x * y.Value() % W128
  {
    var l := Umul128(x, y.low);
    SplitFactor(x, y.high, y.low, W64);
    LowerParts(x * y.high, l);
    Wide(Wrap(Wrap(x * y.high) + l.high), l.low)
  }

  lemma LowerParts(a: int, l: Wide)
    ensures Wide(Wrap(Wrap(a) + l.high), l.low).Value() == (a * W64 + l.Value()) % W128
  {
    Reduce(a + l.high, l.low);
  }

  // ----- division by a constant -----

  lemma MagicProduct(n: int, d: int, m: int, p: int)
    requires d > 0
    ensures n * m == n / d * p + (n / d * (d * m - p) + n % d * m)
  {
    var q, r := n / d, n % d;
    calc {
      n * m;
      (q * d + r) * m;
      (q * d) * m + r * m;
      { MulAssoc(q, d, m); }
      q * (d * m) + r * m;
      q * p + q * (d * m - p) + r * m;
    }
  }

  /**
   * A multiplier m with d * m just above p divides by d while the excess stays below m:
   * the high part of n * m is the quotient, and the low part tells whether d divides n.
   */
  lemma MagicDivides(n: int, d: int, m: int, p: int)
    requires n >= 0 && d > 1 && 0 <= d * m - p < m
    requires n / d * (d * m - p) < m
    requires n % d == 0 || (n / d + 1) * (d * m - p) < m
    ensures p > 0
    ensures n * m / p == n / d
    ensures n * m % p < m <==> n % d == 0
  {
    MagicProduct(n, d, m, p);
    var q, r, e := n / d, n % d, d * m - p;
    ExcessFits(q, r, d, m, e);
    DivModUnique(n * m, p, q, q * e + r * m);
  }

  lemma ExcessFits(q: int, r: int, d: int, m: int, e: int)
    requires q >= 0 && d > 1 && 0 <= r < d && 0 <= e < m
    requires q * e < m
    requires r == 0 || (q + 1) * e < m
    ensures 0 <= q * e + r * m < d * m - e
    ensures q * e + r * m < m <==> r == 0
  {
    MulLe(0, q, e);
    MulLe(r, d - 1, m);
    MulLe(2, d, m);
    if r > 0 { MulLe(1, r, m); }
    assert (d - 1) * m == d * m - m;
    assert (q + 1) * e == q * e + e;
  }
}
