/** The number f * 2^e against powers of ten, over the integers; and what format_dragon sets up for it. */
module DragonValue {
  import opened Powers
  import opened Bigits
  import opened BigintSpec
  import opened DragonSpec
  import opened ShortestSpec

  function Pos(x: int): nat {
    if x > 0 then x else 0
  }

  /** f * 2^e / 10^x is the ratio Num(f, e, x) / Den(e, x). */
  function Num(f: nat, e: int, x: int): nat {
    f * Pow(2, Pos(e)) * Pow(10, Pos(-x))
  }

  function Den(e: int, x: int): nat {
    Pow(2, Pos(-e)) * Pow(10, Pos(x))
  }

  /** 2 when the predecessor is as far as the successor, 4 when it is closer: the unit's denominator. */
  function Halves(closer: bool): nat {
    if closer then 4 else 2
  }

  function UpperUnits(closer: bool): nat {
    if closer then 2 else 1
  }

  /** q * 10^x reads back as f * 2^e: it lies between the midpoints to the neighbours of f * 2^e,
      which belong to it iff f is even. */
  predicate InRange(f: nat, e: int, closer: bool, x: int, q: int) {
    Within(Halves(closer) * Num(f, e, x), Halves(closer) * Den(e, x),
           Num(1, e, x), UpperUnits(closer) * Num(1, e, x), f % 2 == 0, q)
  }

  /** q * 10^x is f * 2^e rounded half to even to a multiple of 10^x. */
  predicate IsRounding(f: nat, e: int, x: int, q: int) {
    RoundsHalfEven(Num(f, e, x), Den(e, x), q)
  }

  /** Digits times 10^x reads back as f * 2^e; no multiple of a larger power of ten, up to 10^top,
      does; and where both neighbours at 10^x do, the digits are the nearer one. */
  ghost predicate IsShortestDecimal(f: nat, e: int, closer: bool, top: int, digits: seq<int>, x: int) {
    && |digits| > 0 && Decimal(digits) && x == top - (|digits| - 1)
    && InRange(f, e, closer, x, DigitsValue(digits))
    && (forall y: int, q: int :: x < y <= top ==> !InRange(f, e, closer, y, q))
    && (InRange(f, e, closer, x, Floor(f, e, x)) && InRange(f, e, closer, x, Floor(f, e, x) + 1)
        ==> IsRounding(f, e, x, DigitsValue(digits)))
  }

  /** The largest multiple of 10^x not above f * 2^e, in units of 10^x. */
  function Floor(f: nat, e: int, x: int): int {
    if Den(e, x) == 0 then 0 else Num(f, e, x) / Den(e, x)
  }

  /** The digits, at exponent x, are f * 2^e rounded half to even to the unit 10^unit; the exponent is one up only
      for a one and zeros. */
  ghost predicate IsRoundedDecimal(f: nat, e: int, unit: int, digits: seq<int>, x: int) {
    && |digits| > 0 && Decimal(digits) && unit <= x <= unit + 1
    && (x == unit + 1 ==> DigitsValue(digits) == Pow(10, |digits| - 1))
    && IsRounding(f, e, unit, DigitsValue(digits) * Pow(10, x - unit))
  }

  // ----- the interval from the neighbours -----

  /** The neighbours of f * 2^e in quarters of 2^e: below a power of two they are only half as far apart. */
  function Predecessor(f: nat, closer: bool): int {
    if closer then 4 * f - 2 else 4 * f - 4
  }

  function Successor(f: nat): int {
    4 * f + 4
  }

  /** q * 10^x lies between the means of f * 2^e with its predecessor and with its successor, ends included iff f
      is even. */
  predicate BetweenMidpoints(f: nat, e: int, closer: bool, x: int, q: int)
    requires f > 0
  {
    var low, high := Num(4 * f + Predecessor(f, closer), e - 2, x), Num(4 * f + Successor(f), e - 2, x);
    if f % 2 == 0 then low <= 2 * q * Den(e - 2, x) <= high else low < 2 * q * Den(e - 2, x) < high
  }

  /** What the operands call readable is what rounding to the nearest float reads back. */
  lemma InRangeIsMidpoints(f: nat, e: int, closer: bool, x: int, q: int)
    requires f > 0
    ensures InRange(f, e, closer, x, q) <==> BetweenMidpoints(f, e, closer, x, q)
  {
    var h, w, s := Halves(closer), UpperUnits(closer), if closer then 1 else 2;
    var n, d, p := Num(1, e, x), Den(e, x), Num(1, e - 2, x);
    var b := Den(e - 2, x);
    QuarterUnit(e, x);
    DenPositive(e, x);
    DenPositive(e - 2, x);
    NumTimes(f, e, x);
    NumTimes(4 * f + Predecessor(f, closer), e - 2, x);
    NumTimes(4 * f + Successor(f), e - 2, x);
    assert h * s == 4 && w * s == 2;
    hide Num, Den, Pow;
    MidpointProportions(f, n, d, p, b, h, w, s);
    WithinProportional(h * (f * n), h * d, n, w * n, 4 * f * p, b, s * p, 2 * p, b, h * d, f % 2 == 0, q);
    TwiceWithin(f, p, b, s, q, f % 2 == 0);
  }

  lemma MidpointProportions(f: int, n: int, d: int, p: int, b: int, h: int, w: int, s: int)
    requires n * b == 4 * (p * d) && h * s == 4 && w * s == 2 && s > 0 && h == 2 * w
    ensures b * (h * (f * n)) == h * d * (4 * f * p)
    ensures b * (h * d) == h * d * b
    ensures b * n == h * d * (s * p)
    ensures b * (w * n) == h * d * (2 * p)
  {
    calc {
      b * (h * (f * n));
      { MulAssoc(h, f, n); MulAssoc(h * f, n, b); }
      h * f * (n * b);
      h * f * (4 * (p * d));
      { MulSwap(h, f, 4 * p, d); MulAssoc(4, p, d); }
      h * (4 * p) * (f * d);
      { Rotated(h, 4 * p, f, d); MulAssoc(4, f, p); assert f * (4 * p) == 4 * f * p; }
      h * d * (4 * f * p);
    }
    calc {
      h * d * (s * p);
      { MulSwap(h, d, s, p); }
      (h * s) * (d * p);
      b * n;
    }
    calc {
      b * (w * n);
      w * (n * b);
      w * (4 * (p * d));
      { MulAssoc(2, w, 2 * (p * d)); }
      2 * w * (2 * (p * d));
      { MulSwap(h, d, 2, p); }
      h * d * (2 * p);
    }
  }

  lemma Rotated(a: int, b: int, c: int, d: int)
    ensures a * b * (c * d) == a * d * (c * b)
  {
    MulSwap(a, b, d, c);
    MulSwap(a, d, b, c);
  }

  lemma TwiceWithin(f: int, p: int, b: int, s: int, q: int, closed: bool)
    ensures Within(4 * f * p, b, s * p, 2 * p, closed, q) <==>
              if closed then (8 * f - 2 * s) * p <= 2 * q * b <= (8 * f + 4) * p
              else (8 * f - 2 * s) * p < 2 * q * b < (8 * f + 4) * p
  {
    assert (8 * f - 2 * s) * p == 2 * (4 * f * p) - 2 * (s * p);
    assert (8 * f + 4) * p == 2 * (4 * f * p) + 2 * (2 * p);
    assert 2 * q * b == 2 * (q * b);
  }

  lemma NumTimes(f: nat, e: int, x: int)
    ensures Num(f, e, x) == f * Num(1, e, x)
  {
    MulAssoc(f, Pow(2, Pos(e)), Pow(10, Pos(-x)));
  }

  /** The unit at e is four units at e - 2. */
  lemma QuarterUnit(e: int, x: int)
    ensures Num(1, e, x) * Den(e - 2, x) == 4 * (Num(1, e - 2, x) * Den(e, x))
  {
    var t, u := Pow(10, Pos(-x)), Pow(10, Pos(x));
    assert Pow(2, 0) == 1 && Pow(2, 1) == 2 && Pow(2, 2) == 4;
    if e >= 2 {
      PowAdd(2, 2, e - 2);
    } else if e <= 0 {
      PowAdd(2, 2, -e);
    }
    var a, b, c, d := Pow(2, Pos(e)), Pow(2, Pos(2 - e)), Pow(2, Pos(e - 2)), Pow(2, Pos(-e));
    assert a * b == 4 * (c * d);
    hide Pow;
    MulSwap(a, t, b, u);
    MulSwap(c, t, d, u);
    MulAssoc(4, c * d, t * u);
  }

  // ----- the operands format_dragon builds -----

  function Shift(closer: bool): nat {
    if closer then 2 else 1
  }

  /** The stored exponents of numerator, denominator and lower. */
  function NumExp(e: int, x: int, closer: bool): nat {
    if e >= 0 then (e + Shift(closer)) / 32 else if x < 0 then (-x) / 32 else 0
  }

  function DenExp(e: int, x: int, closer: bool): nat {
    if e >= 0 then Pos(x) / 32
    else if x < 0 then (Shift(closer) - e) / 32
    else x / 32 + (Shift(closer) - e) / 32
  }

  function LowExp(e: int, x: int): nat {
    if e >= 0 then e / 32 else if x < 0 then (-x) / 32 else 0
  }

  /** The operands at decimal exponent x; fixed up means multiplied by ten, for the exponent x - 1. */
  function Setup(f: nat, e: int, closer: bool, x: int, fixedUp: bool): Input {
    var k := if fixedUp then 10 else 1;
    Input(k * (Halves(closer) * Num(f, e, x)), Halves(closer) * Den(e, x),
          k * Num(1, e, x), k * (UpperUnits(closer) * Num(1, e, x)), f % 2 == 0,
          NumExp(e, x, closer), DenExp(e, x, closer), LowExp(e, x))
  }

  lemma DenPositive(e: int, x: int)
    ensures Den(e, x) > 0
  {
    PowPositive(2, Pos(-e));
    PowPositive(10, Pos(x));
    MulLt(0, Pow(2, Pos(-e)), Pow(10, Pos(x)));
  }

  lemma NumPositive(f: nat, e: int, x: int)
    requires f > 0
    ensures Num(f, e, x) > 0
  {
    PowPositive(2, Pos(e));
    PowPositive(10, Pos(-x));
    MulLt(0, f, Pow(2, Pos(e)));
    MulLt(0, f * Pow(2, Pos(e)), Pow(10, Pos(-x)));
  }

  lemma SetupPositive(f: nat, e: int, closer: bool, x: int, fixedUp: bool)
    requires f > 0
    ensures Positive(Setup(f, e, closer, x, fixedUp)) && Setup(f, e, closer, x, fixedUp).closed == (f % 2 == 0)
  {
    NumPositive(f, e, x);
    NumPositive(1, e, x);
    DenPositive(e, x);
  }

  /** The operands at x, moved down i places, are those at x - i up to a common factor. */
  lemma PlacesDown(f: nat, e: int, x: int, i: nat)
    ensures Num(f, e, x) * Pow(10, i) * Den(e, x - i) == Num(f, e, x - i) * Den(e, x)
  {
    TenPowers(x, i);
    Regroup(f * Pow(2, Pos(e)), Pow(2, Pos(-e)), Pow(10, Pos(-x)), Pow(10, i), Pow(10, Pos(x - i)),
            Pow(10, Pos(i - x)), Pow(10, Pos(x)));
  }

  lemma TenPowers(x: int, i: nat)
    ensures Pow(10, Pos(-x)) * Pow(10, i) * Pow(10, Pos(x - i)) == Pow(10, Pos(i - x)) * Pow(10, Pos(x))
  {
    calc {
      Pow(10, Pos(-x)) * Pow(10, i) * Pow(10, Pos(x - i));
      { PowAdd(10, Pos(-x), i); }
      Pow(10, Pos(-x) + i) * Pow(10, Pos(x - i));
      { PowAdd(10, Pos(-x) + i, Pos(x - i)); }
      Pow(10, Pos(-x) + i + Pos(x - i));
      { assert Pos(-x) + i + Pos(x - i) == Pos(i - x) + Pos(x); }
      Pow(10, Pos(i - x) + Pos(x));
      { PowAdd(10, Pos(i - x), Pos(x)); }
      Pow(10, Pos(i - x)) * Pow(10, Pos(x));
    }
  }

  lemma Regroup(a: int, b: int, p: int, q: int, r: int, s: int, t: int)
    requires p * q * r == s * t
    ensures (a * p) * q * (b * r) == (a * s) * (b * t)
  {
    calc {
      (a * p) * q * (b * r);
      { MulAssoc(a, p, q); MulSwap(a, p * q, b, r); }
      (a * b) * ((p * q) * r);
      { MulSwap(a, b, s, t); assert (a * b) * (s * t) == (a * s) * (b * t) by { MulSwap(a, b, s, t); } }
      (a * s) * (b * t);
    }
  }

  /** The interval test only sees the proportions of its operands. */
  lemma WithinProportional(n: int, d: int, lo: int, hi: int, n': int, d': int, lo': int, hi': int,
                           a: int, b: int, closed: bool, q: int)
    requires a > 0 && b > 0 && a * n == b * n' && a * d == b * d' && a * lo == b * lo' && a * hi == b * hi'
    ensures Within(n, d, lo, hi, closed, q) <==> Within(n', d', lo', hi', closed, q)
  {
    WithinRatio(n, d, lo, hi, a, closed, q);
    WithinRatio(n', d', lo', hi', b, closed, q);
  }

  /** The exponent of the first digit. */
  function Top(x: int, fixedUp: bool): int {
    if fixedUp then x - 1 else x
  }

  lemma PlaceOf(u: int, x: int, fixedUp: bool, i: nat)
    ensures (if fixedUp then 10 else 1) * u * Pow(10, i) == u * Pow(10, x - (Top(x, fixedUp) - i))
  {
    if fixedUp {
      assert 10 * u * Pow(10, i) == u * (10 * Pow(10, i));
    }
  }

  /** One operand of the loop after i more digits, and the operand of the final exponent. */
  lemma Proportion(h: nat, f: nat, e: int, x: int, fixedUp: bool, i: nat)
    ensures var y := Top(x, fixedUp) - i;
      Den(e, y) * ((if fixedUp then 10 else 1) * (h * Num(f, e, x)) * Pow(10, i)) == Den(e, x) * (h * Num(f, e, y))
  {
    var y := Top(x, fixedUp) - i;
    var u, p, a, b := Num(f, e, x), Pow(10, x - y), Den(e, y), Den(e, x);
    calc {
      a * ((if fixedUp then 10 else 1) * (h * u) * Pow(10, i));
      { PlaceOf(h * u, x, fixedUp, i); }
      a * (h * u * p);
      { Rotate(a, h, u, p); }
      h * (u * p * a);
      { PlacesDown(f, e, x, x - y); }
      h * (Num(f, e, y) * b);
      { Rotate2(h, Num(f, e, y), b); }
      b * (h * Num(f, e, y));
    }
  }

  lemma Rotate(a: int, h: int, u: int, p: int)
    ensures a * (h * u * p) == h * (u * p * a)
  {
    MulAssoc(h, u, p);
    MulAssoc(h, u * p, a);
  }

  lemma Rotate2(h: int, v: int, b: int)
    ensures h * (v * b) == b * (h * v)
  {
    MulAssoc(h, v, b);
  }

  /** What the digit loop calls admissible is what reads back. */
  lemma AdmissibleInRange(f: nat, e: int, closer: bool, x: int, fixedUp: bool, i: nat, q: int)
    ensures Admissible(Setup(f, e, closer, x, fixedUp), i, q) <==> InRange(f, e, closer, Top(x, fixedUp) - i, q)
  {
    var y := Top(x, fixedUp) - i;
    var g, h, w := Setup(f, e, closer, x, fixedUp), Halves(closer), UpperUnits(closer);
    DenPositive(e, y);
    DenPositive(e, x);
    Proportion(h, f, e, x, fixedUp, i);
    Proportion(1, 1, e, x, fixedUp, i);
    Proportion(w, 1, e, x, fixedUp, i);
    Rotate2(Den(e, y), h, Den(e, x));
    assert Den(e, y) * g.d == Den(e, x) * (h * Den(e, y)) by {
      assert h * Den(e, x) == Den(e, x) * h;
      MulAssoc(Den(e, y), h, Den(e, x));
      MulAssoc(Den(e, x), h, Den(e, y));
      assert Den(e, y) * h * Den(e, x) == Den(e, x) * h * Den(e, y) by {
        MulAssoc(h, Den(e, y), Den(e, x));
        MulAssoc(h, Den(e, x), Den(e, y));
      }
    }
    WithinProportional(g.n * Pow(10, i), g.d, g.lo * Pow(10, i), g.hi * Pow(10, i),
                       h * Num(f, e, y), h * Den(e, y), Num(1, e, y), w * Num(1, e, y),
                       Den(e, y), Den(e, x), g.closed, q);
  }

  /** The loop's ratio after i more digits is the value's, at the exponent reached. */
  lemma SameRatio(f: nat, e: int, closer: bool, x: int, fixedUp: bool, i: nat)
    ensures var g, y := Setup(f, e, closer, x, fixedUp), Top(x, fixedUp) - i;
      (g.n * Pow(10, i)) * Den(e, y) == Num(f, e, y) * g.d
  {
    var g, y, h := Setup(f, e, closer, x, fixedUp), Top(x, fixedUp) - i, Halves(closer);
    Proportion(h, f, e, x, fixedUp, i);
    hide Num, Den, Pow;
    Swapped(Den(e, x), h, Num(f, e, y));
  }

  lemma Swapped(d: int, h: int, n: int)
    ensures d * (h * n) == n * (h * d)
  {
    MulAssoc(d, h, n);
    MulAssoc(n, h, d);
    assert (d * h) * n == n * (d * h);
    assert d * h == h * d;
    MulAssoc(n, d, h);
  }

  lemma FloorRatio(n: nat, d: nat, n': nat, d': nat)
    requires d > 0 && d' > 0 && n * d' == n' * d
    ensures n / d == n' / d'
  {
    var q, r := n / d, n % d;
    assert n == q * d + r;
    var s := n' - q * d';
    assert s * d == r * d' by {
      assert (q * d + r) * d' == q * d' * d + r * d' by {
        Distribute(q * d, r, d');
        MulAssoc(q, d, d');
        MulAssoc(q, d', d);
        assert d * d' == d' * d;
      }
      assert (n' - q * d') * d == n' * d - q * d' * d;
    }
    assert 0 <= s by {
      if s < 0 {
        MulLe(0, r, d');
        MulLt(s, 0, d);
      }
    }
    assert s < d' by {
      if s >= d' {
        assert d * d' == d' * d;
        MulLt(r, d, d');
        MulLe(d', s, d);
      }
    }
    DivModUnique(n', d', q, s);
  }

  /** What the shortest loop promises about its operands is what readers of the value need. */
  lemma ShortestTransfers(f: nat, e: int, closer: bool, x: int, fixedUp: bool, digits: seq<int>)
    requires |digits| > 0 && Setup(f, e, closer, x, fixedUp).d > 0
    ensures var top := Top(x, fixedUp);
      IsShortest(Setup(f, e, closer, x, fixedUp), digits)
      <==> IsShortestDecimal(f, e, closer, top, digits, top - (|digits| - 1))
  {
    hide Num, Den, Pow, RoundsHalfEven, Admissible, InRange;
    var g, top, k := Setup(f, e, closer, x, fixedUp), Top(x, fixedUp), |digits| - 1;
    AdmissibleInRange(f, e, closer, x, fixedUp, k, DigitsValue(digits));
    AdmissibleInRange(f, e, closer, x, fixedUp, k, Prefix(g, k));
    AdmissibleInRange(f, e, closer, x, fixedUp, k, Prefix(g, k) + 1);
    NoneShorter(f, e, closer, x, fixedUp, k);
    DenPositive(e, top - k);
    SameRatio(f, e, closer, x, fixedUp, k);
    FloorRatio(g.n * Pow(10, k), g.d, Num(f, e, top - k), Den(e, top - k));
    RoundsRatio(g.n * Pow(10, k), g.d, Num(f, e, top - k), Den(e, top - k), DigitsValue(digits));
  }

  /** Nothing admissible with fewer digits is nothing readable above the place reached. */
  lemma NoneShorter(f: nat, e: int, closer: bool, x: int, fixedUp: bool, k: nat)
    ensures var g, top := Setup(f, e, closer, x, fixedUp), Top(x, fixedUp);
      (forall i: nat, q: int :: i < k ==> !Admissible(g, i, q))
      <==> (forall y: int, q: int :: top - k < y <= top ==> !InRange(f, e, closer, y, q))
  {
    var g, top := Setup(f, e, closer, x, fixedUp), Top(x, fixedUp);
    hide Setup, Admissible, InRange, Top;
    forall i: nat, q: int ensures Admissible(g, i, q) <==> InRange(f, e, closer, top - i, q) {
      AdmissibleInRange(f, e, closer, x, fixedUp, i, q);
    }
    if forall i: nat, q: int :: i < k ==> !Admissible(g, i, q) {
      forall y: int, q: int | top - k < y <= top ensures !InRange(f, e, closer, y, q) {
        assert !Admissible(g, top - y, q);
      }
    }
    if forall y: int, q: int :: top - k < y <= top ==> !InRange(f, e, closer, y, q) {
      forall i: nat, q: int | i < k ensures !Admissible(g, i, q) {
        assert !InRange(f, e, closer, top - i, q);
      }
    }
  }

  lemma RoundedTransfers(f: nat, e: int, closer: bool, x: int, fixedUp: bool, k: nat, digits: seq<int>, carry: int)
    requires k > 0 && |digits| == k && Setup(f, e, closer, x, fixedUp).d > 0
    ensures var g, unit := Setup(f, e, closer, x, fixedUp), Top(x, fixedUp) - (k - 1);
      IsRounded(g.n, g.d, k, digits, carry) <==> IsRoundedDecimal(f, e, unit, digits, unit + carry)
  {
    var g, y := Setup(f, e, closer, x, fixedUp), Top(x, fixedUp) - (k - 1);
    DenPositive(e, y);
    SameRatio(f, e, closer, x, fixedUp, k - 1);
    if 0 <= carry <= 1 {
      RoundsRatio(g.n * Pow(10, k - 1), g.d, Num(f, e, y), Den(e, y), DigitsValue(digits) * Pow(10, carry));
    }
  }

  /** The decimal exponent was estimated one too high: even the upper end stays below it. */
  predicate NeedsFixup(g: Input) {
    if g.closed then g.n + g.hi < g.d else g.n + g.hi <= g.d
  }

  // ----- the three ways of building the operands -----

  lemma HalvesIsPower(closer: bool)
    ensures Pow(2, Shift(closer)) == Halves(closer)
    ensures Pow(2, 0) == 1 && Pow(10, 0) == 1 && Pow(2, 1) == 2
  {
    assert Pow(2, 2) == 4;
  }

  lemma BuildNonnegative(f: nat, e: int, closer: bool, x: int)
    requires e >= 0 && x >= 0
    ensures var g := Setup(f, e, closer, x, false);
      && f * Pow(2, e + Shift(closer)) == g.n && 1 * Pow(2, e) == g.lo
      && (closer ==> 1 * Pow(2, e + 1) == g.hi) && (!closer ==> g.hi == g.lo)
      && Pow(10, x) * Pow(2, Shift(closer)) == g.d
  {
    hide Pow;
    HalvesIsPower(closer);
    PowAdd(2, e, Shift(closer));
    PowAdd(2, e, 1);
    Reorder(f, Pow(2, e), Halves(closer));
    assert Pow(10, Pos(-x)) == 1 && Pow(2, Pos(-e)) == 1;
  }

  lemma BuildNegative(f: nat, e: int, closer: bool, x: int)
    requires e < 0 && x < 0
    ensures var g := Setup(f, e, closer, x, false);
      && Pow(10, -x) * f * Pow(2, Shift(closer)) == g.n && Pow(10, -x) == g.lo
      && (closer ==> Pow(10, -x) * Pow(2, 1) == g.hi) && (!closer ==> g.hi == g.lo)
      && 1 * Pow(2, Shift(closer) - e) == g.d
  {
    HalvesIsPower(closer);
    PowAdd(2, Shift(closer), -e);
    var p := Pow(10, -x);
    assert p * f * Halves(closer) == Halves(closer) * (f * p) by {
      assert p * f == f * p;
    }
  }

  lemma BuildMixed(f: nat, e: int, closer: bool, x: int)
    requires e < 0 && x >= 0
    ensures var g := Setup(f, e, closer, x, false);
      && f * Pow(2, Shift(closer)) == g.n && 1 == g.lo && g.hi == UpperUnits(closer)
      && Pow(10, x) * Pow(2, Shift(closer) - e) == g.d
  {
    HalvesIsPower(closer);
    PowAdd(2, Shift(closer), -e);
    Reorder(Pow(10, x), Pow(2, -e), Halves(closer));
  }

  lemma Reorder(a: int, b: int, h: int)
    ensures a * (b * h) == h * (a * b) && a * (h * b) == h * (b * a)
  {
    MulAssoc(h, a, b);
    assert b * h == h * b;
    MulAssoc(a, h, b);
    assert a * h == h * a;
    assert b * a == a * b;
  }

  /** No digits asked for: the one printed is the value rounded to the next higher power of ten. */
  lemma OneDigit(f: nat, e: int, closer: bool, x: int, fixedUp: bool, digits: seq<int>)
    requires var g := Setup(f, e, closer, x, fixedUp);
      g.d > 0 && g.n < 10 * g.d && digits == [if 2 * g.n > 10 * g.d then 1 else 0]
    ensures IsRoundedDecimal(f, e, Top(x, fixedUp) + 1, digits, Top(x, fixedUp) + 1)
  {
    var g, y := Setup(f, e, closer, x, fixedUp), Top(x, fixedUp) + 1;
    assert DigitsValue(digits) == digits[0] by { assert digits[..0] == []; }
    DenPositive(e, y);
    SameRatio(f, e, closer, x, fixedUp, 0);
    PlacesDown(f, e, y, 1);
    DenPositive(e, y - 1);
    OneUp(g.n, g.d, Num(f, e, y - 1), Den(e, y - 1), Num(f, e, y), Den(e, y));
    RoundsRatio(g.n, 10 * g.d, Num(f, e, y), Den(e, y), digits[0]);
    assert Pow(10, 0) == 1 && Pow(10, 1) == 10;
  }

  lemma OneUp(n: nat, d: nat, n1: nat, d1: nat, n2: nat, d2: nat)
    requires n * 1 * d1 == n1 * d && n2 * 10 * d1 == n1 * d2 && d1 > 0
    ensures n * d2 == n2 * (10 * d)
  {
    calc {
      (n * d2) * d1;
      (n * d1) * d2;
      (n1 * d2) * d;
      (n2 * 10 * d1) * d;
      (n2 * (10 * d)) * d1;
    }
    MulCancel(n * d2, n2 * (10 * d), d1);
  }
}
