/** The fast path of format_float: digits of a 19-digit segment by magic multipliers, rounded half to even. */
module FixedPath {
  import opened Powers
  import opened DragonSpec

  const WORD32: nat := 0x1_0000_0000

  // ----- what a segment stands for, and rounding it -----

  /** The scaled value a / b is the segment itself, or lies strictly within its last genuine digit
      when more segments follow; an 18-digit segment has a bogus zero appended. */
  predicate Represents(a: int, b: int, segment: nat, more: bool, genuine: nat) {
    && b > 0
    && if !more then a == segment * b
       else segment * b < a < (segment + if genuine == 19 then 1 else 10) * b
  }

  /** q units are the segment, with a sticky half behind it if more follows, rounded half to even. */
  predicate RoundsSegment(segment: nat, more: bool, unit: nat, q: int) {
    RoundsHalfEven(2 * segment + (if more then 1 else 0), 2 * unit, q)
  }

  /** Half a unit is a multiple of the last genuine digit, so the sticky flag decides every value alike. */
  lemma StickyDecides(a: int, b: int, segment: nat, more: bool, genuine: nat, k: nat, q: int)
    requires Represents(a, b, segment, more, genuine) && k > 0
    requires genuine == 19 || (segment % 10 == 0 && k >= 2)
    requires RoundsSegment(segment, more, Pow(10, k), q)
    ensures RoundsHalfEven(a, b * Pow(10, k), q)
  {
    var u, w := Pow(10, k), if genuine == 19 then 1 else 10;
    var h, rest, delta := 5 * Pow(10, k - 1), segment - q * u, a - segment * b;
    TensDivide(k);
    HalfBounds(segment, more, w, k, q);
    Distribute(segment, w, b);
    InsideHalf(rest, h, b, delta, w);
    Recenter(a, segment, q, u, b);
    Centered(a, b * u, q, delta + rest * b, h * b, b, h);
  }

  lemma Recenter(a: int, segment: int, q: int, u: int, b: int)
    ensures a - q * (b * u) == (a - segment * b) + (segment - q * u) * b
  {
    assert (q * u) * b == q * (b * u);
    assert (segment - q * u) * b == segment * b - (q * u) * b;
  }

  lemma Centered(a: int, d: int, q: int, x: int, half: int, b: int, h: int)
    requires a - q * d == x && d == b * (2 * h) && half == h * b
    requires -half <= x <= half && (x == half || x == -half ==> q % 2 == 0)
    ensures RoundsHalfEven(a, d, q)
  {
    assert b * (2 * h) == 2 * (h * b);
  }

  /** The distance from the segment to the chosen multiple, against half a unit. */
  lemma HalfBounds(segment: nat, more: bool, w: nat, k: nat, q: int)
    requires k > 0 && RoundsSegment(segment, more, Pow(10, k), q)
    requires w == 1 || (w == 10 && segment % 10 == 0 && k >= 2)
    ensures var h, rest := 5 * Pow(10, k - 1), segment - q * Pow(10, k);
      && -h <= rest && (if more then rest + w <= h else rest <= h)
      && (!more && (rest == h || rest == -h) ==> q % 2 == 0)
  {
    var u := Pow(10, k);
    var h := 5 * Pow(10, k - 1);
    TensDivide(k);
    if w == 10 {
      TensDivide(k - 1);
      FiftyFold(Pow(10, k - 2), h);
    }
    hide Pow, RoundsHalfEven;
    Doubled(segment, if more then 1 else 0, u, q);
    if w == 10 && more { MultiplesApart(segment, q, u, h); }
    RestBounds(segment - q * u, more, w, h, q);
  }

  lemma FiftyFold(p: int, h: int)
    requires h == 5 * (10 * p)
    ensures h % 10 == 0
  {
  }

  lemma RestBounds(rest: int, more: bool, w: int, h: int, q: int)
    requires -2 * h <= 2 * rest + (if more then 1 else 0) <= 2 * h
    requires 2 * rest + (if more then 1 else 0) == 2 * h || 2 * rest + (if more then 1 else 0) == -2 * h ==> q % 2 == 0
    requires w == 1 || (w == 10 && (more ==> rest + 10 <= h))
    ensures -h <= rest && (if more then rest + w <= h else rest <= h)
    ensures !more && (rest == h || rest == -h) ==> q % 2 == 0
  {
  }

  lemma Doubled(segment: nat, s: int, u: int, q: int)
    requires RoundsHalfEven(2 * segment + s, 2 * u, q)
    ensures -u <= 2 * (segment - q * u) + s <= u
    ensures 2 * (segment - q * u) + s == u || 2 * (segment - q * u) + s == -u ==> q % 2 == 0
  {
    assert q * (2 * u) == 2 * (q * u);
  }

  /** Scaling a distance to the half point, with something less than w behind it. */
  lemma InsideHalf(rest: int, h: int, b: int, delta: int, w: int)
    requires b > 0 && -h <= rest && 0 <= delta
    ensures -(h * b) <= delta + rest * b
    ensures delta > 0 ==> -(h * b) < delta + rest * b
    ensures rest + w <= h && delta < w * b ==> delta + rest * b < h * b
    ensures rest <= h && delta == 0 ==> delta + rest * b <= h * b
    ensures delta == 0 && delta + rest * b == h * b ==> rest == h
    ensures delta == 0 && delta + rest * b == -(h * b) ==> rest == -h
  {
    Scaled(-h, rest, b);
    assert (-h) * b == -(h * b);
    Scaled(rest + w, h, b);
    assert (rest + w) * b == rest * b + w * b;
    Scaled(rest, h, b);
  }

  lemma Scaled(x: int, y: int, b: int)
    requires b > 0
    ensures x <= y ==> x * b <= y * b
    ensures x == y <==> x * b == y * b
  {
    if x <= y { MulLe(x, y, b); }
    if x * b == y * b { MulCancel(x, y, b); }
  }

  lemma TensDivide(k: nat)
    requires k > 0
    ensures Pow(10, k) == 10 * Pow(10, k - 1)
  {
  }

  /** A multiple of ten that is not past a half which is a multiple of ten is ten short of it. */
  lemma MultiplesApart(segment: nat, q: int, u: int, h: int)
    requires segment % 10 == 0 && u == 2 * h && h % 10 == 0 && -u <= 2 * (segment - q * u) + 1 <= u
    ensures segment - q * u + 10 <= h && -h <= segment - q * u
  {
    var t := h / 10;
    assert q * u == 10 * (2 * q * t) by {
      assert u == 20 * t;
      assert q * (20 * t) == 10 * (2 * q * t);
    }
  }

  // ----- printing nine digits with one multiplication -----

  function Upper(prod: nat): nat {
    prod / WORD32
  }

  function Lower(prod: nat): (low: nat)
    ensures low < WORD32
  {
    prod % WORD32
  }

  /** The threshold table: ceil(2^31 + 2^32 / 10^left). */
  function Threshold(left: nat): nat
    requires 1 <= left <= 8
  {
    [2576980378, 2190433321, 2151778616, 2147913145, 2147526598, 2147487943, 2147484078, 2147483691][left - 1]
  }

  /** prod carries d in its upper word, and its lower word the fraction that the left digits of s
      still unprinted are of 10^left, rounded up by less than one digit. */
  ghost predicate Fraction(s: nat, d: int, low: int, left: nat) {
    s * WORD32 <= (d * WORD32 + low) * Pow(10, left) < (s + 1) * WORD32
  }

  /** A fixed-point form with a one- or two-digit integer part from a good enough multiplier. */
  lemma FixedPoint(s: nat, two: bool)
    requires s < 1000000000
    ensures var prod := if two then (s * 450359963) / 0x10_0000 + 1 else (s * 720575941) / 0x100_0000 + 1;
      Fraction(s, Upper(prod), Lower(prod), if two then 7 else 8) && Upper(prod) < if two then 100 else 10
  {
    TenPowers();
  }

  lemma TenPowers()
    ensures Pow(10, 0) == 1 && Pow(10, 1) == 10 && Pow(10, 2) == 100 && Pow(10, 3) == 1000 && Pow(10, 4) == 10000
    ensures Pow(10, 5) == 100000 && Pow(10, 6) == 1000000 && Pow(10, 7) == 10000000 && Pow(10, 8) == 100000000
    ensures Pow(10, 9) == 1000000000 && Pow(10, 10) == 10000000000
  {
    assert Pow(10, 4) == 10000;
    assert forall k: nat :: Pow(10, k + 1) == 10 * Pow(10, k);
  }

  /** The next two digits leave the upper word. */
  lemma NextPair(s: nat, d: int, low: int, left: nat)
    requires Fraction(s, d, low, left) && 0 <= low < WORD32 && left >= 2
    ensures var prod := low * 100;
      Fraction(s, 100 * d + Upper(prod), Lower(prod), left - 2) && Upper(prod) < 100
  {
    var prod := low * 100;
    assert Pow(10, left) == 100 * Pow(10, left - 2);
    assert (d * WORD32 + low) * (100 * Pow(10, left - 2)) == ((d * WORD32 + low) * 100) * Pow(10, left - 2);
    assert (d * WORD32 + low) * 100 == (100 * d + prod / WORD32) * WORD32 + prod % WORD32;
  }

  /** The printed digits are the leading digits of s, and the fraction brackets the rest. */
  lemma FractionMeans(s: nat, d: int, low: int, left: nat)
    requires Fraction(s, d, low, left) && 0 <= low < WORD32
    ensures var rest := s - d * Pow(10, left);
      0 <= rest < Pow(10, left) && rest * WORD32 <= low * Pow(10, left) < (rest + 1) * WORD32
  {
    var p := Pow(10, left);
    PowPositive(10, left);
    assert (d * WORD32 + low) * p == (d * p) * WORD32 + low * p;
    MulLe(0, low, p);
    MulLt(low, WORD32, p);
  }

  /** The threshold test says strictly above one half; the top bit says at least one half. */
  lemma FractionHalves(rest: nat, low: nat, left: nat)
    requires 1 <= left <= 8 && rest * WORD32 <= low * Pow(10, left) < (rest + 1) * WORD32
    ensures low >= Threshold(left) <==> 2 * rest > Pow(10, left)
    ensures low / 0x8000_0000 >= 1 <==> 2 * rest >= Pow(10, left)
  {
    if left <= 4 { FewDigitsLeft(rest, low, left); } else { ManyDigitsLeft(rest, low, left); }
  }

  lemma FewDigitsLeft(rest: nat, low: nat, left: nat)
    requires 1 <= left <= 4 && rest * WORD32 <= low * Pow(10, left) < (rest + 1) * WORD32
    ensures low >= Threshold(left) <==> 2 * rest > Pow(10, left)
    ensures low / 0x8000_0000 >= 1 <==> 2 * rest >= Pow(10, left)
  {
    TenPowers();
    if left == 1 {} else if left == 2 {} else if left == 3 {} else {}
  }

  lemma ManyDigitsLeft(rest: nat, low: nat, left: nat)
    requires 5 <= left <= 8 && rest * WORD32 <= low * Pow(10, left) < (rest + 1) * WORD32
    ensures low >= Threshold(left) <==> 2 * rest > Pow(10, left)
    ensures low / 0x8000_0000 >= 1 <==> 2 * rest >= Pow(10, left)
  {
    TenPowers();
    if left == 5 {} else if left == 6 {} else if left == 7 {} else {}
  }

  /** The first digit, or the first two. */
  method PrintFirst(subsegment: nat, two: bool) returns (digits: seq<int>, last: nat, prod: nat)
    requires subsegment < 1000000000
    ensures |digits| == (if two then 2 else 1) && Printed(subsegment, digits, last, prod)
  {
    if two {
      prod := (subsegment * 450359963) / 0x10_0000 + 1;
      FixedPoint(subsegment, true);
    } else {
      prod := (subsegment * 720575941) / 0x100_0000 + 1;
      FixedPoint(subsegment, false);
    }
    last := Upper(prod);
    digits := if two then Pair(last) else [last];
    hide *;
    FirstPrinted(subsegment, two, digits, last, prod);
  }

  lemma FirstPrinted(subsegment: nat, two: bool, digits: seq<int>, last: nat, prod: nat)
    requires Fraction(subsegment, last, Lower(prod), if two then 7 else 8) && last < if two then 100 else 10
    requires digits == if two then Pair(last) else [last]
    ensures |digits| == (if two then 2 else 1) && Printed(subsegment, digits, last, prod)
  {
    NoDigits();
    PushPair([], last);
    DigitsPush([], last);
    assert [] + Pair(last) == Pair(last) && [] + [last] == [last];
    hide Fraction, Lower, DigitsValue;
  }

  /** The digits printed lead the subsegment, and the fraction brackets what follows them. */
  ghost predicate Printed(subsegment: nat, digits: seq<int>, last: nat, prod: nat) {
    && |digits| <= 9 && Decimal(digits) && last % 2 == DigitsValue(digits) % 2
    && Fraction(subsegment, DigitsValue(digits), Lower(prod), 9 - |digits|)
  }

  /** Two more digits. */
  method PrintPair(subsegment: nat, digits0: seq<int>, last0: nat, prod0: nat)
    returns (digits: seq<int>, last: nat, prod: nat)
    requires Printed(subsegment, digits0, last0, prod0) && |digits0| <= 7
    ensures Printed(subsegment, digits, last, prod) && |digits| == |digits0| + 2
  {
    hide Fraction, Pow, DigitsValue;
    NextPair(subsegment, DigitsValue(digits0), Lower(prod0), 9 - |digits0|);
    prod := Lower(prod0) * 100;
    last := Upper(prod);
    PushPair(digits0, last);
    digits := digits0 + Pair(last);
  }

  /** Prints the first n digits of a 9-digit number; returns the last group printed and the final
      fixed-point product. */
  method PrintSubsegment(subsegment: nat, n: nat) returns (digits: seq<int>, last: nat, prod: nat)
    requires subsegment < 1000000000 && 1 <= n <= 9
    ensures |digits| == n && Decimal(digits)
    ensures last % 2 == DigitsValue(digits) % 2
    ensures Fraction(subsegment, DigitsValue(digits), Lower(prod), 9 - n)
  {
    hide Fraction, Decimal, DigitsValue, Lower;
    digits, last, prod := PrintFirst(subsegment, n % 2 == 0);
    while |digits| < n
      invariant |digits| <= n && |digits| % 2 == n % 2 && Printed(subsegment, digits, last, prod)
      decreases n - |digits|
    {
      digits, last, prod := PrintPair(subsegment, digits, last, prod);
    }
  }

  lemma NoDigits()
    ensures DigitsValue([]) == 0 && Decimal([])
  {
  }

  /** The table of digit pairs. */
  function Pair(value: nat): seq<int> {
    [value / 10, value % 10]
  }

  /** Two digits copied from the table of pairs. */
  lemma PushPair(digits: seq<int>, pair: nat)
    requires Decimal(digits) && pair < 100
    ensures DigitsValue(digits + Pair(pair)) == 100 * DigitsValue(digits) + pair
    ensures Decimal(digits + Pair(pair)) && DigitsValue(digits + Pair(pair)) % 2 == pair % 2
  {
    DigitsPush(digits, pair / 10);
    DigitsPush(digits + [pair / 10], pair % 10);
    assert digits + Pair(pair) == (digits + [pair / 10]) + [pair % 10];
  }

  // ----- the two subsegments -----

  /** The upper word of a 128-bit product, as umul128_upper64 returns it. */
  function Upper64(x: nat, y: nat): nat {
    (x * y) / 0x1_0000_0000_0000_0000
  }

  /** Division by 10^10 with the rounded-up reciprocal of 2^96. */
  lemma FirstSubsegment(x: nat)
    requires x < 10000000000000000000
    ensures Upper64(x, 7922816251426433760) / WORD32 == x / 10000000000
  {
    var q, r := x / 10000000000, x % 10000000000;
    assert x * 7922816251426433760 == q * 79228162514264337600000000000 + r * 7922816251426433760;
  }

  /** Division by ten with the rounded-up reciprocal of 2^64. */
  lemma SecondSubsegment(x: nat)
    requires x < 10000000000
    ensures Upper64(x, 1844674407370955162) == x / 10
    ensures (x % WORD32 - (x / 10) * 10) % WORD32 == x % 10
  {
  }

  /** Half even, decided from the digits left of 10^left, with something positive behind them or not. */
  predicate RoundsUp(low: nat, left: nat, last: nat, behind: bool)
    requires 1 <= left <= 8
  {
    low >= Threshold(left) || (low / 0x8000_0000 >= 1 && (last % 2 == 1 || behind))
  }

  /** The unit is 10^left followed by a tail of scale t, of which x is left; sticky says more follows x. */
  lemma UpOrDown(segment: nat, more: bool, d: int, rest: int, p: int, t: int, x: int, unit: int, up: bool)
    requires p > 0 && t > 0 && t % 2 == 0 && unit == p * t && 0 <= rest < p && 0 <= x < t
    requires p > 1 ==> p % 2 == 0
    requires segment == d * unit + rest * t + x
    requires p > 1 ==> (up <==> 2 * rest > p || (2 * rest == p && (d % 2 == 1 || x > 0 || more)))
    requires p == 1 ==> (up <==> 2 * x > t || (2 * x == t && (d % 2 == 1 || more)))
    ensures RoundsSegment(segment, more, unit, if up then d + 1 else d)
  {
    var c := rest * t + x;
    TailWithin(rest, p, t, x, c, unit);
    if p > 1 { HalfWay(rest, p, t, x, c, unit); }
    FromRest(segment, more, d, c, unit, up);
  }

  lemma TailWithin(rest: int, p: int, t: int, x: int, c: int, unit: int)
    requires t > 0 && t % 2 == 0 && unit == p * t && 0 <= rest < p && 0 <= x < t && c == rest * t + x
    ensures 0 <= c < unit && unit % 2 == 0
    ensures p == 1 ==> c == x && unit == t
  {
    MulLe(rest + 1, p, t);
    MulLe(0, rest, t);
    assert (rest + 1) * t == rest * t + t;
    EvenProduct(p, t);
  }

  lemma EvenProduct(p: int, t: int)
    requires t % 2 == 0
    ensures (p * t) % 2 == 0
  {
    assert p * t == 2 * (p * (t / 2));
  }

  /** Where rest and a tail below t lie with respect to half of p. */
  lemma HalfWay(rest: int, p: int, t: int, x: int, c: int, unit: int)
    requires 0 <= x < t && p % 2 == 0 && c == rest * t + x && unit == p * t
    ensures 2 * rest > p ==> 2 * c > unit
    ensures 2 * rest < p ==> 2 * c < unit
    ensures 2 * rest == p ==> 2 * c == unit + 2 * x
  {
    assert (2 * rest) * t == 2 * (rest * t);
    if 2 * rest > p {
      MulLe(p + 2, 2 * rest, t);
      assert (p + 2) * t == p * t + 2 * t;
    } else if 2 * rest < p {
      MulLe(2 * rest + 2, p, t);
      assert (2 * rest + 2) * t == 2 * (rest * t) + 2 * t;
    }
  }

  lemma FromRest(segment: nat, more: bool, d: int, c: int, unit: int, up: bool)
    requires segment == d * unit + c && 0 <= c < unit && unit % 2 == 0
    requires up <==> 2 * c > unit || (2 * c == unit && (d % 2 == 1 || more))
    ensures RoundsSegment(segment, more, unit, if up then d + 1 else d)
  {
    assert d * (2 * unit) == 2 * (d * unit);
    assert (d + 1) * (2 * unit) == 2 * (d * unit) + 2 * unit;
  }

  lemma {:induction false} DigitsAppend(a: seq<int>, b: seq<int>)
    ensures DigitsValue(a + b) == DigitsValue(a) * Pow(10, |b|) + DigitsValue(b)
    decreases |b|
  {
    if b == [] {
      assert a + b == a;
    } else {
      var n := |b| - 1;
      DigitsAppend(a, b[..n]);
      assert (a + b)[..|a + b| - 1] == a + b[..n];
      assert DigitsValue(a) * (10 * Pow(10, n)) == 10 * (DigitsValue(a) * Pow(10, n));
    }
  }

  /** Digits of the first subsegment only: what follows them is a tail of ten digits. */
  lemma SplitFirst(segment: nat, d: int, left: nat)
    requires left <= 8
    ensures Pow(10, left) * 10000000000 == Pow(10, left + 10) && Pow(10, left) > 0
    ensures left > 0 ==> Pow(10, left) % 2 == 0
    ensures left == 0 ==> Pow(10, left) == 1
    ensures var rest := segment / 10000000000 - d * Pow(10, left);
      segment == d * Pow(10, left + 10) + rest * 10000000000 + segment % 10000000000
  {
    TenPowers();
    PowAdd(10, left, 10);
    PowPositive(10, left);
    var p, t, q, x := Pow(10, left), 10000000000, segment / 10000000000, segment % 10000000000;
    assert d * (p * t) == (d * p) * t by { MulAssoc(d, p, t); }
    assert (q - d * p) * t == q * t - (d * p) * t;
    assert segment == q * t + x;
  }

  /** Digits of both subsegments: what follows them is a tail of one digit. */
  lemma SplitSecond(segment: nat, first: int, d2: int, n: nat)
    requires 1 <= n <= 9 && first == segment / 10000000000
    ensures Pow(10, 9 - n) * 10 == Pow(10, 10 - n) && Pow(10, 9 - n) > 0
    ensures n < 9 ==> Pow(10, 9 - n) % 2 == 0
    ensures n == 9 ==> Pow(10, 9 - n) == 1
    ensures var st := segment % 10000000000;
      segment == (first * Pow(10, n) + d2) * Pow(10, 10 - n) + (st / 10 - d2 * Pow(10, 9 - n)) * 10 + st % 10
    ensures (first * Pow(10, n) + d2) % 2 == d2 % 2
  {
    ComplementaryPowers(n);
    hide Pow;
    var p, q, st := Pow(10, 9 - n), Pow(10, n), segment % 10000000000;
    SplitParts(segment, first, d2, p, q, st);
    EvenFactor(first, q, d2);
  }

  lemma ComplementaryPowers(n: nat)
    requires 1 <= n <= 9
    ensures Pow(10, 9 - n) * 10 == Pow(10, 10 - n) && Pow(10, 9 - n) > 0
    ensures n < 9 ==> Pow(10, 9 - n) % 2 == 0
    ensures n == 9 ==> Pow(10, 9 - n) == 1
    ensures Pow(10, 9 - n) * Pow(10, n) == 1000000000 && Pow(10, n) % 2 == 0
  {
    TenPowers();
    PowPositive(10, 9 - n);
    PowAdd(10, 9 - n, n);
    PowersAreEven(n);
    if n < 9 { PowersAreEven(9 - n); }
  }

  lemma PowersAreEven(n: nat)
    requires n > 0
    ensures Pow(10, n) % 2 == 0
  {
    assert Pow(10, n) == 2 * (5 * Pow(10, n - 1));
  }

  lemma SplitParts(segment: int, first: int, d2: int, p: int, q: int, st: int)
    requires p * q == 1000000000 && segment == first * 10000000000 + st
    ensures segment == (first * q + d2) * (p * 10) + (st / 10 - d2 * p) * 10 + st % 10
  {
    calc {
      (first * q + d2) * (p * 10);
      { Distribute(first * q, d2, p * 10); }
      (first * q) * (p * 10) + d2 * (p * 10);
      { MulAssoc(first, q, p * 10); MulAssoc(q, p, 10); MulAssoc(d2, p, 10); assert q * p == p * q; }
      first * 10000000000 + (d2 * p) * 10;
    }
  }

  lemma EvenFactor(first: int, q: int, d2: int)
    requires q % 2 == 0
    ensures (first * q + d2) % 2 == d2 % 2
  {
    EvenProduct(first, q);
  }

  /** The carry loop of the fast path. */
  method RoundUpDigits(digits0: seq<int>, fixed: bool, exp0: int) returns (digits: seq<int>, exp: int)
    requires |digits0| > 0 && Decimal(digits0)
    ensures Decimal(digits) && exp0 <= exp <= exp0 + 1
    ensures DigitsValue(digits) * Pow(10, exp - exp0) == DigitsValue(digits0) + 1
    ensures if fixed then exp == exp0 && |digits0| <= |digits| <= |digits0| + 1 else |digits| == |digits0|
    ensures exp > exp0 || |digits| > |digits0| ==> DigitsValue(digits) == Pow(10, |digits| - 1)
  {
    exp := exp0;
    var i := |digits0| - 1;
    digits := digits0[i := digits0[i] + 1];
    DigitsUpdate(digits0, i, digits0[i] + 1);
    while i > 0 && digits[i] > 9
      invariant 0 <= i < |digits| == |digits0|
      invariant forall j :: 0 <= j < i ==> 0 <= digits[j] <= 9
      invariant 0 <= digits[i] <= 10
      invariant forall j :: i < j < |digits| ==> digits[j] == 0
      invariant DigitsValue(digits) == DigitsValue(digits0) + 1
    {
      DigitsCarry(digits, i);
      digits := digits[i := 0][i - 1 := digits[i - 1] + 1];
      i := i - 1;
    }
    if digits[0] > 9 {
      TenInFront(digits);
      digits := digits[0 := 1];
      OneInFront(digits);
      if fixed {
        DigitsPush(digits, 0);
        digits := digits + [0];
      } else {
        exp := exp + 1;
      }
    }
  }

  /** The fast path of format_float, from the first segment on: precision counts digits to print. */
  method FormatSegment(segment: nat, more: bool, genuine: nat, precision: int, exp0: int, fixed: bool)
    returns (digits: seq<int>, exp: int)
    requires 1000000000000000000 <= segment < 10000000000000000000
    requires genuine == 19 || (genuine == 18 && segment % 10 == 0)
    requires precision < genuine
    ensures Decimal(digits)
    ensures precision < 0 ==>
      digits == [] && exp == exp0 + genuine && RoundsSegment(segment, more, Pow(10, 19 - precision), 0)
    ensures precision == 0 ==>
      |digits| == 1 && exp == exp0 + genuine && RoundsSegment(segment, more, Pow(10, 19), DigitsValue(digits))
    ensures precision > 0 ==> var base := exp0 + genuine - precision;
      && base <= exp <= base + 1
      && (if fixed then exp == base && precision <= |digits| <= precision + 1 else |digits| == precision)
      && RoundsSegment(segment, more, Pow(10, 19 - precision), DigitsValue(digits) * Pow(10, exp - base))
      && (exp > base || |digits| > precision ==> DigitsValue(digits) == Pow(10, |digits| - 1))
  {
    hide Pow, Fraction, RoundsSegment, Upper64, Lower, Upper, DigitsValue;
    if precision <= 0 {
      exp := exp0 + genuine;
      NoDigits();
      digits := [];
      if precision < 0 {
        BelowUnit(segment, more, 19 - precision);
      } else {
        digits := [if segment > 5000000000000000000 || (segment == 5000000000000000000 && more) then 1 else 0];
        OneRoundedDigit(segment, more, digits);
      }
      return;
    }
    exp := exp0 + genuine - precision;
    FirstSubsegment(segment);
    var first := Upper64(segment, 7922816251426433760) / WORD32;
    var secondThird := segment - first * 10000000000;
    var up;
    if precision <= 9 {
      var last, prod;
      digits, last, prod := PrintSubsegment(first, precision);
      if precision < 9 {
        up := RoundsUp(Lower(prod), 9 - precision, last, secondThird != 0 || more);
      } else {
        up := secondThird > 5000000000 || (secondThird == 5000000000 && (last % 2 != 0 || more));
      }
      UpFirst(segment, more, DigitsValue(digits), Lower(prod), last, precision, up);
    } else {
      var last, prod;
      digits, last, prod := PrintSubsegment(first, 9);
      SecondSubsegment(secondThird);
      var second := Upper64(secondThird, 1844674407370955162);
      var third := (secondThird % WORD32 - second * 10) % WORD32;
      var rest;
      ghost var d1 := digits;
      WholeSubsegment(first, DigitsValue(digits), Lower(prod));
      rest, last, prod := PrintSubsegment(second, precision - 9);
      DigitsAppend(digits, rest);
      digits := digits + rest;
      if precision < 18 {
        up := RoundsUp(Lower(prod), 18 - precision, last, third != 0 || more);
      } else {
        up := third > 5 || (third == 5 && (last % 2 != 0 || more));
      }
      UpSecond(segment, more, first, DigitsValue(rest), Lower(prod), last, precision - 9, up);
    }
    PowerZero(DigitsValue(digits));
    if up {
      digits, exp := RoundUpDigits(digits, fixed, exp);
    }
  }

  lemma PowerZero(x: int)
    ensures x * Pow(10, 0) == x
  {
  }

  lemma OneRoundedDigit(segment: nat, more: bool, digits: seq<int>)
    requires segment < 10000000000000000000
    requires digits == [if segment > 5000000000000000000 || (segment == 5000000000000000000 && more) then 1 else 0]
    ensures RoundsSegment(segment, more, Pow(10, 19), DigitsValue(digits))
  {
    TenPowers();
    PowAdd(10, 9, 10);
    assert digits[..0] == [];
  }

  /** All nine digits of a subsegment make up the subsegment. */
  lemma WholeSubsegment(s: nat, d: int, low: nat)
    requires Fraction(s, d, low, 0) && low < WORD32
    ensures d == s
  {
    FractionMeans(s, d, low, 0);
  }

  lemma UpFirst(segment: nat, more: bool, d: int, low: nat, last: nat, n: nat, up: bool)
    requires segment < 10000000000000000000 && 1 <= n <= 9 && low < WORD32 && last % 2 == d % 2
    requires Fraction(segment / 10000000000, d, low, 9 - n)
    requires var st := segment % 10000000000;
      up <==> if n < 9 then RoundsUp(low, 9 - n, last, st != 0 || more)
              else st > 5000000000 || (st == 5000000000 && (last % 2 != 0 || more))
    ensures RoundsSegment(segment, more, Pow(10, 19 - n), if up then d + 1 else d)
  {
    var left, first := 9 - n, segment / 10000000000;
    FractionMeans(first, d, low, left);
    var rest := first - d * Pow(10, left);
    if n < 9 { FractionHalves(rest, low, left); }
    SplitFirst(segment, d, left);
    UpOrDown(segment, more, d, rest, Pow(10, left), 10000000000, segment % 10000000000, Pow(10, 19 - n), up);
  }

  lemma UpSecond(segment: nat, more: bool, first: nat, d2: int, low: nat, last: nat, n: nat, up: bool)
    requires segment < 10000000000000000000 && first == segment / 10000000000
    requires 1 <= n <= 9 && low < WORD32 && last % 2 == d2 % 2
    requires Fraction((segment % 10000000000) / 10, d2, low, 9 - n)
    requires var third := (segment % 10000000000) % 10;
      up <==> if n < 9 then RoundsUp(low, 9 - n, last, third != 0 || more)
              else third > 5 || (third == 5 && (last % 2 != 0 || more))
    ensures var d := first * Pow(10, n) + d2;
      RoundsSegment(segment, more, Pow(10, 10 - n), if up then d + 1 else d)
  {
    var left, second := 9 - n, (segment % 10000000000) / 10;
    FractionMeans(second, d2, low, left);
    var rest := second - d2 * Pow(10, left);
    if n < 9 { FractionHalves(rest, low, left); }
    SplitSecond(segment, first, d2, n);
    UpOrDown(segment, more, first * Pow(10, n) + d2, rest, Pow(10, left), 10, (segment % 10000000000) % 10,
             Pow(10, 10 - n), up);
  }

  /** A segment of 19 digits rounds to zero at any unit with more zeros. */
  lemma BelowUnit(segment: nat, more: bool, k: nat)
    requires segment < 10000000000000000000 && k > 19
    ensures RoundsSegment(segment, more, Pow(10, k), 0)
  {
    TenPowers();
    PowAdd(10, 9, 10);
    PowAdd(10, 19, 1);
    PowMonotone(10, 20, k);
    assert Pow(10, 1) == 10;
    hide Pow;
  }

  /** Rounding the segment rounds every value it can stand for. */
  lemma FastPathIsExact(a: int, b: int, segment: nat, more: bool, genuine: nat, precision: int, q: int)
    requires Represents(a, b, segment, more, genuine) && precision < genuine
    requires genuine == 19 || (genuine == 18 && segment % 10 == 0)
    requires RoundsSegment(segment, more, Pow(10, 19 - precision), q)
    ensures RoundsHalfEven(a, b * Pow(10, 19 - precision), q)
  {
    StickyDecides(a, b, segment, more, genuine, 19 - precision, q);
  }

  /** A segment has nineteen digits, and so what it is rounded to has as many as are asked for. */
  lemma LargeSegment(segment: nat, more: bool, precision: nat, q: int)
    requires segment >= 1000000000000000000 && 0 < precision < 19
    requires RoundsSegment(segment, more, Pow(10, 19 - precision), q)
    ensures q >= Pow(10, precision - 1)
  {
    var unit, least := Pow(10, 19 - precision), Pow(10, precision - 1);
    TenPowers();
    PowAdd(10, 9, 9);
    PowAdd(10, precision - 1, 19 - precision);
    PowPositive(10, 19 - precision);
    assert least * unit == 1000000000000000000;
    hide Pow, RoundsHalfEven;
    Doubled(segment, if more then 1 else 0, unit, q);
    OneLess(q, least, unit);
  }

  lemma OneLess(q: int, p: int, unit: int)
    requires unit > 0
    ensures q < p ==> q * unit <= p * unit - unit
  {
    if q < p {
      MulLe(q, p - 1, unit);
      assert (p - 1) * unit == p * unit - unit;
    }
  }

  /** Digits that end the given number of places above the unit, counted in that unit. */
  function Units(digits: seq<int>, above: int): int {
    DigitsValue(digits) * Pow(10, if above > 0 then above else 0)
  }

  /** The fast path rounds every value its segment can stand for, half to even, to the digits asked for. */
  method FormatValue(segment: nat, more: bool, genuine: nat, precision: int, exp0: int, fixed: bool)
    returns (digits: seq<int>, exp: int)
    requires 1000000000000000000 <= segment < 10000000000000000000
    requires genuine == 19 || (genuine == 18 && segment % 10 == 0)
    requires precision < genuine
    ensures Decimal(digits)
    ensures var unit := exp0 + genuine - precision;
      forall a, b :: Represents(a, b, segment, more, genuine) ==>
                       RoundsHalfEven(a, b * Pow(10, 19 - precision), Units(digits, exp - unit))
    ensures precision < 0 ==> digits == []
    ensures precision >= 0 ==> exp0 + genuine - precision <= exp <= exp0 + genuine - precision + 1
    ensures precision > 0 ==> if fixed then precision <= |digits| <= precision + 1 else |digits| == precision
    ensures precision > 0 ==> digits[0] > 0
    ensures precision > 0 && (exp > exp0 + genuine - precision || |digits| > precision) ==>
              DigitsValue(digits) == Pow(10, |digits| - 1)
  {
    hide RoundsSegment, RoundsHalfEven, Represents, DigitsValue, Pow;
    digits, exp := FormatSegment(segment, more, genuine, precision, exp0, fixed);
    ghost var q := Units(digits, exp - (exp0 + genuine - precision));
    NoDigits();
    PowerZero(DigitsValue(digits));
    if precision > 0 {
      FirstIsZero(digits);
      PowPositive(10, |digits| - 1);
      LargeSegment(segment, more, precision, q);
    }
    forall a, b | Represents(a, b, segment, more, genuine)
      ensures RoundsHalfEven(a, b * Pow(10, 19 - precision), q)
    {
      FastPathIsExact(a, b, segment, more, genuine, precision, q);
    }
  }
}
