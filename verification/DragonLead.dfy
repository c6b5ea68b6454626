/** The first of the digits that format_dragon prints when it is given their number. */
module DragonLead {
  import opened Powers
  import opened DragonSpec
  import opened ShortestSpec
  import opened DragonValue
  import opened DragonStorage
  import opened Dragon
  import opened DragonReach

  /** f * 2^e is more than half a unit of the k-th digit behind it below 10^x; half a unit is enough for one digit. */
  predicate JustBelow(f: nat, e: int, x: int, k: nat)
    requires k > 0
  {
    var short := 2 * (Den(e, x) - Num(f, e, x)) * Pow(10, k - 1);
    short > Den(e, x) || (k == 1 && short == Den(e, x))
  }

  /** Rounding half to even stays below a power of ten exactly if more than half a unit is missing to it. */
  lemma RoundsBelow(n: int, d: int, p: int, q: int)
    requires d > 0 && p > 0 && (p % 2 == 0 || p == 1) && RoundsHalfEven(n * p, d, q)
    ensures q < p <==> 2 * (d - n) * p > d || (p == 1 && 2 * (d - n) * p == d)
  {
    assert 2 * (d - n) * p == 2 * (p * d) - 2 * (n * p) by { Distribute(d, -n, p); MulAssoc(2, d - n, p); }
    if q < p { MulLe(q, p - 1, d); } else { MulLe(p, q, d); }
    if q > p { MulLt(p, q, d); }
    assert (p - 1) * d == p * d - d;
    assert q == p - 1 ==> q * d == p * d - d;
    assert q < p - 1 ==> q * d <= p * d - 2 * d by {
      if q < p - 1 { MulLe(q, p - 2, d); }
    }
    HalfBelow(n * p, q * d, p * d, d, p, q);
  }

  lemma HalfBelow(a: int, b: int, c: int, d: int, p: int, q: int)
    requires d > 0 && (p % 2 == 0 || p == 1) && -d <= 2 * (a - b) <= d && (2 * (a - b) == d ==> q % 2 == 0)
    requires 2 * (a - b) == -d ==> q % 2 == 0
    requires (q < p ==> b <= c - d) && (q >= p ==> b >= c) && (q < p - 1 ==> b <= c - 2 * d) && (q > p ==> b > c)
    requires p > 0 && (q == p - 1 ==> b == c - d)
    ensures q < p <==> 2 * (c - a) > d || (p == 1 && 2 * (c - a) == d)
  {
  }

  lemma EvenPower(k: nat)
    ensures Pow(10, k) > 0 && (Pow(10, k) % 2 == 0 || Pow(10, k) == 1) && (Pow(10, k) == 1 <==> k == 0)
  {
    PowPositive(10, k);
    if k > 0 {
      PowPositive(10, k - 1);
      assert Pow(10, k) == 2 * (5 * Pow(10, k - 1));
    }
  }

  /** What is rounded to the k-th place from the top starts with a zero exactly if the value is just below. */
  lemma RoundedLead(f: nat, e: int, top: int, k: nat, digits: seq<int>, x: int)
    requires k > 0 && |digits| == k && IsRoundedDecimal(f, e, top - (k - 1), digits, x)
    ensures digits[0] == 0 <==> JustBelow(f, e, top, k)
  {
    var unit := top - (k - 1);
    var q := DigitsValue(digits) * Pow(10, x - unit);
    FirstIsZero(digits);
    EvenPower(k - 1);
    PlacesDown(f, e, top, k - 1);
    DenPositive(e, top);
    DenPositive(e, unit);
    assert Pow(10, 0) == 1 && Pow(10, 1) == 10;
    hide Num, Den, Pow;
    RoundsRatio(Num(f, e, top) * Pow(10, k - 1), Den(e, top), Num(f, e, unit), Den(e, unit), q);
    RoundsBelow(Num(f, e, top), Den(e, top), Pow(10, k - 1), q);
  }

  /** The exponent is left alone exactly if the power of ten is reached by the value or reads back as it. */
  lemma FixupExactly(f: nat, e: int, closer: bool, x: int)
    ensures NeedsFixup(Setup(f, e, closer, x, false)) <==> Num(f, e, x) < Den(e, x) && !InRange(f, e, closer, x, 1)
  {
    NumPositive(1, e, x);
    hide Num, Den;
    var h, n, d, lo := Halves(closer), Num(f, e, x), Den(e, x), Num(1, e, x);
    var hi := UpperUnits(closer) * lo;
    MulSigns(h, n, d);
    assert hi == if closer then 2 * lo else lo;
    assert 1 * (h * n) == h * n && 1 * hi == hi && 1 * (h * d) == h * d;
  }

  lemma MulSigns(h: int, a: int, b: int)
    requires h > 0
    ensures h * a < h * b <==> a < b
  {
    if a < b { MulLt(a, b, h); } else { MulLe(b, a, h); }
  }

  /** After a fixup of a value not more than one place below, the first digit is not zero. */
  lemma FixedUpLead(f: nat, e: int, x: int, k: nat)
    requires k > 0 && Den(e, x) <= 10 * Num(f, e, x)
    ensures !JustBelow(f, e, x - 1, k)
  {
    PlacesDown(f, e, x, 1);
    DenPositive(e, x);
    DenPositive(e, x - 1);
    PowPositive(10, k - 1);
    assert Pow(10, 1) == 10;
    hide Num, Den, Pow;
    var n: int, d: int, n': int, d': int := Num(f, e, x), Den(e, x), Num(f, e, x - 1), Den(e, x - 1);
    TenTimesAbove(n, d, n', d');
    MulAssoc(2, d' - n', Pow(10, k - 1));
    MulLe(d' - n', 0, Pow(10, k - 1));
  }

  lemma TenTimesAbove(n: int, d: int, n': int, d': int)
    requires n * 10 * d' == n' * d && d <= 10 * n && d > 0 && d' > 0
    ensures n' >= d'
  {
    MulLe(d, 10 * n, d');
    if n' < d' { MulLt(n', d', d); }
  }

  /**
   * A given number of digits starts with a zero, and so is one digit short, exactly if the next power of ten reads
   * back as the value but is told from it by so many digits.
   */
  lemma LeadingZero(f: nat, e: int, closer: bool, x: int, fixed: bool, numDigits: int, result: DragonResult)
    requires IsFloat(f, e, closer) && (e >= 0 ==> x >= 0 && Estimated(f, e, x))
    requires Num(f, e, x) < 10 * Den(e, x) && Den(e, x) <= 10 * Num(f, e, x)
    requires var fixedUp := FixedUp(f, e, closer, x, true);
      IsResult(f, e, closer, x, fixedUp, numDigits, FinalDigits(numDigits, true, fixed, Top(x, fixedUp)), fixed, result)
    requires result.Printed? && FinalDigits(numDigits, true, fixed, Top(x, FixedUp(f, e, closer, x, true))) > 0
    ensures var k := FinalDigits(numDigits, true, fixed, Top(x, FixedUp(f, e, closer, x, true)));
      && |result.digits| == k
      && (result.digits[0] == 0 <==> InRange(f, e, closer, x, 1) && JustBelow(f, e, x, k))
  {
    var fixedUp := FixedUp(f, e, closer, x, true);
    var k := FinalDigits(numDigits, true, fixed, Top(x, fixedUp));
    FixupExactly(f, e, closer, x);
    SetupBelow(f, e, closer, x);
    BelowIsBelow(f, e, x, k);
    assert fixedUp == NeedsFixup(Setup(f, e, closer, x, false)) && Top(x, fixedUp) == if fixedUp then x - 1 else x;
    hide *;
    ResultRounded(f, e, closer, x, fixed, numDigits, result);
    RoundedLead(f, e, Top(x, fixedUp), k, result.digits, result.exp10);
    if fixedUp { FixedUpLead(f, e, x, k); }
  }

  lemma ResultRounded(f: nat, e: int, closer: bool, x: int, fixed: bool, numDigits: int, result: DragonResult)
    requires IsFloat(f, e, closer) && (e >= 0 ==> x >= 0 && Estimated(f, e, x))
    requires Setup(f, e, closer, x, false).n < 10 * Setup(f, e, closer, x, false).d
    requires var fixedUp := FixedUp(f, e, closer, x, true);
      IsResult(f, e, closer, x, fixedUp, numDigits, FinalDigits(numDigits, true, fixed, Top(x, fixedUp)), fixed, result)
    requires result.Printed? && FinalDigits(numDigits, true, fixed, Top(x, FixedUp(f, e, closer, x, true))) > 0
    ensures var top := Top(x, FixedUp(f, e, closer, x, true));
      var k := FinalDigits(numDigits, true, fixed, top);
      |result.digits| == k && IsRoundedDecimal(f, e, top - (k - 1), result.digits, result.exp10)
  {
    hide Setup, IsFloat, Estimated, IsResult, FixedUp, IsRoundedDecimal, IsShortestDecimal, MidpointMisleads,
         IsUnrounded;
    FloatResult(f, e, closer, x, true, fixed, numDigits, result);
  }

  lemma SetupBelow(f: nat, e: int, closer: bool, x: int)
    requires Num(f, e, x) < 10 * Den(e, x)
    ensures Setup(f, e, closer, x, false).n < 10 * Setup(f, e, closer, x, false).d
  {
    hide Num, Den;
    var h := Halves(closer);
    MulLt(Num(f, e, x), 10 * Den(e, x), h);
    assert h * (10 * Den(e, x)) == 10 * (h * Den(e, x));
  }

  lemma BelowIsBelow(f: nat, e: int, x: int, k: nat)
    requires k > 0
    ensures JustBelow(f, e, x, k) ==> Num(f, e, x) < Den(e, x)
  {
    DenPositive(e, x);
    PowPositive(10, k - 1);
    hide Num, Den;
    var n: int, d: int := Num(f, e, x), Den(e, x);
    if n >= d {
      MulLe(2 * (d - n), 0, Pow(10, k - 1));
    }
  }

  // ----- such a value -----

  /** 10^28 in the 64-bit format, for 21 digits: it is printed as a zero and twenty others. */
  lemma TenToTwentyEight(result: DragonResult)
    requires var fixedUp := FixedUp(9313225746154785156, 30, false, 28, true);
      IsResult(9313225746154785156, 30, false, 28, fixedUp, 21,
               FinalDigits(21, true, false, Top(28, fixedUp)), false, result)
    requires result.Printed?
    ensures IsCall(9313225746154785156, 30, 64, 28)
    ensures |result.digits| == 21 && result.digits[0] == 0
  {
    TenToTwentyEightCalled();
    TenToTwentyEightNear();
    var f := 9313225746154785156;
    assert FinalDigits(21, true, false, Top(28, FixedUp(f, 30, false, 28, true))) == 21;
    hide Num, Den, IsResult, FixedUp, InRange, JustBelow, Pow, IsFloat, IsCall;
    LeadingZero(f, 30, false, 28, false, 21, result);
  }

  lemma TenToTwentyEightCalled()
    ensures IsCall(9313225746154785156, 30, 64, 28) && IsFloat(9313225746154785156, 30, false)
    ensures Estimated(9313225746154785156, 30, 28)
  {
    SmallPowers();
    LargeTwos();
    Tens28();
    assert Pow(2, 63) == 0x8000_0000_0000_0000 by { PowAdd(2, 63, 1); NoneAndOne(); }
    PowAdd(2, 30, 63);
    PowAdd(2, 30, 1);
    NoneAndOne();
    hide Pow;
    assert InFormat(9313225746154785156, 30, false, 64) && Precision(64);
  }

  lemma Tens28()
    ensures Pow(10, 20) == 100000000000000000000
    ensures Pow(10, 27) == 1000000000000000000000000000
    ensures Pow(10, 28) == 10000000000000000000000000000
  {
    SmallTens();
    PowAdd(10, 10, 10);
    PowAdd(10, 20, 7);
    PowAdd(10, 20, 8);
  }

  lemma TenToTwentyEightNear()
    ensures var f := 9313225746154785156;
      && InRange(f, 30, false, 28, 1) && JustBelow(f, 30, 28, 21)
      && Num(f, 30, 28) < 10 * Den(30, 28) && Den(30, 28) <= 10 * Num(f, 30, 28)
  {
    var f := 9313225746154785156;
    LargeTwos();
    Tens28();
    PowAdd(2, 30, 1);
    NoneAndOne();
    assert Pow(2, 30) == 1073741824;
    hide Pow;
  }
}
