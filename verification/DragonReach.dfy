/** What format_dragon prints of floating-point numbers, and values of the formats that it prints wrong. */
module DragonReach {
  import opened Powers
  import opened Bigits
  import opened BigintSpec
  import opened DragonSpec
  import opened ShortestSpec
  import opened DragonValue
  import opened DragonStorage
  import opened Dragon

  /** No digit goes missing, whatever the exponents. */
  lemma FloatMissesNone(f: nat, e: int, closer: bool, x: int, fixedUp: bool, k: int)
    requires IsFloat(f, e, closer) && (e >= 0 ==> x >= 0)
    requires Setup(f, e, closer, x, false).n < 10 * Setup(f, e, closer, x, false).d
    ensures k > 0 ==> !MissesDigit(Setup(f, e, closer, x, fixedUp), k)
  {
    FloatPositive(f, e, closer);
    hide Setup, TwinAt, TwinPlace, IsFloat;
    if e < 0 {
      NegativeIsSafe(f, e, closer, x, fixedUp);
    } else {
      forall i: nat ensures !TwinAt(Setup(f, e, closer, x, fixedUp), i) {
        TwinExactly(f, e, closer, x, fixedUp, i);
        FloatNeverTwin(f, e, closer, x, Top(x, fixedUp) - i);
      }
    }
  }

  /**
   * Every float: rounded exactly to the places asked for whenever there is one; the shortest digits if and
   * only if the lower midpoint does not mislead; not rounded where no place is left.
   */
  lemma FloatResult(f: nat, e: int, closer: bool, x: int, fixup: bool, fixed: bool, numDigits: int,
                    result: DragonResult)
    requires IsFloat(f, e, closer) && (e >= 0 ==> x >= 0 && Estimated(f, e, x))
    requires Setup(f, e, closer, x, false).n < 10 * Setup(f, e, closer, x, false).d
    requires var fixedUp := FixedUp(f, e, closer, x, fixup);
      IsResult(f, e, closer, x, fixedUp, numDigits, FinalDigits(numDigits, fixup, fixed, Top(x, fixedUp)),
               fixup && fixed, result)
    requires result.Printed?
    ensures var fixedUp := FixedUp(f, e, closer, x, fixup);
      var top := Top(x, fixedUp);
      var k := FinalDigits(numDigits, fixup, fixed, top);
      && (k >= 0 ==> |result.digits| == (if k == 0 then 1 else k)
                     && IsRoundedDecimal(f, e, top - (k - 1), result.digits, result.exp10))
      && (k < 0 && numDigits < 0 ==>
            (IsShortestDecimal(f, e, closer, top, result.digits, result.exp10)
             <==> !MidpointMisleads(f, e, closer, x, fixedUp)))
      && (k < 0 && numDigits >= 0 ==> IsUnrounded(f, e, closer, x, fixedUp, k, result.digits, result.exp10))
  {
    hide Setup, IsShortestDecimal, IsRoundedDecimal, MisreadAt, TwinAt, IsFloat, Estimated, MidpointMisleads,
         IsUnrounded, FixedUp, MissesDigit;
    var fixedUp := FixedUp(f, e, closer, x, fixup);
    FloatMissesNone(f, e, closer, x, fixedUp, FinalDigits(numDigits, fixup, fixed, Top(x, fixedUp)));
    MisreadIffMidpoint(f, e, closer, x, fixedUp);
  }

  /** Fixed notation after a fixup: the value is rounded to that many decimal places if and only if the
      place is at most one above the first digit; otherwise a zero is due and something else is printed. */
  lemma FixedPlaces(f: nat, e: int, closer: bool, x: int, numDigits: int, result: DragonResult)
    requires IsFloat(f, e, closer) && (e >= 0 ==> x >= 0 && Estimated(f, e, x)) && numDigits >= 0
    requires Setup(f, e, closer, x, false).n < 10 * Setup(f, e, closer, x, false).d
    requires var fixedUp := FixedUp(f, e, closer, x, true);
      IsResult(f, e, closer, x, fixedUp, numDigits, FinalDigits(numDigits, true, true, Top(x, fixedUp)), true, result)
    requires result.Printed?
    ensures var k := FinalDigits(numDigits, true, true, Top(x, FixedUp(f, e, closer, x, true)));
      && (IsRoundedDecimal(f, e, -numDigits, result.digits, result.exp10) <==> k >= 0)
      && (k < 0 ==> IsRounding(f, e, -numDigits, 0) && DigitsValue(result.digits) > 0)
  {
    hide Setup, IsFloat, Estimated, MidpointMisleads, FixedUp, IsShortestDecimal, IsResult, IsRounding, IsShortest,
         Narrowed;
    FloatResult(f, e, closer, x, true, true, numDigits, result);
  }

  // ----- values that are printed wrong -----

  /** A value of a format and the exponent format_float estimates for it: the least whose power of ten is not
      below the leading bit. */
  predicate IsCall(f: nat, e: int, bits: nat, x: int) {
    && Precision(bits) && InFormat(f, e, false, bits)
    && e + bits - 1 >= 0 && x > 0 && Pow(10, x - 1) < Pow(2, e + bits - 1) <= Pow(10, x)
  }

  lemma LargeTwos()
    ensures Pow(2, 31) == 2147483648 && Pow(2, 64) == 18446744073709551616
    ensures Pow(2, 97) == 158456325028528675187087900672
  {
    assert Pow(2, 8) == 256;
    PowAdd(2, 8, 8);
    PowAdd(2, 16, 8);
    PowAdd(2, 24, 7);
    assert Pow(2, 7) == 128;
    PowAdd(2, 16, 16);
    PowAdd(2, 32, 32);
    PowAdd(2, 32, 1);
    PowAdd(2, 64, 33);
  }

  lemma LargeTens()
    ensures Pow(10, 39) == 1000000000000000000000000000000000000000
    ensures Pow(10, 44) == 100000000000000000000000000000000000000000000
  {
    assert Pow(10, 5) == 100000;
    assert Pow(10, 8) == 100000000;
    PowAdd(10, 5, 8);
    PowAdd(10, 13, 13);
    PowAdd(10, 13, 26);
    PowAdd(10, 39, 5);
  }

  /** The operands for a nonnegative binary exponent after the fixup, spelled out. */
  lemma SetupIs(f: nat, e: nat, x: nat, p: nat, t: nat)
    requires p == Pow(2, e) && t == Pow(10, x)
    ensures Setup(f, e, false, x, true)
         == Input(10 * (2 * (f * p)), 2 * t, 10 * p, 10 * p, f % 2 == 0, (e + 1) / 32, x / 32, e / 32)
    ensures NeedsFixup(Setup(f, e, false, x, false))
       <==> if f % 2 == 0 then 2 * (f * p) + p < 2 * t else 2 * (f * p) + p <= 2 * t
  {
    NoneAndOne();
    OneTimes(f, p, t);
    hide Pow;
  }

  lemma OneTimes(f: nat, p: nat, t: nat)
    ensures f * p * 1 == f * p && 1 * p * 1 == p && 1 * t == t
  {
  }

  lemma SmallTens()
    ensures Pow(10, 0) == 1 && Pow(10, 1) == 10
    ensures Pow(10, 2) == 100 && Pow(10, 3) == 1000
    ensures Pow(10, 4) == 10000 && Pow(10, 5) == 100000
    ensures Pow(10, 6) == 1000000 && Pow(10, 7) == 10000000
    ensures Pow(10, 8) == 100000000 && Pow(10, 9) == 1000000000
    ensures Pow(10, 10) == 10000000000 && Pow(10, 11) == 100000000000
    ensures Pow(10, 12) == 1000000000000 && Pow(10, 13) == 10000000000000
  {
    assert Pow(10, 3) == 1000;
    PowAdd(10, 3, 3);
    PowAdd(10, 6, 1);
    PowAdd(10, 6, 2);
    PowAdd(10, 6, 3);
    PowAdd(10, 9, 1);
    PowAdd(10, 9, 2);
    PowAdd(10, 9, 3);
    PowAdd(10, 12, 1);
  }

  /** The loop passes a digit after which neither end of the interval is near. */
  lemma Passes(g: Input, j: nat, p: int, r: int, t: nat)
    requires g.d > 0 && t == Pow(10, j)
    requires g.n * t == p * g.d + r && g.lo * t < r && r + g.hi * t < g.d && g.n * t != g.d
    ensures !StopsAt(g, j)
  {
    DivModUnique(g.n * t, g.d, p, r);
  }

  lemma AtDigit(g: Input, j: nat, p: int, r: int, t: nat)
    requires g.d > 0 && t == Pow(10, j)
    requires g.n * t == p * g.d + r && 0 <= r < g.d
    ensures Prefix(g, j) == p && Rest(g, j) == r
  {
    DivModUnique(g.n * t, g.d, p, r);
  }

  /** A remainder equal to the lower distance, far from the upper end, is misread when the
      comparison of the exponents contradicts the interval's closedness. */
  lemma DecideMisread(g: Input, j: nat, p: int, r: int, t: nat)
    requires g.d > 0 && p > 0 && r > 0 && Prefix(g, j) == p && Rest(g, j) == r == g.lo * t && Pow(10, j) == t
    requires g.n * t != g.d && g.hi * t > 0 && r + g.hi * t < g.d
    requires forall i: nat :: i < j ==> !StopsAt(g, i)
    requires if g.closed then Min(g.nExp, g.dExp) < g.loExp else Min(g.nExp, g.dExp) > g.loExp
    ensures MisreadAt(g, j) && (Admissible(g, j, p) <==> g.closed)
  {
    hide Shl;
    EndsAt(g, j, p, r, t);
  }

  lemma EndsAt(g: Input, j: nat, p: int, r: int, t: nat)
    requires g.d > 0 && p > 0 && r > 0 && Prefix(g, j) == p && Rest(g, j) == r == g.lo * t && Pow(10, j) == t
    requires g.hi * t > 0 && r + g.hi * t < g.d
    ensures Admissible(g, j, p) <==> g.closed
    ensures Low(g, j) <==> g.closed
    ensures !High(g, j)
  {
    PrefixDivides(g, j);
    PrefixEnds(g.n * Pow(10, j), g.d, p, r, g.lo * Pow(10, j), g.hi * Pow(10, j), g.closed);
  }

  /** In the 113-bit format, an odd significand whose lower midpoint is a 14-digit decimal: its remainder equals
      the lower distance but is stored higher, which reads as smaller. The 14 digits printed do not read back. */
  lemma StopsOffTheIntervalDigits(g: Input)
    requires g == Input(223007451985380000000000000000000021474836480, 200000000000000000000000000000000000000000000,
                        21474836480, 21474836480, false, 1, 1, 0)
    ensures forall j: nat :: j < 13 ==> !StopsAt(g, j)
  {
    SmallTens();
    Passes(g, 0, 1, 23007451985380000000000000000000021474836480, 1);
    Passes(g, 1, 11, 30074519853800000000000000000000214748364800, 10);
    Passes(g, 2, 111, 100745198538000000000000000000002147483648000, 100);
    Passes(g, 3, 1115, 7451985380000000000000000000021474836480000, 1000);
    Passes(g, 4, 11150, 74519853800000000000000000000214748364800000, 10000);
    Passes(g, 5, 111503, 145198538000000000000000000002147483648000000, 100000);
    Passes(g, 6, 1115037, 51985380000000000000000000021474836480000000, 1000000);
    Passes(g, 7, 11150372, 119853800000000000000000000214748364800000000, 10000000);
    Passes(g, 8, 111503725, 198538000000000000000000002147483648000000000, 100000000);
    Passes(g, 9, 1115037259, 185380000000000000000000021474836480000000000, 1000000000);
    Passes(g, 10, 11150372599, 53800000000000000000000214748364800000000000, 10000000000);
    Passes(g, 11, 111503725992, 138000000000000000000002147483648000000000000, 100000000000);
    Passes(g, 12, 1115037259926, 180000000000000000000021474836480000000000000, 1000000000000);
  }

  lemma StopsOffCalled()
    ensures IsCall(5192296858536545187234878540039063, 31, 113, 44)
  {
    SmallPowers();
    BetweenBits();
    PowAdd(2, 113, 30);
    PowAdd(2, 143, 1);
    NoneAndOne();
    PowPositive(2, 143);
    hide Pow;
  }

  lemma StopsOffTheInterval()
    ensures IsCall(5192296858536545187234878540039063, 31, 113, 44)
    ensures FixedUp(5192296858536545187234878540039063, 31, false, 44, true)
    ensures var g := Setup(5192296858536545187234878540039063, 31, false, 44, true);
      g.d > 0 && MisreadAt(g, 13) && !Admissible(g, 13, 11150372599269)
  {
    StopsOffCalled();
    LargeTwos();
    LargeTens();
    SetupIs(5192296858536545187234878540039063, 31, 44, 2147483648, 100000000000000000000000000000000000000000000);
    var g := Setup(5192296858536545187234878540039063, 31, false, 44, true);
    StopsOffTheIntervalDigits(g);
    SmallTens();
    AtDigit(g, 13, 11150372599269, 214748364800000000000000, 10000000000000);
    DecideMisread(g, 13, 11150372599269, 214748364800000000000000, 10000000000000);
  }

  /** In the 64-bit significand format, an even significand whose lower midpoint is a 12-digit decimal: its remainder
      equals the lower distance but is stored lower, which reads as larger. The 12 digits would read back. */
  lemma RunsPastTheShortestDigits(g: Input)
    requires g == Input(4123168604160000000184467440737095516160, 2000000000000000000000000000000000000000,
                        184467440737095516160, 184467440737095516160, true, 2, 1, 2)
    ensures forall j: nat :: j < 11 ==> !StopsAt(g, j)
  {
    SmallTens();
    Passes(g, 0, 2, 123168604160000000184467440737095516160, 1);
    Passes(g, 1, 20, 1231686041600000001844674407370955161600, 10);
    Passes(g, 2, 206, 316860416000000018446744073709551616000, 100);
    Passes(g, 3, 2061, 1168604160000000184467440737095516160000, 1000);
    Passes(g, 4, 20615, 1686041600000001844674407370955161600000, 10000);
    Passes(g, 5, 206158, 860416000000018446744073709551616000000, 100000);
    Passes(g, 6, 2061584, 604160000000184467440737095516160000000, 1000000);
    Passes(g, 7, 20615843, 41600000001844674407370955161600000000, 10000000);
    Passes(g, 8, 206158430, 416000000018446744073709551616000000000, 100000000);
    Passes(g, 9, 2061584302, 160000000184467440737095516160000000000, 1000000000);
    Passes(g, 10, 20615843020, 1600000001844674407370955161600000000000, 10000000000);
  }

  lemma RunsPastCalled()
    ensures IsCall(11175870895385742188, 64, 64, 39)
  {
    SmallPowers();
    LargeTwos();
    LargeTens();
    PowAdd(2, 64, 31);
    PowAdd(2, 95, 31);
    PowAdd(2, 126, 1);
    PowAdd(10, 38, 1);
    NoneAndOne();
    hide Pow;
  }

  lemma RunsPastTheShortest()
    ensures IsCall(11175870895385742188, 64, 64, 39)
    ensures FixedUp(11175870895385742188, 64, false, 39, true)
    ensures var g := Setup(11175870895385742188, 64, false, 39, true);
      g.d > 0 && MisreadAt(g, 11) && Admissible(g, 11, 206158430208)
  {
    RunsPastCalled();
    LargeTwos();
    LargeTens();
    SetupIs(11175870895385742188, 64, 39, 18446744073709551616, 1000000000000000000000000000000000000000);
    var g := Setup(11175870895385742188, 64, false, 39, true);
    RunsPastTheShortestDigits(g);
    SmallTens();
    AtDigit(g, 11, 206158430208, 18446744073709551616000000000000, 100000000000);
    DecideMisread(g, 11, 206158430208, 18446744073709551616000000000000, 100000000000);
  }

  /** 10^-10 in the 64-bit format, in fixed notation with two places: it rounds to zero, but the digit one is
      printed. */
  lemma TenBillionth(result: DragonResult)
    requires var fixedUp := FixedUp(15845632502852867519, -97, false, -10, true);
      IsResult(15845632502852867519, -97, false, -10, fixedUp, 2, FinalDigits(2, true, true, Top(-10, fixedUp)), true,
               result)
    ensures result == Printed([1], -10) && IsRounding(15845632502852867519, -97, -2, 0)
  {
    TenBillionthOperands();
    SmallTens();
    var g := Setup(15845632502852867519, -97, false, -10, false);
    assert Narrowed(15845632502852867519, -97, false, -10, false) == g;
    hide Setup, IsRounding;
    assert FinalDigits(2, true, true, -10) == -7;
    OnlyOne(g, result.digits);
  }

  lemma TenBillionthOperands()
    ensures Setup(15845632502852867519, -97, false, -10, false)
         == Input(316912650057057350380000000000, 316912650057057350374175801344, 10000000000, 10000000000, false, 0,
                  3, 0)
    ensures !NeedsFixup(Setup(15845632502852867519, -97, false, -10, false))
  {
    LargeTwos();
    SmallTens();
    assert Pow(2, 0) == 1;
    hide Pow;
  }

  /** Where a one is admissible and nothing else is, it is the shortest. */
  lemma OnlyOne(g: Input, digits: seq<int>)
    requires g == Input(316912650057057350380000000000, 316912650057057350374175801344, 10000000000, 10000000000,
                        false, 0, 3, 0)
    requires IsShortest(g, digits)
    ensures digits == [1]
  {
    assert Pow(10, 0) == 1;
    assert Admissible(g, 0, 1);
    assert |digits| == 1;
    assert DigitsValue(digits) == digits[0] by { assert digits[..0] == []; }
  }
}
