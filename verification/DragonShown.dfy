/** What fixed notation shows of the digits that format_dragon prints. */
module DragonShown {
  import opened Powers
  import opened DragonSpec
  import opened DragonValue
  import opened DragonStorage
  import opened Dragon
  import opened DragonReach
  import opened DragonLead
  import opened FloatShape
  import FloatLayout
  import FormatSyntax

  /** Digits as characters. */
  function TextOf(digits: seq<int>): (s: string)
    requires Decimal(digits)
    ensures |s| == |digits| && FloatLayout.Digits(s)
  {
    seq(|digits|, i requires 0 <= i < |digits| => '0' + digits[i] as char)
  }

  /** Rounded digits end one place above the unit exactly if the value rounds to one more digit than they are. */
  lemma CarryExactly(f: nat, e: int, unit: int, digits: seq<int>, x: int)
    requires IsRoundedDecimal(f, e, unit, digits, x)
    ensures x == unit + 1 <==> IsRounding(f, e, unit, Pow(10, |digits|))
    ensures x == unit || x == unit + 1
  {
    FirstIsZero(digits);
    DenPositive(e, unit);
    assert Pow(10, 0) == 1 && Pow(10, 1) == 10 && Pow(10, |digits|) == Pow(10, |digits| - 1) * 10;
    hide Num, Den, Pow, RoundsHalfEven;
    if x == unit && IsRounding(f, e, unit, Pow(10, |digits|)) {
      RoundsUniquely(Num(f, e, unit), Den(e, unit), DigitsValue(digits), Pow(10, |digits|));
    }
  }

  /** Digits ending one place early are shown with one place less behind the point. */
  lemma PlaceLost(sig: string, exponent: int, specs: FloatLayout.FloatSpecs, point: char)
    requires FloatLayout.Writable(sig, exponent, specs) && specs.format.Fixed? && sig != ""
    requires specs.precision > 0 && exponent == 1 - specs.precision
    ensures HasShape(FloatLayout.Layout(sig, exponent, specs, point).text, point, specs.sign, Max(1, exponent + |sig|),
                     specs.precision > 1 || specs.showpoint, specs.precision - 1, "")
  {
    hide HasShape, FloatLayout.Layout;
    if exponent + |sig| > 0 {
      IntegerShape(sig, exponent, specs, point);
    } else {
      FractionShape(sig, exponent, specs, point);
    }
  }

  /**
   * Fixed notation of what is printed, where a digit is left to print: it shows the places asked for, but one less
   * if and only if the value rounds up to the next power of ten.
   */
  lemma FixedDigitsShown(f: nat, e: int, closer: bool, x: int, specs: FloatLayout.FloatSpecs, point: char,
                         result: DragonResult)
    requires IsFloat(f, e, closer) && (e >= 0 ==> x >= 0 && Estimated(f, e, x))
    requires Num(f, e, x) < 10 * Den(e, x)
    requires specs.format.Fixed? && specs.precision > 0
    requires var fixedUp := FixedUp(f, e, closer, x, true);
      var k := FinalDigits(specs.precision, true, true, Top(x, fixedUp));
      k > 0 && IsResult(f, e, closer, x, fixedUp, specs.precision, k, true, result)
    requires result.Printed?
    ensures var k := FinalDigits(specs.precision, true, true, Top(x, FixedUp(f, e, closer, x, true)));
      && Decimal(result.digits) && |result.digits| == k
      && var sig := TextOf(result.digits);
         var lost := IsRounding(f, e, -specs.precision, Pow(10, k));
         var behind := if lost then specs.precision - 1 else specs.precision;
         HasShape(FloatLayout.Layout(sig, result.exp10, specs, point).text, point, specs.sign,
                  Max(1, result.exp10 + k), behind > 0 || specs.showpoint, behind, "")
  {
    var fixedUp := FixedUp(f, e, closer, x, true);
    var k := FinalDigits(specs.precision, true, true, Top(x, fixedUp));
    SetupBelow(f, e, closer, x);
    ResultRounded(f, e, closer, x, true, specs.precision, result);
    assert Top(x, fixedUp) - (k - 1) == -specs.precision;
    assert Decimal(result.digits);
    hide *;
    FixedDigitsLaid(f, e, k, specs, point, result.digits, result.exp10);
  }

  lemma FixedDigitsLaid(f: nat, e: int, k: nat, specs: FloatLayout.FloatSpecs, point: char, digits: seq<int>, x: int)
    requires specs.format.Fixed? && specs.precision > 0 && k > 0 && |digits| == k
    requires Decimal(digits) && IsRoundedDecimal(f, e, -specs.precision, digits, x)
    ensures var sig := TextOf(digits);
      var lost := IsRounding(f, e, -specs.precision, Pow(10, k));
      var behind := if lost then specs.precision - 1 else specs.precision;
      HasShape(FloatLayout.Layout(sig, x, specs, point).text, point, specs.sign, Max(1, x + k),
               behind > 0 || specs.showpoint, behind, "")
  {
    CarryExactly(f, e, -specs.precision, digits, x);
    var sig := TextOf(digits);
    assert FloatLayout.Writable(sig, x, specs);
    hide *;
    if IsRounding(f, e, -specs.precision, Pow(10, k)) {
      PlaceLost(sig, x, specs, point);
    } else {
      FixedShows(sig, x, specs, point);
    }
  }

  // ----- such a value -----

  /** 9.96875 in the 64-bit format, with one place: a one, a zero and no digit behind the point. */
  lemma NearTen(specs: FloatLayout.FloatSpecs, point: char, result: DragonResult)
    requires specs.format.Fixed? && specs.precision == 1 && result.Printed?
    requires var fixedUp := FixedUp(11493186249049505792, -60, false, 1, true);
      IsResult(11493186249049505792, -60, false, 1, fixedUp, 1, FinalDigits(1, true, true, Top(1, fixedUp)), true,
               result)
    ensures 11493186249049505792 * 100000 == 996875 * Pow(2, 60) && IsCall(11493186249049505792, -60, 64, 1)
    ensures Decimal(result.digits)
    ensures HasShape(FloatLayout.Layout(TextOf(result.digits), result.exp10, specs, point).text, point, specs.sign, 2,
                     specs.showpoint, 0, "")
  {
    var f := 11493186249049505792;
    NearTenCalled();
    NearTenRounds();
    FixupExactly(f, -60, false, 1);
    assert FixedUp(f, -60, false, 1, true) && Top(1, true) == 0 && FinalDigits(1, true, true, 0) == 2;
    hide Num, Den, IsResult, FixedUp, InRange, Pow, IsFloat, IsCall, TextOf, IsRounding, HasShape, FloatLayout.Layout,
         Setup;
    FixedDigitsShown(f, -60, false, 1, specs, point, result);
    CarryExactly(f, -60, -1, result.digits, result.exp10) by { NearTenRounded(f, specs, result); }
  }

  lemma NearTenRounded(f: nat, specs: FloatLayout.FloatSpecs, result: DragonResult)
    requires IsFloat(f, -60, false) && Num(f, -60, 1) < 10 * Den(-60, 1) && result.Printed?
    requires FixedUp(f, -60, false, 1, true) && IsResult(f, -60, false, 1, true, 1, 2, true, result)
    ensures |result.digits| == 2 && IsRoundedDecimal(f, -60, -1, result.digits, result.exp10)
  {
    SetupBelow(f, -60, false, 1);
    hide Num, Den, IsResult, FixedUp, IsFloat, Setup, IsRoundedDecimal;
    ResultRounded(f, -60, false, 1, true, 1, result);
  }

  lemma SixtyBits()
    ensures Pow(2, 60) == 1152921504606846976 && Pow(2, 3) == 8 && Pow(10, 0) == 1 && Pow(10, 1) == 10
    ensures Pow(10, 2) == 100 && Pow(2, 0) == 1
  {
    assert Pow(2, 10) == 1024;
    PowAdd(2, 10, 10);
    PowAdd(2, 20, 20);
    PowAdd(2, 40, 20);
  }

  lemma NearTenCalled()
    ensures 11493186249049505792 * 100000 == 996875 * Pow(2, 60)
    ensures IsCall(11493186249049505792, -60, 64, 1) && IsFloat(11493186249049505792, -60, false)
  {
    SixtyBits();
    SmallPowers();
    hide Pow;
    assert InFormat(11493186249049505792, -60, false, 64) && Precision(64);
  }

  lemma NearTenRounds()
    ensures var f := 11493186249049505792;
      && IsRounding(f, -60, -1, Pow(10, 2)) && !InRange(f, -60, false, 1, 1)
      && Num(f, -60, 1) < Den(-60, 1)
  {
    SixtyBits();
    hide Pow;
  }
}
