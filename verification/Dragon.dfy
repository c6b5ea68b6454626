/** fmt's Steele-White / Dragon4 digit generation on bigints. */
module Dragon {
  import opened Powers
  import opened Bigits
  import opened BigintSpec
  import opened Bigints
  import opened DragonSpec
  import opened ShortestSpec
  import opened DragonValue
  import opened DragonStorage

  /** The operands of the shortest-mode loop, as numbers. */
  ghost function Operands(numerator: Bigint, denominator: Bigint, lower: Bigint, upper: Bigint,
                          closed: bool): (g: Input)
    requires Normal(denominator.bigits)
    reads numerator, denominator, lower, upper
    ensures g.d > 0
  {
    NormalPositive(denominator);
    Input(numerator.Value(), denominator.Value(), lower.Value(), upper.Value(), closed,
          numerator.exp, denominator.exp, lower.exp)
  }

  lemma NormalPositive(b: Bigint)
    requires Normal(b.bigits)
    ensures b.Value() > 0 && Canonical(b.bigits)
  {
    ValNormal(b.bigits, b.exp);
  }

  /** With a zero stored no higher than the right side, add_compare is exact. */
  lemma AddCompareExact(a: Bigint, b: Bigint, c: Bigint)
    requires Canonical(a.bigits) && Canonical(b.bigits) && Normal(c.bigits)
    requires (a.bigits == [0] ==> a.exp <= c.exp) && (b.bigits == [0] ==> b.exp <= c.exp)
    ensures AddOrder(a.bigits, a.exp, b.bigits, b.exp, c.bigits, c.exp) == Sign(a.Value() + b.Value() - c.Value())
  {
    AddCompareIsSign(a.bigits, a.exp, b.bigits, b.exp, c.bigits, c.exp);
  }

  /** The state of the shortest-mode loop before digit i + 1, with v printed so far. */
  ghost predicate LoopState(g: Input, i: nat, v: int, numerator: Bigint, denominator: Bigint, lower: Bigint,
                            upper: Bigint)
    reads numerator, denominator, lower, upper
  {
    && Positive(g)
    && numerator != denominator && numerator != lower && numerator != upper
    && denominator != lower && denominator != upper
    && numerator.Valid() && Normal(denominator.bigits) && Normal(lower.bigits) && Normal(upper.bigits)
    && denominator.Value() == g.d && denominator.exp == g.dExp && lower.exp == g.loExp
    && (numerator.bigits == [0] ==> numerator.exp <= g.dExp)
    && lower.Value() == g.lo * Pow(10, i) && upper.Value() == g.hi * Pow(10, i)
    && Before(g, i, v, numerator.Value(), numerator.exp)
    && Room(numerator.Value(), upper.Value(), g.d, g.closed)
  }

  /** The fixed-precision loop while no digit has gone missing. */
  ghost predicate FixedState(g: Input, i: nat, v: int, numerator: Bigint, denominator: Bigint)
    reads numerator, denominator
  {
    && Positive(g) && numerator != denominator
    && numerator.Valid() && Normal(denominator.bigits)
    && denominator.Value() == g.d && denominator.exp == g.dExp
    && (numerator.bigits == [0] ==> numerator.exp <= g.dExp)
    && Before(g, i, v, numerator.Value(), numerator.exp)
    && numerator.Value() < 10 * g.d
  }

  /** The fixed-precision loop after the digit at position at went missing: a ten is about to
      be printed, or already is and nothing remains. */
  ghost predicate MissedState(g: Input, at: nat, digits: seq<int>, numerator: Bigint, denominator: Bigint)
    reads numerator, denominator
  {
    && g.d > 0 && numerator != denominator
    && numerator.Valid() && Normal(denominator.bigits)
    && denominator.Value() == g.d && denominator.exp == g.dExp
    && if |digits| == at + 1 then numerator.Value() == 10 * g.d
       else |digits| > at + 1 && digits[at + 1] == 10 && numerator.bigits == [0] && numerator.exp <= g.dExp
  }

  /** One digit of the fixed-precision loop. */
  method FixedDigit(numerator: Bigint, denominator: Bigint, ghost g: Input, ghost v: nat,
                    ghost missed: bool, ghost at: nat, ghost digits: seq<int>)
    returns (digit: nat, ghost twin: bool)
    requires if missed then MissedState(g, at, digits, numerator, denominator)
             else FixedState(g, |digits|, v, numerator, denominator)
    modifies numerator
    ensures numerator.Valid() && (numerator.bigits == [0] ==> numerator.exp <= g.dExp)
    ensures twin ==> !missed && TwinAt(g, |digits|) && v == 0 && digit == 0 && numerator.Value() == g.d
    ensures twin ==> Divided(g.n, g.d, |digits|, 0, g.d)
    ensures !missed && !twin ==> !TwinAt(g, |digits|) && digit <= 9 && numerator.Value() < g.d
    ensures !missed && !twin ==> Divided(g.n, g.d, |digits|, 10 * v + digit, numerator.Value())
    ensures !missed && !twin ==> Before(g, |digits| + 1, 10 * v + digit, 10 * numerator.Value(), numerator.exp)
    ensures missed ==> numerator.bigits == [0] && numerator.Value() == 0 && (|digits| == at + 1 ==> digit == 10)
  {
    hide Val, Shl, Pow, Before, Divided, IsDivision, TwinAt, Prefix, Rest;
    ghost var rest, exp := numerator.Value(), numerator.exp;
    NormalPositive(denominator);
    CanonicalZero(numerator.bigits, numerator.exp);
    digit := numerator.DivmodAssign(denominator);
    twin := !missed && rest == g.d && exp > g.dExp;
    CanonicalZero(numerator.bigits, numerator.exp);
    if missed {
      ExactDivision(g.d, if |digits| == at + 1 then 10 else 0, digit, numerator.Value());
    } else if twin {
      MissedDigit(g, |digits|, v, rest, exp);
    } else {
      TrueDigit(g, |digits|, v, rest, exp, digit, numerator.Value(), numerator.exp);
    }
  }

  /** Takes one digit off the numerator and decides whether to stop and whether to round it up. */
  method ShortestDigit(numerator: Bigint, denominator: Bigint, lower: Bigint, upper: Bigint,
                       ghost g: Input, closed: bool, ghost i: nat, ghost v: nat)
    returns (digit: nat, stop: bool)
    requires LoopState(g, i, v, numerator, denominator, lower, upper) && closed == g.closed
    modifies numerator
    ensures digit <= 9
    ensures stop <==> StopsAt(g, i)
    ensures stop ==> 10 * v + digit == Chosen(g, i)
    ensures numerator.Valid() && (numerator.bigits == [0] ==> numerator.exp <= g.dExp)
    ensures !stop ==> Before(g, i + 1, 10 * v + digit, 10 * numerator.Value(), numerator.exp)
    ensures !stop ==> Room(10 * numerator.Value(), 10 * upper.Value(), g.d, closed) && lower.Value() <= g.d
  {
    hide Val, Shl, Pow, Before, ReadsLow, Divided, Generated, Prefix, Rest, TwinAt, StopsAt, Chosen, RestExp,
         MissedState;
    ghost var twin, rest, exp := false, numerator.Value(), numerator.exp;
    NormalPositive(upper);
    BelowTenTimes(rest, upper.Value(), g.d, closed);
    digit, twin := FixedDigit(numerator, denominator, g, v, false, 0, Places(i));
    ghost var r := numerator.Value();
    var low, high := ReadEnds(numerator, denominator, lower, upper, closed);
    if twin {
      StopsAtTwin(g, i);
    } else {
      BeforeGenerated(g, i, v, rest, exp);
      DigitTaken(g, i, v, rest, digit, r, numerator.exp);
      StopMeans(g, i, v, digit, r, numerator.exp, low, high);
      if high { IncrementFits(rest, upper.Value(), g.d, closed, digit, r); }
    }
    stop := low || high;
    if stop { digit := LastDigit(numerator, denominator, digit, low, high); }
  }

  /** How near the remainder is read to be to the interval's ends; a lower end past the denominator is always near. */
  method ReadEnds(numerator: Bigint, denominator: Bigint, lower: Bigint, upper: Bigint, closed: bool)
    returns (low: bool, high: bool)
    requires numerator.Valid() && Normal(denominator.bigits) && Normal(lower.bigits) && Normal(upper.bigits)
    requires numerator.bigits == [0] ==> numerator.exp <= denominator.exp
    ensures low <==> ReadsLow(numerator.Value(), lower.Value(), closed, numerator.exp, lower.exp)
    ensures var reach := numerator.Value() + upper.Value();
      high <==> if closed then reach >= denominator.Value() else reach > denominator.Value()
    ensures numerator.Value() < denominator.Value() < lower.Value() ==> low
  {
    hide Val, Shl, ReadsLow;
    NormalPositive(upper);
    CanonicalZero(numerator.bigits, numerator.exp);
    var even := if closed then 1 else 0;
    OrderReadsLow(numerator.bigits, numerator.exp, lower.bigits, lower.exp, closed);
    var c := Bigint.Compare(numerator, lower);
    low := c - even < 0;
    AddCompareExact(numerator, upper, denominator);
    c := Bigint.AddCompare(numerator, upper, denominator);
    high := c + even > 0;
    if numerator.Value() < denominator.Value() < lower.Value() {
      LowEventually(numerator.Value(), lower.Value(), denominator.bigits, denominator.exp, closed, numerator.exp,
                    lower.exp);
    }
  }

  lemma BelowTenTimes(rest: int, hi: int, d: int, closed: bool)
    requires Room(rest, hi, d, closed) && hi > 0
    ensures rest < 10 * d
  {
  }

  /** Any digits of this number. */
  ghost function Places(i: nat): (digits: seq<int>)
    ensures |digits| == i
  {
    seq(i, _ => 0)
  }

  /** The digit at which the loop stops, incremented where only the upper end is near or is the nearer one. */
  method LastDigit(numerator: Bigint, denominator: Bigint, digit0: nat, low: bool, high: bool) returns (digit: nat)
    requires numerator.Valid() && Normal(denominator.bigits)
    requires numerator.bigits == [0] ==> numerator.exp <= denominator.exp
    ensures var r, d := numerator.Value(), denominator.Value();
      digit == if !low || (high && (2 * r > d || (2 * r == d && digit0 % 2 != 0))) then digit0 + 1 else digit0
  {
    hide Val, Shl;
    digit := digit0;
    if !low {
      digit := digit + 1;
    } else if high {
      AddCompareExact(numerator, numerator, denominator);
      var result := Bigint.AddCompare(numerator, numerator, denominator);
      // Round half to even.
      if result > 0 || (result == 0 && digit % 2 != 0) {
        digit := digit + 1;
      }
    }
  }

  /** The loop for the shortest representation. */
  method ShortestDigits(numerator: Bigint, denominator: Bigint, lower: Bigint, upper: Bigint, closed: bool, exp10: int)
    returns (digits: seq<int>, exp10': int)
    requires numerator != denominator && numerator != lower && numerator != upper
    requires denominator != lower && denominator != upper
    requires Normal(numerator.bigits) && Normal(denominator.bigits) && Normal(lower.bigits) && Normal(upper.bigits)
    requires Room(numerator.Value(), upper.Value(), denominator.Value(), closed)
    modifies numerator, lower, upper
    ensures |digits| > 0 && Decimal(digits) && exp10' == exp10 - (|digits| - 1)
    ensures IsShortest(old(Operands(numerator, denominator, lower, upper, closed)), digits)
       <==> !exists i: nat :: MisreadAt(old(Operands(numerator, denominator, lower, upper, closed)), i)
  {
    hide Val, Shl, Pow, Before, StopsAt, MisreadAt, Chosen, IsShortest, Room, DigitsValue;
    ghost var g := Operands(numerator, denominator, lower, upper, closed);
    NormalPositive(numerator);
    NormalPositive(denominator);
    NormalPositive(lower);
    NormalPositive(upper);
    StartBefore(g);
    DigitsOfNone();
    digits := [];
    ghost var v: nat := 0;
    while true
      invariant LoopState(g, |digits|, v, numerator, denominator, lower, upper)
      invariant v == DigitsValue(digits) && Decimal(digits)
      invariant forall j: nat :: j < |digits| ==> !StopsAt(g, j)
      decreases g.d - lower.Value()
    {
      ghost var i := |digits|;
      var digit, stop := ShortestDigit(numerator, denominator, lower, upper, g, closed, i, v);
      DigitsPush(digits, digit);
      digits := digits + [digit];
      v := 10 * v + digit;
      if stop {
        ShortestUnlessMisread(g, digits);
        return digits, exp10 - (|digits| - 1);
      }
      NormalPositive(lower);
      ScaleStep(g.lo, i);
      ScaleStep(g.hi, i);
      numerator.Multiply(10);
      lower.Multiply(10);
      if upper != lower {
        upper.Multiply(10);
      }
    }
  }

  /** Carries a ten in the last place to the left; all nines become a one with a larger exponent. */
  method PropagateCarry(digits0: seq<int>, exp10: int) returns (digits: seq<int>, exp10': int)
    requires |digits0| > 0 && digits0[|digits0| - 1] == 10 && Decimal(digits0[..|digits0| - 1])
    ensures Decimal(digits) && |digits| == |digits0| && exp10 <= exp10' <= exp10 + 1
    ensures DigitsValue(digits0) == DigitsValue(digits) * Pow(10, exp10' - exp10)
    ensures exp10' == exp10 + 1 ==> DigitsValue(digits) == Pow(10, |digits| - 1)
  {
    digits, exp10' := digits0, exp10;
    var i := |digits| - 1;
    assert forall j :: 0 <= j < i ==> digits[j] == digits0[..i][j];
    while i > 0 && digits[i] == 10
      invariant 0 <= i < |digits| == |digits0|
      invariant forall j :: 0 <= j < i ==> 0 <= digits[j] <= 9
      invariant 0 <= digits[i] <= 10
      invariant forall j :: i < j < |digits| ==> digits[j] == 0
      invariant DigitsValue(digits) == DigitsValue(digits0)
    {
      DigitsCarry(digits, i);
      digits := digits[i := 0][i - 1 := digits[i - 1] + 1];
      i := i - 1;
    }
    if digits[0] == 10 {
      TenInFront(digits);
      digits := digits[0 := 1];
      OneInFront(digits);
      exp10' := exp10 + 1;
    }
  }

  /** The loop for a given number of digits. */
  method FixedDigits(numerator: Bigint, denominator: Bigint, numDigits: nat, exp10: int)
    returns (digits: seq<int>, exp10': int)
    requires numerator != denominator && numDigits > 0
    requires Normal(numerator.bigits) && Normal(denominator.bigits)
    requires numerator.Value() < 10 * denominator.Value()
    modifies numerator
    ensures |digits| == numDigits
    ensures var g := old(Quotient(numerator.Value(), denominator.Value(), numerator.exp, denominator.exp));
      if MissesDigit(g, numDigits) then !Decimal(digits)
      else IsRounded(g.n, g.d, numDigits, digits, exp10' - (exp10 - (numDigits - 1)))
  {
    hide Val, Shl, Pow, Before, TwinAt, Divided, DigitsValue, RoundsHalfEven;
    ghost var g := Quotient(numerator.Value(), denominator.Value(), numerator.exp, denominator.exp);
    NormalPositive(numerator);
    NormalPositive(denominator);
    StartBefore(g);
    PowSmall(10);
    DigitsOfNone();
    exp10' := exp10 - (numDigits - 1);
    digits := [];
    ghost var v: nat, missed, at: nat := 0, false, 0;
    while |digits| < numDigits - 1
      invariant |digits| <= numDigits - 1
      invariant !missed ==> FixedState(g, |digits|, v, numerator, denominator)
      invariant !missed ==> v == DigitsValue(digits) && Decimal(digits)
      invariant !missed ==> forall j: nat :: j < |digits| ==> !TwinAt(g, j)
      invariant missed ==> TwinAt(g, at) && at < |digits| && MissedState(g, at, digits, numerator, denominator)
    {
      var digit, twin := FixedDigit(numerator, denominator, g, v, missed, at, digits);
      if twin {
        missed, at := true, |digits|;
      }
      DigitsPush(digits, digit);
      digits := digits + [digit];
      v := 10 * v + digit;
      CanonicalZero(numerator.bigits, numerator.exp);
      numerator.Multiply(10);
    }
    var digit, twin := FixedDigit(numerator, denominator, g, v, missed, at, digits);
    AddCompareExact(numerator, numerator, denominator);
    var result := Bigint.AddCompare(numerator, numerator, denominator);
    var up := result > 0 || (result == 0 && digit % 2 != 0);
    ghost var printed := digits + [if up then digit + 1 else digit];
    if !missed {
      assert printed[..numDigits - 1] == digits;
      RoundedLast(g, numDigits, printed, v, digit, numerator.Value(), up);
    }
    if up {
      if digit == 9 {
        digits, exp10' := PropagateCarry(digits + [10], exp10');
        return;
      }
      digit := digit + 1;
    }
    digits := digits + [digit];
    assert missed ==> digits[at + 1] == 10;
  }

  datatype DragonResult = TooBig | Printed(digits: seq<int>, exp10: int)

  /** The operands are distinct objects, except that upper may be lower, and hold what g says. */
  ghost predicate IsSetup(g: Input, numerator: Bigint, denominator: Bigint, lower: Bigint, upper: Bigint)
    reads numerator, denominator, lower, upper
  {
    && numerator != denominator && numerator != lower && numerator != upper
    && denominator != lower && denominator != upper
    && Normal(numerator.bigits) && Normal(denominator.bigits) && Normal(lower.bigits) && Normal(upper.bigits)
    && Operands(numerator, denominator, lower, upper, g.closed) == g
  }

  /** n << shift. */
  method ShiftedWord(n: Word128, shift: nat) returns (b: Bigint)
    requires n > 0
    ensures fresh(b) && Normal(b.bigits) && b.Value() == n * Pow(2, shift) && b.exp == shift / 32
  {
    b := new Bigint();
    b.Assign(n);
    b.ShiftLeft(shift);
  }

  /** 10^exponent << shift. */
  method ShiftedPow10(exponent: nat, shift: nat) returns (b: Bigint)
    requires exponent < 0x4000_0000
    ensures fresh(b) && Normal(b.bigits) && b.Value() == Pow(10, exponent) * Pow(2, shift)
    ensures b.exp == exponent / 32 + shift / 32
  {
    b := new Bigint();
    b.AssignPow10(exponent);
    b.ShiftLeft(shift);
  }

  method SetupNonnegative(f: Word128, e: nat, closer: bool, exp10: nat)
    returns (numerator: Bigint, denominator: Bigint, lower: Bigint, upper: Bigint)
    requires f > 0 && exp10 < 0x4000_0000
    ensures fresh(numerator) && fresh(denominator) && fresh(lower) && fresh(upper)
    ensures IsSetup(Setup(f, e, closer, exp10, false), numerator, denominator, lower, upper)
  {
    hide Val, Shl, Pow, Num, Den;
    BuildNonnegative(f, e, closer, exp10);
    numerator := ShiftedWord(f, e + Shift(closer));
    lower := ShiftedWord(1, e);
    upper := lower;
    if closer {
      upper := ShiftedWord(1, e + 1);
    }
    denominator := ShiftedPow10(exp10, Shift(closer));
  }

  method SetupNegative(f: Word128, e: int, closer: bool, exp10: int)
    returns (numerator: Bigint, denominator: Bigint, lower: Bigint, upper: Bigint)
    requires f > 0 && e < 0 && -0x4000_0000 < exp10 < 0
    ensures fresh(numerator) && fresh(denominator) && fresh(lower) && fresh(upper)
    ensures IsSetup(Setup(f, e, closer, exp10, false), numerator, denominator, lower, upper)
  {
    hide Val, Shl, Pow, Num, Den;
    BuildNegative(f, e, closer, exp10);
    ZeroShift(Pow(10, -exp10));
    numerator := ShiftedPow10(-exp10, 0);
    lower := new Bigint();
    lower.AssignBigint(numerator);
    upper := lower;
    if closer {
      upper := new Bigint();
      upper.AssignBigint(numerator);
      upper.ShiftLeft(1);
    }
    numerator.MultiplyWide(f, 64);
    numerator.ShiftLeft(Shift(closer));
    denominator := ShiftedWord(1, Shift(closer) - e);
  }

  method SetupMixed(f: Word128, e: int, closer: bool, exp10: nat)
    returns (numerator: Bigint, denominator: Bigint, lower: Bigint, upper: Bigint)
    requires f > 0 && e < 0 && exp10 < 0x4000_0000
    ensures fresh(numerator) && fresh(denominator) && fresh(lower) && fresh(upper)
    ensures IsSetup(Setup(f, e, closer, exp10, false), numerator, denominator, lower, upper)
  {
    hide Val, Shl, Pow, Num, Den;
    BuildMixed(f, e, closer, exp10);
    ZeroShift(1);
    ZeroShift(2);
    numerator := ShiftedWord(f, Shift(closer));
    denominator := ShiftedPow10(exp10, Shift(closer) - e);
    lower := ShiftedWord(1, 0);
    upper := lower;
    if closer {
      upper := ShiftedWord(2, 0);
    }
  }

  /** The digits finally asked for: fixed notation counts from the decimal point. */
  function FinalDigits(numDigits: int, fixup: bool, fixed: bool, top: int): int {
    if fixup && fixed then numDigits + top + 1 else numDigits
  }

  /** The fixup of the decimal exponent, of the operands and of the digit count. */
  ghost function FixedUp(f: nat, e: int, closer: bool, exp10: int, fixup: bool): bool {
    fixup && NeedsFixup(Setup(f, e, closer, exp10, false))
  }

  /** The operands after the fixup: all multiplied by ten, the interval's ends only if they are needed. */
  function AfterFixup(g: Input, ends: bool): Input {
    if !NeedsFixup(g) then g
    else if ends then g.(n := 10 * g.n, lo := 10 * g.lo, hi := 10 * g.hi)
    else g.(n := 10 * g.n)
  }

  /** Corrects the decimal exponent if the estimate was one too high. */
  method Fixup(numerator: Bigint, denominator: Bigint, lower: Bigint, upper: Bigint, closed: bool, ends: bool,
               exp10: int, ghost g: Input)
    returns (exp10': int)
    requires IsSetup(g, numerator, denominator, lower, upper) && closed == g.closed
    modifies numerator, lower, upper
    ensures exp10' == Top(exp10, NeedsFixup(g))
    ensures IsSetup(AfterFixup(g, ends), numerator, denominator, lower, upper)
  {
    hide Val, Shl;
    NormalPositive(numerator);
    NormalPositive(upper);
    exp10' := exp10;
    AddCompareExact(numerator, upper, denominator);
    var c := Bigint.AddCompare(numerator, upper, denominator);
    if c + (if closed then 1 else 0) <= 0 {
      exp10' := exp10' - 1;
      numerator.Multiply(10);
      if ends {
        lower.Multiply(10);
        if upper != lower {
          upper.Multiply(10);
        }
      }
    }
  }

  /** The digits of the operands g: the shortest for a negative count, one for none. */
  method Generate(numerator: Bigint, denominator: Bigint, lower: Bigint, upper: Bigint, closed: bool, k: int,
                  exp10: int, ghost g: Input)
    returns (digits: seq<int>, exp10': int)
    requires IsSetup(g, numerator, denominator, lower, upper) && closed == g.closed
    requires if k < 0 then Room(g.n, g.hi, g.d, closed) else g.n < 10 * g.d
    modifies numerator, denominator, lower, upper
    ensures g.d > 0
    ensures k < 0 ==> |digits| > 0 && Decimal(digits) && exp10' == exp10 - (|digits| - 1)
    ensures k < 0 ==> (IsShortest(g, digits) <==> !exists i: nat :: MisreadAt(g, i))
    ensures k == 0 ==> digits == [if 2 * g.n > 10 * g.d then 1 else 0] && exp10' == exp10 + 1
    ensures k > 0 ==> |digits| == k
    ensures k > 0 ==> if MissesDigit(g, k) then !Decimal(digits)
                      else IsRounded(g.n, g.d, k, digits, exp10' - (exp10 - (k - 1)))
  {
    hide Val, Shl, Pow, MisreadAt, IsShortest, IsRounded, MissesDigit;
    NormalPositive(numerator);
    NormalPositive(denominator);
    if k < 0 {
      digits, exp10' := ShortestDigits(numerator, denominator, lower, upper, closed, exp10);
    } else if k == 0 {
      exp10' := exp10 + 1;
      denominator.Multiply(10);
      AddCompareExact(numerator, numerator, denominator);
      var c := Bigint.AddCompare(numerator, numerator, denominator);
      digits := [if c > 0 then 1 else 0];
    } else {
      SameTwins(g, k);
      digits, exp10' := FixedDigits(numerator, denominator, k, exp10);
    }
  }

  /** Prints f * 2^e, given an exponent with f * 2^e < 10^(exp10 + 1). A negative digit count asks
      for the shortest representation. */
  method FormatDragon(f: Word128, e: int, closer: bool, fixup: bool, fixed: bool, numDigits: int, exp10: int)
    returns (result: DragonResult)
    requires f > 0 && -0x4000_0000 < exp10 < 0x4000_0000
    requires e >= 0 ==> exp10 >= 0
    requires Setup(f, e, closer, exp10, false).n < 10 * Setup(f, e, closer, exp10, false).d
    requires FinalDigits(numDigits, fixup, fixed, Top(exp10, FixedUp(f, e, closer, exp10, fixup))) >= 0
          || Roomy(Setup(f, e, closer, exp10, false))
    ensures var fixedUp := FixedUp(f, e, closer, exp10, fixup);
      IsResult(f, e, closer, exp10, fixedUp, numDigits, FinalDigits(numDigits, fixup, fixed, Top(exp10, fixedUp)),
               fixup && fixed, result)
  {
    hide Val, Shl, Pow, Num, Den, IsResult, MisreadAt, MissesDigit, IsShortest, IsRounded, Room, Roomy, Setup,
         AfterFixup;
    var numerator, denominator, lower, upper;
    if e >= 0 {
      numerator, denominator, lower, upper := SetupNonnegative(f, e, closer, exp10);
    } else if exp10 < 0 {
      numerator, denominator, lower, upper := SetupNegative(f, e, closer, exp10);
    } else {
      numerator, denominator, lower, upper := SetupMixed(f, e, closer, exp10);
    }
    var closed := f % 2 == 0;
    var x, k := exp10, numDigits;
    ghost var g := Setup(f, e, closer, exp10, false);
    SetupPositive(f, e, closer, exp10, false);
    if fixup {
      x := Fixup(numerator, denominator, lower, upper, closed, k < 0, x, g);
      g := AfterFixup(g, k < 0);
      if fixed {
        if x + 1 > 0 && k > INT_MAX - (x + 1) {
          ResultTooBig(f, e, closer, exp10, fixup, numDigits);
          return TooBig;
        }
        k := k + x + 1;
      }
    }
    GenerateReady(Setup(f, e, closer, exp10, false), numDigits < 0, fixup, k);
    var digits, x' := Generate(numerator, denominator, lower, upper, closed, k, x, g);
    ResultPrinted(f, e, closer, exp10, fixup, fixed, numDigits, g, k, digits, x');
    return Printed(digits, x');
  }

  // ----- what a caller can rely on -----

  predicate Roomy(g: Input) {
    Room(g.n, g.hi, g.d, g.closed)
  }

  /**
   * The outcome for k final digits, counted from the first digit's place: shortest if the count was
   * negative from the start, rounded to one digit above that place for none, rounded to k digits
   * otherwise; each of these unless the stored exponents of the operands mislead the digit loop. A count
   * that has become negative ends in digits nobody asked for.
   */
  ghost predicate IsResult(f: nat, e: int, closer: bool, exp10: int, fixedUp: bool, numDigits: int, k: int,
                           adjusted: bool,
                           result: DragonResult)
  {
    var g, top := Setup(f, e, closer, exp10, fixedUp), Top(exp10, fixedUp);
    match result
    case TooBig => adjusted && top + 1 > 0 && k > INT_MAX
    case Printed(digits, x) =>
      g.d > 0
      && (numDigits < 0 && k < 0 ==>
            Decimal(digits)
            && (IsShortestDecimal(f, e, closer, top, digits, x) <==> !exists i: nat :: MisreadAt(g, i)))
      && (numDigits >= 0 && k < 0 ==> IsUnrounded(f, e, closer, exp10, fixedUp, k, digits, x))
      && (k == 0 ==> |digits| == 1 && IsRoundedDecimal(f, e, top + 1, digits, x))
      && (k > 0 ==>
            |digits| == k
            && if MissesDigit(g, k) then !Decimal(digits) else IsRoundedDecimal(f, e, top - (k - 1), digits, x))
  }

  /**
   * Where no place is left to round to, the value rounds to zero, but what is printed is not zero: it is
   * the shortest decimal of an interval whose ends, after a fixup, are ten times too near.
   */
  ghost predicate IsUnrounded(f: nat, e: int, closer: bool, exp10: int, fixedUp: bool, k: int, digits: seq<int>,
                              x: int) {
    var g, top := Narrowed(f, e, closer, exp10, fixedUp), Top(exp10, fixedUp);
    && IsRounding(f, e, top - (k - 1), 0)
    && |digits| > 0 && Decimal(digits) && x == top - (|digits| - 1) && DigitsValue(digits) > 0
    && g.d > 0 && IsShortest(g, digits)
  }

  /** The operands after a fixup that leaves the interval's ends alone. */
  function Narrowed(f: nat, e: int, closer: bool, exp10: int, fixedUp: bool): Input {
    var g := Setup(f, e, closer, exp10, false);
    if fixedUp then g.(n := 10 * g.n) else g
  }

  lemma ResultTooBig(f: nat, e: int, closer: bool, exp10: int, fixup: bool, numDigits: int)
    requires var top := Top(exp10, FixedUp(f, e, closer, exp10, fixup));
      fixup && top + 1 > 0 && numDigits > INT_MAX - (top + 1)
    ensures var fixedUp := FixedUp(f, e, closer, exp10, fixup);
      IsResult(f, e, closer, exp10, fixedUp, numDigits, FinalDigits(numDigits, fixup, true, Top(exp10, fixedUp)), true,
               TooBig)
  {
  }

  lemma ResultPrinted(f: nat, e: int, closer: bool, exp10: int, fixup: bool, fixed: bool, numDigits: int,
                      g: Input, k: int, digits: seq<int>, x: int)
    requires f > 0 && (e >= 0 ==> exp10 >= 0)
    requires Setup(f, e, closer, exp10, false).n < 10 * Setup(f, e, closer, exp10, false).d
    requires g == if fixup then AfterFixup(Setup(f, e, closer, exp10, false), numDigits < 0)
                  else Setup(f, e, closer, exp10, false)
    requires var top := Top(exp10, FixedUp(f, e, closer, exp10, fixup));
      && k == FinalDigits(numDigits, fixup, fixed, top)
      && g.d > 0
      && (k < 0 ==> |digits| > 0 && Decimal(digits) && x == top - (|digits| - 1))
      && (k < 0 ==> (IsShortest(g, digits) <==> !exists i: nat :: MisreadAt(g, i)))
      && (k == 0 ==> digits == [if 2 * g.n > 10 * g.d then 1 else 0] && x == top + 1 && g.n < 10 * g.d)
      && (k > 0 ==> |digits| == k)
      && (k > 0 ==> if MissesDigit(g, k) then !Decimal(digits)
                    else IsRounded(g.n, g.d, k, digits, x - (top - (k - 1))))
    ensures var fixedUp := FixedUp(f, e, closer, exp10, fixup);
      IsResult(f, e, closer, exp10, fixedUp, numDigits, k, fixup && fixed, Printed(digits, x))
  {
    hide Num, Den, Pow, MisreadAt, TwinAt, IsShortestDecimal, IsRoundedDecimal, IsShortest, IsRounded, Decimal,
         IsUnrounded;
    var fixedUp := FixedUp(f, e, closer, exp10, fixup);
    var g', top := Setup(f, e, closer, exp10, fixedUp), Top(exp10, fixedUp);
    if k < 0 {
      if numDigits < 0 {
        ShortestTransfers(f, e, closer, exp10, fixedUp, digits);
      } else {
        Unrounded(f, e, closer, exp10, fixedUp, k, digits);
      }
    } else if k == 0 {
      OneDigit(f, e, closer, exp10, fixedUp, digits);
    } else {
      SameTwins(g, k);
      SameTwins(g', k);
      RoundedTransfers(f, e, closer, exp10, fixedUp, k, digits, x - (top - (k - 1)));
    }
  }

  /** A count that has become negative: the value is too small to be seen, and the loop reads nothing wrong. */
  lemma Unrounded(f: nat, e: int, closer: bool, exp10: int, fixedUp: bool, k: int, digits: seq<int>)
    requires f > 0 && e < 0 && k < 0 && |digits| > 0 && Decimal(digits)
    requires Setup(f, e, closer, exp10, false).n < 10 * Setup(f, e, closer, exp10, false).d
    requires fixedUp ==> NeedsFixup(Setup(f, e, closer, exp10, false))
    requires Narrowed(f, e, closer, exp10, fixedUp).d > 0
    requires IsShortest(Narrowed(f, e, closer, exp10, fixedUp), digits)
        <==> !exists i: nat :: MisreadAt(Narrowed(f, e, closer, exp10, fixedUp), i)
    ensures IsUnrounded(f, e, closer, exp10, fixedUp, k, digits, Top(exp10, fixedUp) - (|digits| - 1))
  {
    NarrowedStored(f, e, closer, exp10, fixedUp);
    RoundsToZero(f, e, closer, exp10, fixedUp, k);
    hide Narrowed, Setup, MisreadAt, TwinAt, Pow, Shl, NeedsFixup;
    var g := Narrowed(f, e, closer, exp10, fixedUp);
    NeverMisread(g);
    NotZero(g, |digits| - 1, DigitsValue(digits));
  }

  lemma NarrowedStored(f: nat, e: int, closer: bool, exp10: int, fixedUp: bool)
    requires f > 0 && e < 0
    requires Setup(f, e, closer, exp10, false).n < 10 * Setup(f, e, closer, exp10, false).d
    ensures var g := Narrowed(f, e, closer, exp10, fixedUp);
      Positive(g) && g.nExp == g.loExp <= g.dExp && g.lo >= Shl(1, g.loExp) && g.lo < g.n
  {
    SetupPositive(f, e, closer, exp10, false);
    NegativeStored(f, e, closer, exp10);
    LowerBelow(f, e, closer, exp10);
    hide Num, Den, Pow, Shl, NumExp, DenExp, LowExp;
  }

  /** The value is at least twice its distance to the lower end. */
  lemma LowerBelow(f: nat, e: int, closer: bool, exp10: int)
    requires f > 0
    ensures Setup(f, e, closer, exp10, false).lo < Setup(f, e, closer, exp10, false).n
  {
    NumPositive(1, e, exp10);
    var a, b, h := Pow(2, Pos(e)), Pow(10, Pos(-exp10)), Halves(closer);
    MulAssoc(f, a, b);
    hide Pow;
    MulLe(1, f, a * b);
    MulLe(2, h, f * (a * b));
  }

  lemma NotZero(g: Input, i: nat, q: int)
    requires Positive(g) && g.lo < g.n && Admissible(g, i, q)
    ensures q > 0
  {
    PowPositive(10, i);
    MulLt(g.lo, g.n, Pow(10, i));
    if q <= 0 { MulLe(q, 0, g.d); }
  }

  /** Two places above its first digit a value rounds to zero. */
  lemma RoundsToZero(f: nat, e: int, closer: bool, exp10: int, fixedUp: bool, k: int)
    requires k < 0 && Setup(f, e, closer, exp10, false).n < 10 * Setup(f, e, closer, exp10, false).d
    requires fixedUp ==> NeedsFixup(Setup(f, e, closer, exp10, false))
    ensures IsRounding(f, e, Top(exp10, fixedUp) - (k - 1), 0)
  {
    var g, top := Setup(f, e, closer, exp10, fixedUp), Top(exp10, fixedUp);
    var u := top - (k - 1);
    assert g.n < 10 * g.d by { hide Num, Den; }
    SameRatio(f, e, closer, exp10, fixedUp, 0);
    PlacesDown(f, e, u, 1 - k);
    DenPositive(e, top);
    DenPositive(e, u);
    PowMonotone(10, 2, 1 - k);
    assert Pow(10, 2) == 100 && Pow(10, 0) == 1;
    hide Num, Den, Pow, Setup, Top;
    BelowTen(g.n, g.d, Num(f, e, top), Den(e, top));
    Vanishes(Num(f, e, u), Den(e, u), Num(f, e, top), Den(e, top), Pow(10, 1 - k));
  }

  lemma BelowTen(n: int, d: int, n': int, d': int)
    requires n * 1 * d' == n' * d && n < 10 * d && d' > 0 && d >= 0
    ensures n' < 10 * d'
  {
    MulLt(n, 10 * d, d');
    assert 10 * d * d' == (10 * d') * d;
    if n' >= 10 * d' { MulLe(10 * d', n', d); }
  }

  lemma Vanishes(n: int, d: int, n': int, d': int, p: int)
    requires n * p * d' == n' * d && n' < 10 * d' && d > 0 && d' > 0 && p >= 100 && n >= 0
    ensures RoundsHalfEven(n, d, 0)
  {
    MulLt(n', 10 * d', d);
    assert 10 * d' * d == (10 * d) * d';
    if n * p >= 10 * d { MulLe(10 * d, n * p, d'); }
    MulLe(100, p, n);
    assert n * p == p * n;
  }

  lemma GenerateReady(g: Input, ends: bool, fixup: bool, k: int)
    requires Positive(g) && g.n < 10 * g.d && (k < 0 ==> Roomy(g))
    ensures var g' := if fixup then AfterFixup(g, ends) else g;
      && g'.closed == g.closed
      && if k < 0 then Room(g'.n, g'.hi, g'.d, g'.closed) else g'.n < 10 * g'.d
  {
  }

  lemma ZeroShift(n: nat)
    ensures n * Pow(2, 0) == n
  {
  }
}
