/** When the exponents that the operands of format_dragon are stored with mislead it. */
module DragonStorage {
  import opened Powers
  import opened Bigits
  import opened BigintSpec
  import opened DragonSpec
  import opened ShortestSpec
  import opened DragonValue

  // ----- negative binary exponents -----

  /** Remainder and lower distance are always stored with the same exponent. */
  lemma NeverMisread(g: Input)
    requires Positive(g) && g.nExp == g.loExp <= g.dExp && g.lo >= Shl(1, g.loExp)
    ensures forall i: nat :: !MisreadAt(g, i) && !TwinAt(g, i)
  {
    forall i: nat ensures !MisreadAt(g, i) && !TwinAt(g, i) {
      PowPositive(10, i);
      MulLe(1, Pow(10, i), g.lo);
    }
  }

  lemma {:induction false} TwoBelowTen(m: nat)
    ensures Pow(2, m) <= Pow(10, m)
  {
    if m > 0 { TwoBelowTen(m - 1); }
  }

  /** BASE^(m / 32) is at most 2^m. */
  lemma WordsInBits(m: nat)
    ensures Shl(1, m / 32) <= Pow(2, m)
  {
    ShlOne(m / 32);
    WordIsPower();
    PowPow(2, 32, m / 32);
    PowMonotone(2, 32 * (m / 32), m);
  }

  /** A value of negative decimal exponent has a binary exponent at least as far below zero. */
  lemma DecimalWithinBinary(f: nat, e: int, closer: bool, x: int)
    requires f > 0 && e < 0 && x < 0
    requires Setup(f, e, closer, x, false).n < 10 * Setup(f, e, closer, x, false).d
    ensures -x <= -e
  {
    var m := -x;
    if -e < m {
      HalvesIsPower(closer);
      PowMonotone(2, -e, m - 1);
      TwoBelowTen(m - 1);
      TooLarge(Halves(closer), f, Pow(10, m), Pow(2, -e));
    }
  }

  lemma TooLarge(h: nat, f: nat, p: nat, q: nat)
    requires h > 0 && f > 0 && p >= 10 * q
    ensures h * (f * 1 * p) >= 10 * (h * (q * 1))
  {
    MulLe(1, f, p);
    MulLe(10 * q, f * p, h);
  }

  /** For a negative binary exponent numerator and lower are stored alike, and lower fills its exponent. */
  lemma NegativeStored(f: nat, e: int, closer: bool, x: int)
    requires f > 0 && e < 0
    requires Setup(f, e, closer, x, false).n < 10 * Setup(f, e, closer, x, false).d
    ensures NumExp(e, x, closer) == LowExp(e, x) <= DenExp(e, x, closer)
    ensures Num(1, e, x) >= Shl(1, LowExp(e, x))
  {
    if x < 0 {
      DecimalWithinBinary(f, e, closer, x);
      WordsInBits(-x);
      TwoBelowTen(-x);
      NothingShifted(e);
    } else {
      ShlIdentity(1);
    }
  }

  lemma NothingShifted(e: int)
    requires e < 0
    ensures forall x: int {:trigger Num(1, e, x)} :: Num(1, e, x) == Pow(10, Pos(-x))
  {
    assert Pow(2, 0) == 1;
  }

  lemma NegativeIsSafe(f: nat, e: int, closer: bool, x: int, fixedUp: bool)
    requires f > 0 && e < 0
    requires Setup(f, e, closer, x, false).n < 10 * Setup(f, e, closer, x, false).d
    ensures var g := Setup(f, e, closer, x, fixedUp); forall i: nat :: !MisreadAt(g, i) && !TwinAt(g, i)
  {
    NegativeStored(f, e, closer, x);
    SetupPositive(f, e, closer, x, fixedUp);
    hide Num, Den, Pow, Shl, NumExp, DenExp, LowExp;
    NeverMisread(Setup(f, e, closer, x, fixedUp));
  }

  // ----- equal operands -----

  lemma {:induction false} FiveIsOdd(n: nat)
    ensures Pow(5, n) % 2 == 1
  {
    if n > 0 { FiveIsOdd(n - 1); }
  }

  lemma TenSplits(n: nat)
    ensures Pow(10, n) == Pow(5, n) * Pow(2, n)
  {
    PowBase(5, 2, n);
  }

  /** f * 2^e is a power of ten only with all its fives in f. */
  lemma PowerOfTen(f: nat, e: nat, y: nat)
    ensures f * Pow(2, e) == Pow(10, y) <==> y >= e && f == Pow(5, y) * Pow(2, y - e)
  {
    TenSplits(y);
    PowPositive(2, e);
    PowPositive(2, y);
    FiveIsOdd(y);
    if y < e {
      PowAdd(2, e - y, y);
      MulAssoc(f, Pow(2, e - y), Pow(2, y));
      if f * Pow(2, e) == Pow(10, y) {
        MulCancel(f * Pow(2, e - y), Pow(5, y), Pow(2, y));
        EvenPower(f, e - y);
      }
    } else {
      PowAdd(2, y - e, e);
      MulAssoc(Pow(5, y), Pow(2, y - e), Pow(2, e));
      if f * Pow(2, e) == Pow(10, y) {
        MulCancel(f, Pow(5, y) * Pow(2, y - e), Pow(2, e));
      }
    }
  }

  lemma EvenPower(f: nat, n: nat)
    requires n > 0
    ensures (f * Pow(2, n)) % 2 == 0
  {
    assert f * (2 * Pow(2, n - 1)) == 2 * (f * Pow(2, n - 1));
  }

  /** The digit at place y goes missing: the value is 10^y, and its numerator is stored higher than the denominator. */
  predicate TwinPlace(f: nat, e: int, closer: bool, x: int, y: int) {
    0 <= e <= y && f == Pow(5, y) * Pow(2, y - e) && (e + Shift(closer)) / 32 > x / 32
  }

  lemma TwinExactly(f: nat, e: int, closer: bool, x: int, fixedUp: bool, i: nat)
    requires e >= 0 && x >= 0
    ensures TwinAt(Setup(f, e, closer, x, fixedUp), i) <==> TwinPlace(f, e, closer, x, Top(x, fixedUp) - i)
  {
    var g, y := Setup(f, e, closer, x, fixedUp), Top(x, fixedUp) - i;
    EqualOperands(f, e, closer, x, fixedUp, i);
    ValueIsPower(f, e, y);
    hide Num, Den, Pow, TwinAt;
    assert TwinAt(g, i) <==> g.n * Pow(10, i) == g.d && g.nExp > g.dExp by { TwinMeans(g, i); }
  }

  lemma TwinMeans(g: Input, i: nat)
    ensures TwinAt(g, i) <==> g.n * Pow(10, i) == g.d && g.nExp > g.dExp
  {
  }

  lemma EqualOperands(f: nat, e: int, closer: bool, x: int, fixedUp: bool, i: nat)
    ensures var g, y := Setup(f, e, closer, x, fixedUp), Top(x, fixedUp) - i;
      g.n * Pow(10, i) == g.d <==> Num(f, e, y) == Den(e, y)
  {
    var g, y := Setup(f, e, closer, x, fixedUp), Top(x, fixedUp) - i;
    SameRatio(f, e, closer, x, fixedUp, i);
    DenPositive(e, x);
    DenPositive(e, y);
    hide Num, Den, Pow;
    CrossEqual(g.n * Pow(10, i), Den(e, y), Num(f, e, y), g.d);
  }

  lemma CrossEqual(a: int, b: int, c: int, d: int)
    requires a * b == c * d && b > 0 && d > 0
    ensures a == d <==> c == b
  {
    if a == d { MulCancel(c, b, d); }
    if c == b { MulCancel(a, d, b); }
  }

  lemma ValueIsPower(f: nat, e: nat, y: int)
    ensures Num(f, e, y) == Den(e, y) <==> y >= e && f == Pow(5, y) * Pow(2, y - e)
  {
    assert Pow(2, 0) == 1 && Pow(10, 0) == 1;
    if y >= 0 {
      PowerOfTen(f, e, y);
    } else {
      PowPositive(10, -y - 1);
      assert Pow(10, -y) == 10 * Pow(10, -y - 1);
      if f * Pow(2, e) >= 1 { MulLe(1, f * Pow(2, e), Pow(10, -y)); }
    }
  }

  /** Among 128-bit significands there are three for which a digit can go missing. */
  lemma TwinIsRare(f: Word128, e: int, closer: bool, x: int, y: int)
    requires y <= x && TwinPlace(f, e, closer, x, y)
    ensures 30 <= e <= y <= 31 && (f == Pow(5, 30) || f == Pow(5, 31) || f == 2 * Pow(5, 31))
    ensures e == 30 ==> closer
  {
    if y >= 62 { WideFives(f, e, y); }
    NoneAndOne();
    hide Pow;
    TwinWords(e, Shift(closer), x, y);
  }

  lemma NoneAndOne()
    ensures Pow(2, 0) == 1 && Pow(2, 1) == 2 && Pow(10, 0) == 1 && Pow(10, 1) == 10
  {
  }

  lemma TwinWords(e: nat, shift: nat, x: nat, y: nat)
    requires e <= y <= x && y < 62 && 1 <= shift <= 2 && (e + shift) / 32 > x / 32
    ensures 30 <= e <= y <= 31 && (e == 30 ==> shift == 2)
  {
  }

  lemma WideFives(f: nat, e: nat, y: nat)
    requires e <= y && f == Pow(5, y) * Pow(2, y - e) && y >= 62
    ensures f >= Pow(2, 128)
    ensures f >= 0x1_0000_0000_0000_0000_0000_0000_0000_0000
  {
    hide Pow;
    SmallPowers();
    PowMonotone(5, 62, y);
    PowPositive(2, y - e);
    AtLeast(Pow(5, y), Pow(2, y - e));
  }

  lemma AtLeast(p: nat, q: nat)
    requires q > 0
    ensures p * q >= p
  {
    MulLe(1, q, p);
  }

  lemma SmallPowers()
    ensures Pow(2, 24) == 0x100_0000 && Pow(2, 53) == 0x20_0000_0000_0000 && Pow(2, 64) == 0x1_0000_0000_0000_0000
    ensures Pow(2, 112) == 0x1_0000_0000_0000_0000_0000_0000_0000 && Pow(2, 113) == 2 * Pow(2, 112)
    ensures Pow(2, 128) == 0x1_0000_0000_0000_0000_0000_0000_0000_0000
    ensures Pow(5, 30) == 931322574615478515625 && Pow(5, 31) == 5 * Pow(5, 30) && Pow(5, 32) == 25 * Pow(5, 30)
    ensures Pow(5, 62) > Pow(2, 128)
  {
    assert Pow(2, 8) == 256 && Pow(2, 5) == 32;
    PowAdd(2, 8, 8);
    PowAdd(2, 16, 8);
    PowAdd(2, 24, 24);
    PowAdd(2, 48, 5);
    PowAdd(2, 48, 16);
    PowAdd(2, 64, 48);
    PowAdd(2, 64, 64);
    assert Pow(5, 6) == 15625;
    PowAdd(5, 6, 6);
    PowAdd(5, 12, 12);
    PowAdd(5, 24, 6);
    PowAdd(5, 31, 31);
  }

  // ----- the significands of the floating-point formats -----

  /** The precisions of the formats: single, double, extended and quadruple. */
  predicate Precision(bits: nat) { bits == 24 || bits == 53 || bits == 64 || bits == 113 }

  /** A value as taken apart from such a format: normalised unless its exponent is negative, and with
      a closer predecessor only if it is a power of two. */
  ghost predicate IsFloat(f: nat, e: int, closer: bool) {
    exists bits :: Precision(bits) && InFormat(f, e, closer, bits)
  }

  predicate InFormat(f: nat, e: int, closer: bool, bits: nat) {
    0 < f < Pow(2, bits) && (e >= 0 ==> f >= Pow(2, bits) / 2) && (closer ==> f == Pow(2, bits) / 2)
  }

  /** No such significand has a power of five of the size that a missing digit needs. */
  lemma FloatNeverTwin(f: nat, e: int, closer: bool, x: int, y: int)
    requires IsFloat(f, e, closer) && y <= x
    ensures f < 0x1_0000_0000_0000_0000_0000_0000_0000_0000
    ensures !TwinPlace(f, e, closer, x, y)
  {
    var bits :| Precision(bits) && InFormat(f, e, closer, bits);
    SmallPowers();
    assert Pow(2, 113) == 0x2_0000_0000_0000_0000_0000_0000_0000;
    hide Pow;
    if TwinPlace(f, e, closer, x, y) {
      TwinIsRare(f, e, closer, x, y);
    }
  }

  // ----- the interval's lower end -----

  /** The lower midpoint is q * 10^y, and nearer to the value than 10^y. */
  predicate MidpointAt(f: nat, e: int, closer: bool, y: int, q: int) {
    && Halves(closer) * Num(f, e, y) - Num(1, e, y) == q * (Halves(closer) * Den(e, y))
    && Num(1, e, y) < Halves(closer) * Den(e, y)
  }

  /** The remainder and the lower distance, equal to it, are stored with exponents that contradict whether
      the midpoint belongs to the interval. */
  predicate MidpointMisread(even: bool, e: nat, closer: bool, x: nat, q: int) {
    if even then q > 0 && x / 32 < e / 32
    else e / 32 < (e + Shift(closer)) / 32 && (q == 0 || e / 32 < x / 32)
  }

  /** The lower midpoint is a decimal with no more digits than the interval needs, is not the farther of two,
      and is misread. */
  ghost predicate MidpointMisleads(f: nat, e: int, closer: bool, x: int, fixedUp: bool) {
    e >= 0 && x >= 0 && exists y, q :: MisleadsAt(f, e, closer, x, Top(x, fixedUp), y, q)
  }

  ghost predicate MisleadsAt(f: nat, e: nat, closer: bool, x: nat, top: int, y: int, q: int) {
    && y <= top && MidpointAt(f, e, closer, y, q) && MidpointMisread(f % 2 == 0, e, closer, x, q)
    && (forall z, p :: y < z <= top ==> !InRange(f, e, closer, z, p))
    && !(InRange(f, e, closer, y, q + 1) && IsRounding(f, e, y, q + 1))
  }

  /** The loop's remainder is the lower distance exactly at the lower midpoint. */
  lemma RemainderAtMidpoint(f: nat, e: int, closer: bool, x: int, fixedUp: bool, i: nat, q: int)
    requires Setup(f, e, closer, x, fixedUp).d > 0
    ensures var g := Setup(f, e, closer, x, fixedUp);
      Prefix(g, i) == q && Rest(g, i) == g.lo * Pow(10, i)
      <==> MidpointAt(f, e, closer, Top(x, fixedUp) - i, q)
  {
    var g, y, h := Setup(f, e, closer, x, fixedUp), Top(x, fixedUp) - i, Halves(closer);
    DenPositive(e, y);
    DenPositive(e, x);
    NumPositive(1, e, x);
    Proportion(h, f, e, x, fixedUp, i);
    Proportion(1, 1, e, x, fixedUp, i);
    LowerPositive(f, e, closer, x, fixedUp, i);
    hide Num, Den, Pow, Top;
    Swapped(Den(e, y), h, Den(e, x));
    Swapped(Den(e, x), h, Den(e, y));
    AtRemainder(g.n * Pow(10, i), g.d, g.lo * Pow(10, i), h * Num(f, e, y), h * Den(e, y), Num(1, e, y),
                Den(e, y), Den(e, x), q);
  }

  lemma LowerPositive(f: nat, e: int, closer: bool, x: int, fixedUp: bool, i: nat)
    ensures Setup(f, e, closer, x, fixedUp).lo * Pow(10, i) > 0
  {
    NumPositive(1, e, x);
    ScaledPositive(Setup(f, e, closer, x, fixedUp).lo, i);
  }

  lemma DivisionIs(n: int, d: int, l: int, q: int)
    requires d > 0 && l > 0
    ensures n / d == q && n % d == l <==> n == q * d + l && l < d
  {
    assert n == n / d * d + n % d;
    if n == q * d + l && l < d { DivModUnique(n, d, q, l); }
  }

  lemma SameDivision(d: int, l: int, d': int, l': int, a: int, b: int, q: int)
    requires a * d == b * d' && a * l == b * l'
    ensures a * (q * d + l) == b * (q * d' + l')
  {
    calc {
      a * (q * d + l);
      q * (a * d) + a * l;
      b * (q * d' + l');
    }
  }

  lemma AtRemainder(n: int, d: int, l: int, n': int, d': int, l': int, a: int, b: int, q: int)
    requires a > 0 && b > 0 && d > 0 && l > 0 && a * n == b * n' && a * d == b * d' && a * l == b * l'
    ensures n / d == q && n % d == l <==> n' - l' == q * d' && l' < d'
  {
    DivisionIs(n, d, l, q);
    SameDivision(d, l, d', l', a, b, q);
    CompareScaled(a, l, d);
    CompareScaled(b, l', d');
    if n == q * d + l { MulCancel(n', q * d' + l', b); }
    if n' == q * d' + l' { MulCancel(n, q * d + l, a); }
  }

  /** The upper neighbour is chosen when it reads back and is the nearer one. */
  lemma UpperChosen(f: nat, e: int, closer: bool, x: int, fixedUp: bool, i: nat)
    requires f > 0 && Setup(f, e, closer, x, fixedUp).d > 0
    ensures var g, y := Setup(f, e, closer, x, fixedUp), Top(x, fixedUp) - i;
      var q := Prefix(g, i) + 1;
      High(g, i) && Up(g, i) <==> InRange(f, e, closer, y, q) && IsRounding(f, e, y, q)
  {
    var g, y := Setup(f, e, closer, x, fixedUp), Top(x, fixedUp) - i;
    var n, p, r := g.n * Pow(10, i), Prefix(g, i), Rest(g, i);
    SetupPositive(f, e, closer, x, fixedUp);
    ScaledPositive(g.lo, i);
    ScaledPositive(g.hi, i);
    PrefixDivides(g, i);
    DenPositive(e, y);
    SameRatio(f, e, closer, x, fixedUp, i);
    AdmissibleInRange(f, e, closer, x, fixedUp, i, p + 1);
    hide Setup, Num, Den, Pow, InRange, Top;
    PrefixEnds(n, g.d, p, r, g.lo * Pow(10, i), g.hi * Pow(10, i), g.closed);
    NearerNeighbour(n, g.d, p, r);
    RoundsOneWay(n, g.d, p);
    RoundsRatio(n, g.d, Num(f, e, y), Den(e, y), p + 1);
  }

  lemma MidpointExponents(f: nat, e: nat, closer: bool, x: nat, fixedUp: bool, i: nat)
    requires Setup(f, e, closer, x, fixedUp).d > 0
    ensures var g := Setup(f, e, closer, x, fixedUp);
      RestExp(g, i) != g.loExp && (g.closed <==> RestExp(g, i) < g.loExp)
      <==> MidpointMisread(f % 2 == 0, e, closer, x, Prefix(g, i))
  {
    var g := Setup(f, e, closer, x, fixedUp);
    ClosedIfEven(f, e, closer, x, fixedUp);
    StoredExponents(f, e, closer, x, fixedUp);
    PrefixNonnegative(g, i);
    hide Setup, Pow, Prefix;
    assert RestExp(g, i) == if Prefix(g, i) > 0 then Min(g.nExp, g.dExp) else g.nExp;
  }

  lemma StoredExponents(f: nat, e: nat, closer: bool, x: nat, fixedUp: bool)
    ensures var g := Setup(f, e, closer, x, fixedUp);
      g.nExp == (e + Shift(closer)) / 32 && g.dExp == x / 32 && g.loExp == e / 32
  {
  }

  lemma PrefixNonnegative(g: Input, i: nat)
    requires g.d > 0
    ensures Prefix(g, i) >= 0
  {
    DivParts(g.n * Pow(10, i), g.d);
  }

  /** Misled with a remainder is misled by the lower midpoint. */
  lemma MisledByMidpoint(f: nat, e: nat, closer: bool, x: nat, fixedUp: bool, i: nat, q: int)
    requires f > 0 && Setup(f, e, closer, x, fixedUp).d > 0
    ensures var g := Setup(f, e, closer, x, fixedUp);
      Prefix(g, i) == q && Rest(g, i) > 0 && MisledAt(g, i)
      <==> MisleadsAt(f, e, closer, x, Top(x, fixedUp), Top(x, fixedUp) - i, q)
  {
    var g, y := Setup(f, e, closer, x, fixedUp), Top(x, fixedUp) - i;
    LowerPositive(f, e, closer, x, fixedUp, i);
    RemainderAtMidpoint(f, e, closer, x, fixedUp, i, q);
    MidpointExponents(f, e, closer, x, fixedUp, i);
    UpperChosen(f, e, closer, x, fixedUp, i);
    NoneShorter(f, e, closer, x, fixedUp, i);
    PrefixDivides(g, i);
    TwinRemainder(g, i);
    ClosedIfEven(f, e, closer, x, fixedUp);
    hide Setup, Prefix, Rest, RestExp, High, Up, TwinAt, InRange, IsRounding, MidpointAt, MidpointMisread, Top, Pow,
         Admissible, Shl;
  }

  lemma ClosedIfEven(f: nat, e: int, closer: bool, x: int, fixedUp: bool)
    ensures Setup(f, e, closer, x, fixedUp).closed == (f % 2 == 0)
  {
  }

  lemma TwinRemainder(g: Input, i: nat)
    requires g.d > 0
    ensures TwinAt(g, i) ==> Rest(g, i) == 0
  {
    DivModUnique(g.d, g.d, 1, 0);
  }

  // ----- a zero remainder -----

  /** A zero remainder is misread only at the first digit, for a value whose first digit is all of it. */
  lemma MisledByZero(f: nat, e: nat, closer: bool, x: nat, fixedUp: bool, i: nat)
    requires f > 0 && Setup(f, e, closer, x, fixedUp).d > 0
    requires Rest(Setup(f, e, closer, x, fixedUp), i) == 0 && MisledAt(Setup(f, e, closer, x, fixedUp), i)
    ensures !fixedUp && e / 32 < x / 32 && e / 32 < (e + Shift(closer)) / 32
    ensures var q := Prefix(Setup(f, e, closer, x, fixedUp), 0); q > 0 && f * Pow(2, e) == q * Pow(10, x)
  {
    var g := Setup(f, e, closer, x, fixedUp);
    SetupPositive(f, e, closer, x, fixedUp);
    StoredExponents(f, e, closer, x, fixedUp);
    LowerPositive(f, e, closer, x, fixedUp, i);
    hide *;
    FirstIsWhole(g, i);
    ZeroMisread(g, i);
    LowerIs(f, e, closer, x, fixedUp);
    StoredHigh(e, Shift(closer), Min(g.nExp, g.dExp), if fixedUp then 10 else 1, Pow(10, i));
    MinBelow(g.nExp, g.dExp);
    ShiftRange(closer);
    FirstPlace(i, fixedUp);
    ZeroIsWhole(f, e, closer, x);
  }

  lemma ZeroMisread(g: Input, i: nat)
    requires g.d > 0 && Rest(g, i) == 0 && Prefix(g, i) > 0 && g.lo * Pow(10, i) > 0 && MisledAt(g, i)
    ensures g.lo * Pow(10, i) < Shl(1, Min(g.nExp, g.dExp))
  {
    hide Admissible, Pow, Shl, High, Up, TwinAt;
  }

  lemma MinBelow(a: nat, b: nat)
    ensures Min(a, b) <= a && Min(a, b) <= b && (Min(a, b) == a || Min(a, b) == b)
  {
  }

  lemma ShiftRange(closer: bool)
    ensures 1 <= Shift(closer) <= 2
  {
  }

  /** A factor below four is no power of ten. */
  lemma FirstPlace(i: nat, fixedUp: bool)
    ensures Pow(10, i) > 0
    ensures (if fixedUp then 10 else 1) * Pow(10, i) < 4 ==> i == 0 && !fixedUp
  {
    PowPositive(10, i);
    NoneAndOne();
    if i > 0 { PowMonotone(10, 1, i); }
  }

  lemma LowerIs(f: nat, e: nat, closer: bool, x: nat, fixedUp: bool)
    ensures Setup(f, e, closer, x, fixedUp).lo == (if fixedUp then 10 else 1) * Pow(2, e)
  {
    WholeRatio(1, e, x);
    hide Num, Den, Pow;
  }

  lemma FirstIsWhole(g: Input, i: nat)
    requires Positive(g) && Rest(g, i) == 0
    ensures Prefix(g, i) > 0
  {
    ScaledPositive(g.n, i);
    PrefixDivides(g, i);
  }

  /** A zero stored higher than a distance of k * 2^e * p. */
  lemma StoredHigh(e: nat, shift: nat, m: nat, k: nat, p: nat)
    requires 1 <= shift <= 2 && m <= (e + shift) / 32 && k > 0 && p > 0 && (k * Pow(2, e)) * p < Shl(1, m)
    ensures m == (e + shift) / 32 > e / 32 && k * p < 4
  {
    PowPositive(2, e);
    WordsInBits(e);
    if m <= e / 32 {
      ShlGrows(1, m, e / 32);
      MulLe(1, k, Pow(2, e));
      AtLeast(k * Pow(2, e), p);
    } else {
      WordsOfBits(m, e + 2);
      PowAdd(2, e, 2);
      NoneAndOne();
      FourTimes(Pow(2, e), k, p);
    }
  }

  lemma FourTimes(u: nat, k: nat, p: nat)
    requires u > 0 && k * u * p < 4 * u
    ensures k * p < 4
  {
    MulAssoc(k, p, u);
    MulAssoc(k, u, p);
    assert u * p == p * u;
    if k * p >= 4 { MulLe(4, k * p, u); }
  }

  /** BASE^m is at most 2^b when 32 m <= b. */
  lemma WordsOfBits(m: nat, b: nat)
    requires 32 * m <= b
    ensures Shl(1, m) <= Pow(2, b)
  {
    ShlOne(m);
    WordIsPower();
    PowPow(2, 32, m);
    PowMonotone(2, 32 * m, b);
  }

  /** Without a remainder after the first digit the value is that digit. */
  lemma ZeroIsWhole(f: nat, e: nat, closer: bool, x: nat)
    requires var g := Setup(f, e, closer, x, false); g.d > 0 && Rest(g, 0) == 0
    ensures f * Pow(2, e) == Prefix(Setup(f, e, closer, x, false), 0) * Pow(10, x)
  {
    var g := Setup(f, e, closer, x, false);
    var q := Prefix(g, 0);
    PrefixDivides(g, 0);
    SameRatio(f, e, closer, x, false, 0);
    WholeRatio(f, e, x);
    DenPositive(e, x);
    NoneAndOne();
    hide Setup, Num, Den, Pow, Prefix, Rest;
    assert g.n * Pow(10, 0) == q * g.d;
    CancelRatio(q, g.d, Den(e, x), Num(f, e, x));
  }

  lemma WholeRatio(f: nat, e: nat, x: nat)
    ensures Num(f, e, x) == f * Pow(2, e) && Den(e, x) == Pow(10, x)
  {
    NoneAndOne();
  }

  lemma CancelRatio(q: int, d: int, d': int, n': int)
    requires q * d * d' == n' * d && d > 0
    ensures n' == q * d'
  {
    MulAssoc(q, d, d');
    MulAssoc(q, d', d);
    assert d * d' == d' * d;
    MulCancel(n', q * d', d);
  }

  /** The exponent estimate of a 113-bit significand is not below the place of its leading bit. */
  predicate Estimated(f: nat, e: nat, x: nat) {
    f >= Pow(2, 112) ==> Pow(2, e + 112) <= Pow(10, x)
  }

  /** For the formats and with their estimate no zero remainder is misread. */
  lemma FloatNeverZero(f: nat, e: nat, closer: bool, x: nat, q: nat)
    requires IsFloat(f, e, closer) && Estimated(f, e, x)
    requires e / 32 < x / 32 && e / 32 < (e + Shift(closer)) / 32 && q > 0
    ensures f * Pow(2, e) != q * Pow(10, x)
  {
    if f * Pow(2, e) == q * Pow(10, x) {
      Factors(f, e, x, q);
      ManyFives(f, e, closer, x, q);
      assert e == 31 && x < 62;
      hide Estimated;
      AtThirtyOne(f, x, q);
    }
  }

  lemma Factors(f: nat, e: nat, x: nat, q: nat)
    requires e < x && f * Pow(2, e) == q * Pow(10, x)
    ensures f == q * (Pow(5, x) * Pow(2, x - e))
  {
    TenSplits(x);
    PowAdd(2, x - e, e);
    PowPositive(2, e);
    hide Pow;
    var a, b, c := Pow(5, x), Pow(2, x - e), Pow(2, e);
    MulAssoc(a, b, c);
    MulAssoc(q, a * b, c);
    MulCancel(f, q * (a * b), c);
  }

  /** So many fives need the 113-bit format, where the binary exponent is then 31. */
  lemma ManyFives(f: nat, e: nat, closer: bool, x: nat, q: nat)
    requires IsFloat(f, e, closer) && q > 0 && e < x && f == q * (Pow(5, x) * Pow(2, x - e))
    requires e / 32 < x / 32 && e / 32 < (e + Shift(closer)) / 32
    ensures Pow(2, 112) <= f < Pow(2, 113) && e == 31 && x < 62
  {
    hide *;
    PowPositive(2, x - e);
    AtLeast(Pow(5, x), Pow(2, x - e));
    AtLeast(Pow(5, x) * Pow(2, x - e), q);
    PowMonotone(5, 32, x);
    LargeFormat(f, e, closer);
    ShiftRange(closer);
    NoPowerOfTwo();
    if closer { FiveDivides(q, x, Pow(2, x - e)); }
    ShiftIs();
    if x >= 62 {
      PowMonotone(5, 62, x);
      LargestFives();
    }
  }

  lemma ShiftIs()
    ensures Shift(false) == 1
  {
  }

  lemma LargestFives()
    ensures Pow(5, 62) > Pow(2, 113)
  {
    SmallPowers();
  }

  lemma NoPowerOfTwo()
    ensures Pow(2, 112) % 5 != 0
  {
    SmallPowers();
  }

  /** Only the 113-bit format holds a significand of this size. */
  lemma LargeFormat(f: nat, e: int, closer: bool)
    requires IsFloat(f, e, closer) && f >= Pow(5, 32) && e >= 0
    ensures Pow(2, 112) <= f < Pow(2, 113) && (closer ==> f == Pow(2, 112))
  {
    var bits :| Precision(bits) && InFormat(f, e, closer, bits);
    SmallPowers();
    hide Pow;
  }

  lemma FiveDivides(q: nat, x: nat, p: nat)
    requires x > 0
    ensures (q * (Pow(5, x) * p)) % 5 == 0
  {
    var c := Pow(5, x - 1);
    calc {
      q * (Pow(5, x) * p);
      q * (5 * c * p);
      5 * (q * (c * p));
    }
  }

  /** Between 2^143 and 2^144 there is no power of ten, so a multiple of one there is that of a smaller one. */
  lemma AtThirtyOne(f: nat, x: nat, q: nat)
    requires Pow(2, 112) <= f < Pow(2, 113) && q > 0 && f * Pow(2, 31) == q * Pow(10, x)
    ensures Pow(10, x) < Pow(2, 143)
  {
    hide Pow;
    PowAdd(2, 113, 31);
    PowPositive(2, 31);
    MulLt(f, Pow(2, 113), Pow(2, 31));
    AtLeast(Pow(10, x), q);
    assert q * Pow(10, x) == Pow(10, x) * q;
    BetweenBits();
    if x <= 43 { PowMonotone(10, x, 43); } else { PowMonotone(10, 44, x); }
  }

  lemma BetweenBits()
    ensures Pow(10, 43) < Pow(2, 143) && Pow(2, 144) < Pow(10, 44)
  {
    hide Pow;
    SmallPowers();
    Fifteen();
    PowAdd(2, 128, 15);
    PowAdd(2, 143, 1);
    PowAdd(10, 11, 11);
    PowAdd(10, 22, 22);
    PowAdd(10, 43, 1);
  }

  lemma Fifteen()
    ensures Pow(2, 15) == 32768 && Pow(2, 1) == 2 && Pow(10, 1) == 10 && Pow(10, 11) == 100000000000
  {
    assert Pow(10, 5) == 100000;
    PowAdd(10, 5, 6);
    assert Pow(10, 6) == 1000000;
    assert Pow(2, 7) == 128;
    PowAdd(2, 7, 8);
  }

  /** The shortest mode misreads a float if and only if its lower midpoint misleads it. */
  lemma MisreadIffMidpoint(f: nat, e: int, closer: bool, x: int, fixedUp: bool)
    requires IsFloat(f, e, closer)
    requires e >= 0 ==> x >= 0 && Estimated(f, e, x)
    requires Setup(f, e, closer, x, false).n < 10 * Setup(f, e, closer, x, false).d
    ensures Setup(f, e, closer, x, fixedUp).d > 0
    ensures (exists i: nat :: MisreadAt(Setup(f, e, closer, x, fixedUp), i))
       <==> MidpointMisleads(f, e, closer, x, fixedUp)
  {
    var g, top := Setup(f, e, closer, x, fixedUp), Top(x, fixedUp);
    FloatPositive(f, e, closer);
    SetupPositive(f, e, closer, x, fixedUp);
    hide Setup, MisreadAt, MisledAt, MisleadsAt, Top, Estimated, IsFloat;
    if e < 0 {
      NegativeIsSafe(f, e, closer, x, fixedUp);
    } else {
      MisreadExactly(g);
      if i: nat :| MisledAt(g, i) {
        MisledMisleads(f, e, closer, x, fixedUp, i);
        assert MisleadsAt(f, e, closer, x, top, top - i, Prefix(g, i));
      }
      if y, q :| MisleadsAt(f, e, closer, x, top, y, q) {
        MisleadsMisled(f, e, closer, x, fixedUp, y, q);
        assert MisledAt(g, top - y);
      }
    }
  }

  lemma MisledMisleads(f: nat, e: nat, closer: bool, x: nat, fixedUp: bool, i: nat)
    requires IsFloat(f, e, closer) && Estimated(f, e, x) && Setup(f, e, closer, x, fixedUp).d > 0
    requires MisledAt(Setup(f, e, closer, x, fixedUp), i)
    ensures MisleadsAt(f, e, closer, x, Top(x, fixedUp), Top(x, fixedUp) - i,
                       Prefix(Setup(f, e, closer, x, fixedUp), i))
  {
    var g := Setup(f, e, closer, x, fixedUp);
    FloatPositive(f, e, closer);
    hide Setup, MisledAt, MisleadsAt, Top, Estimated, IsFloat;
    if Rest(g, i) == 0 {
      MisledByZero(f, e, closer, x, fixedUp, i);
      FloatNeverZero(f, e, closer, x, Prefix(g, 0));
    } else {
      PrefixDivides(g, i);
      MisledByMidpoint(f, e, closer, x, fixedUp, i, Prefix(g, i));
    }
  }

  lemma MisleadsMisled(f: nat, e: nat, closer: bool, x: nat, fixedUp: bool, y: int, q: int)
    requires f > 0 && Setup(f, e, closer, x, fixedUp).d > 0
    requires MisleadsAt(f, e, closer, x, Top(x, fixedUp), y, q)
    ensures y <= Top(x, fixedUp) && MisledAt(Setup(f, e, closer, x, fixedUp), Top(x, fixedUp) - y)
  {
    hide Setup, MisledAt, MisleadsAt, Top;
    MisleadsBelow(f, e, closer, x, Top(x, fixedUp), y, q);
    MisledByMidpoint(f, e, closer, x, fixedUp, Top(x, fixedUp) - y, q);
  }

  lemma MisleadsBelow(f: nat, e: nat, closer: bool, x: nat, top: int, y: int, q: int)
    requires MisleadsAt(f, e, closer, x, top, y, q)
    ensures y <= top
  {
  }

  lemma FloatPositive(f: nat, e: int, closer: bool)
    requires IsFloat(f, e, closer)
    ensures f > 0
  {
  }
}
