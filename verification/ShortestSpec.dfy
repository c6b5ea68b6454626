/** The shortest mode of format_dragon: what it should print, and where its stored exponents mislead it. */
module ShortestSpec {
  import opened Powers
  import opened Bigits
  import opened BigintSpec
  import opened DragonSpec

  /** The operands of the digit loop: numerator n, denominator d, distances lo and hi to the
      interval's ends, and the exponents with which the bigints store them. */
  datatype Input = Input(n: nat, d: nat, lo: nat, hi: nat, closed: bool, nExp: nat, dExp: nat, loExp: nat)

  ghost predicate Positive(g: Input) {
    g.n > 0 && g.d > 0 && g.lo > 0 && g.hi > 0
  }

  /** The first i + 1 digits of n / d, as one number. */
  function Prefix(g: Input, i: nat): int
    requires g.d > 0
  {
    (g.n * Pow(10, i)) / g.d
  }

  /** What remains after them, in units of d. */
  function Rest(g: Input, i: nat): int
    requires g.d > 0
  {
    (g.n * Pow(10, i)) % g.d
  }

  /** The decimal q, with i digits after the first, lies in the interval around n / d. */
  predicate Admissible(g: Input, i: nat, q: int) {
    Within(g.n * Pow(10, i), g.d, g.lo * Pow(10, i), g.hi * Pow(10, i), g.closed, q)
  }

  /** q is the nearer of two neighbours of n / d when both are admissible. */
  predicate Nearest(g: Input, i: nat, q: int)
    requires g.d > 0
  {
    Admissible(g, i, Prefix(g, i)) && Admissible(g, i, Prefix(g, i) + 1)
    ==> RoundsHalfEven(g.n * Pow(10, i), g.d, q)
  }

  /** The promise of the shortest mode. */
  ghost predicate IsShortest(g: Input, digits: seq<int>)
    requires g.d > 0
  {
    && |digits| > 0 && Decimal(digits)
    && Admissible(g, |digits| - 1, DigitsValue(digits))
    && (forall i: nat, q: int :: i < |digits| - 1 ==> !Admissible(g, i, q))
    && Nearest(g, |digits| - 1, DigitsValue(digits))
  }

  // ----- the loop's three decisions after i + 1 digits -----

  predicate Low(g: Input, i: nat)
    requires g.d > 0
  {
    if g.closed then Rest(g, i) <= g.lo * Pow(10, i) else Rest(g, i) < g.lo * Pow(10, i)
  }

  predicate High(g: Input, i: nat)
    requires g.d > 0
  {
    if g.closed then Rest(g, i) + g.hi * Pow(10, i) >= g.d else Rest(g, i) + g.hi * Pow(10, i) > g.d
  }

  predicate Up(g: Input, i: nat)
    requires g.d > 0
  {
    2 * Rest(g, i) > g.d || (2 * Rest(g, i) == g.d && Prefix(g, i) % 2 != 0)
  }

  // ----- how the stored exponents interfere -----

  /** The exponent the remainder is stored with: the first nonzero digit aligns it to the denominator. */
  function RestExp(g: Input, i: nat): int
    requires g.d > 0
  {
    if Prefix(g, i) > 0 then Min(g.nExp, g.dExp) else g.nExp
  }

  /** What the code takes for Low: a zero remainder stored high reads as large, and a remainder
      equal to the lower distance is told apart from it by the exponents. */
  ghost predicate ReadsLow(r: int, l: int, closed: bool, rExp: nat, lExp: nat) {
    if r == 0 && l < Shl(1, rExp) then false
    else if r == l && rExp != lExp then rExp > lExp
    else if closed then r <= l else r < l
  }

  ghost predicate LowRead(g: Input, i: nat)
    requires g.d > 0
  {
    ReadsLow(Rest(g, i), g.lo * Pow(10, i), g.closed, RestExp(g, i), g.loExp)
  }

  /** The remaining value equals the denominator but is stored with a larger exponent, so that
      divmod_assign finds no digit in it; the stop that follows rounds it up to the missing one. */
  predicate TwinAt(g: Input, i: nat) {
    g.n * Pow(10, i) == g.d && g.nExp > g.dExp
  }

  ghost predicate StopsAt(g: Input, i: nat)
    requires g.d > 0
  {
    TwinAt(g, i) || LowRead(g, i) || High(g, i)
  }

  /** The loop reaches digit i + 1 and there misreads the lower end with consequences: it runs
      past an admissible decimal, stops at an inadmissible one, or picks the farther of two. */
  ghost predicate MisreadAt(g: Input, i: nat)
    requires g.d > 0
  {
    && (forall j: nat :: j < i ==> !StopsAt(g, j))
    && !TwinAt(g, i)
    && if Low(g, i) then !LowRead(g, i) && !(High(g, i) && Up(g, i))
       else LowRead(g, i) && !(High(g, i) && Up(g, i))
  }

  // ----- facts about one digit -----

  lemma ScaledPositive(x: nat, i: nat)
    requires x > 0
    ensures x * Pow(10, i) > 0
  {
    PowPositive(10, i);
    MulLt(0, x, Pow(10, i));
  }

  lemma ScaleStep(x: int, i: nat)
    ensures x * Pow(10, i + 1) == x * Pow(10, i) * 10
  {
    assert x * (10 * Pow(10, i)) == x * Pow(10, i) * 10;
  }

  /** The generated digits are the true ones. */
  lemma PrefixIs(g: Input, i: nat, p: int, r: int)
    requires g.d > 0 && Divided(g.n, g.d, i, p, r) && 0 <= r < g.d
    ensures Prefix(g, i) == p && Rest(g, i) == r
  {
    DivModUnique(g.n * Pow(10, i), g.d, p, r);
  }

  lemma PrefixDivides(g: Input, i: nat)
    requires g.d > 0
    ensures Divided(g.n, g.d, i, Prefix(g, i), Rest(g, i))
    ensures 0 <= Rest(g, i) < g.d
  {
    var m := g.n * Pow(10, i);
    assert m == (m / g.d) * g.d + m % g.d;
  }

  /** Comparing a remainder with the lower distance as the code does. */
  lemma OrderReadsLow(s: seq<Bigit>, m: nat, t: seq<Bigit>, n: nat, closed: bool)
    requires Canonical(s) && Normal(t)
    ensures (Order(s, m, t, n) - (if closed then 1 else 0) < 0)
       <==> ReadsLow(Val(s, m), Val(t, n), closed, m, n)
  {
    CompareIsSign(s, m, t, n);
    CanonicalZero(s, m);
    ValNormal(t, n);
    TallZeroByValue(t, n, m);
    if Normal(s) && Val(s, m) == Val(t, n) {
      if |s| + m < |t| + n { LongerIsLarger(s, m, t, n); }
      if |s| + m > |t| + n { LongerIsLarger(t, n, s, m); }
    }
  }

  lemma TallZeroByValue(t: seq<Bigit>, n: nat, m: nat)
    requires Normal(t)
    ensures m + 1 > |t| + n <==> Val(t, n) < Shl(1, m)
  {
    ValNormal(t, n);
    if m + 1 > |t| + n {
      BelowPosition(t, n, m);
    } else {
      ShlGrows(1, m, |t| + n - 1);
    }
  }

  /** Digit by digit: going on past digit i + 1 without a misread leaves nothing admissible there. */
  lemma GoesOn(g: Input, i: nat)
    requires Positive(g) && !StopsAt(g, i) && (forall j: nat :: j < i ==> !StopsAt(g, j)) && !MisreadAt(g, i)
    ensures forall q: int :: !Admissible(g, i, q)
  {
    PrefixDivides(g, i);
    forall q: int ensures !Admissible(g, i, q) {
      GoOnEmpty(g.n, g.d, i, Prefix(g, i), Rest(g, i), g.lo * Pow(10, i), g.hi * Pow(10, i), g.closed, q);
    }
  }

  /** A misread that goes on leaves an admissible decimal behind. */
  lemma LeavesBehind(g: Input, i: nat)
    requires Positive(g) && !StopsAt(g, i) && MisreadAt(g, i)
    ensures Admissible(g, i, Prefix(g, i))
  {
    PrefixDivides(g, i);
    ScaledPositive(g.lo, i);
    ScaledPositive(g.hi, i);
    StopWithin(g.n, g.d, i, Prefix(g, i), Rest(g, i), g.lo * Pow(10, i), g.hi * Pow(10, i), g.closed);
  }

  /** The digit string the code stops with. */
  ghost function Chosen(g: Input, i: nat): int
    requires g.d > 0
  {
    if TwinAt(g, i) then 1
    else if !LowRead(g, i) then Prefix(g, i) + 1
    else if High(g, i) && Up(g, i) then Prefix(g, i) + 1
    else Prefix(g, i)
  }

  /** Where the code stops, its choice is admissible and nearest exactly when nothing was misread. */
  lemma StopsRight(g: Input, i: nat)
    requires Positive(g) && StopsAt(g, i) && (forall j: nat :: j < i ==> !StopsAt(g, j))
    ensures Admissible(g, i, Chosen(g, i)) && Nearest(g, i, Chosen(g, i)) <==> !MisreadAt(g, i)
  {
    var n, p, r, lo, hi := g.n * Pow(10, i), Prefix(g, i), Rest(g, i), g.lo * Pow(10, i), g.hi * Pow(10, i);
    ScaledPositive(g.lo, i);
    ScaledPositive(g.hi, i);
    PrefixDivides(g, i);
    StopWithin(g.n, g.d, i, p, r, lo, hi, g.closed);
    RoundLast(g.n, g.d, i, p, r);
    if TwinAt(g, i) {
      ExactChoice(n, g.d, lo, hi, g.closed);
    } else {
      PrefixEnds(n, g.d, p, r, lo, hi, g.closed);
      RoundsOneWay(n, g.d, p);
    }
  }

  lemma ExactChoice(n: int, d: int, lo: int, hi: int, closed: bool)
    requires n == d > 0 && lo > 0 && hi > 0
    ensures Within(n, d, lo, hi, closed, 1) && RoundsHalfEven(n, d, 1)
  {
  }

  /** Admissibility of the two neighbours, read off the remainder. */
  lemma PrefixEnds(n: int, d: int, p: int, r: int, lo: int, hi: int, closed: bool)
    requires n == p * d + r && 0 <= r < d && lo > 0 && hi > 0
    ensures Within(n, d, lo, hi, closed, p) <==> if closed then r <= lo else r < lo
    ensures Within(n, d, lo, hi, closed, p + 1) <==> if closed then r + hi >= d else r + hi > d
  {
    assert (p + 1) * d == p * d + d;
  }

  lemma RoundsOneWay(n: int, d: int, p: int)
    requires d > 0
    ensures !(RoundsHalfEven(n, d, p) && RoundsHalfEven(n, d, p + 1))
  {
    if RoundsHalfEven(n, d, p) && RoundsHalfEven(n, d, p + 1) {
      RoundsUniquely(n, d, p, p + 1);
    }
  }

  /** The outcome: the printed digits keep the promise unless a misread happened on the way. */
  lemma ShortestUnlessMisread(g: Input, digits: seq<int>)
    requires Positive(g) && |digits| > 0 && Decimal(digits)
    requires DigitsValue(digits) == Chosen(g, |digits| - 1)
    requires StopsAt(g, |digits| - 1) && (forall j: nat :: j < |digits| - 1 ==> !StopsAt(g, j))
    ensures IsShortest(g, digits) <==> !exists i: nat :: MisreadAt(g, i)
  {
    var k := |digits| - 1;
    StopsRight(g, k);
    if i: nat :| MisreadAt(g, i) {
      if i < k {
        LeavesBehind(g, i);
        assert Admissible(g, i, Prefix(g, i));
      }
    } else {
      forall i: nat, q: int | i < k ensures !Admissible(g, i, q) {
        GoesOn(g, i);
      }
    }
  }

  // ----- misreads without the loop -----

  /** When remainder and lower distance are misread: a zero stored high, or equal ones whose exponents
      contradict whether the end belongs to the interval. */
  predicate LowMisread(r: int, l: int, closed: bool, rExp: nat, lExp: nat) {
    || (r == 0 && l < Shl(1, rExp))
    || (r == l && rExp != lExp && (closed <==> rExp < lExp))
  }

  lemma LowMisreadExactly(r: int, l: int, closed: bool, rExp: nat, lExp: nat)
    requires r >= 0 && l > 0
    ensures LowMisread(r, l, closed, rExp, lExp)
       <==> ReadsLow(r, l, closed, rExp, lExp) != if closed then r <= l else r < l
  {
  }

  /** No decimal with fewer digits is admissible, the lower end is misread, and the upper neighbour is not chosen. */
  ghost predicate MisledAt(g: Input, i: nat)
    requires g.d > 0
  {
    && (forall j: nat, q: int :: j < i ==> !Admissible(g, j, q))
    && !TwinAt(g, i)
    && LowMisread(Rest(g, i), g.lo * Pow(10, i), g.closed, RestExp(g, i), g.loExp)
    && !(High(g, i) && Up(g, i))
  }

  lemma MisledHere(g: Input, i: nat)
    requires Positive(g)
    ensures MisledAt(g, i) && (forall j: nat :: j < i ==> !StopsAt(g, j)) ==> MisreadAt(g, i)
    ensures MisreadAt(g, i) && (forall j: nat, q: int :: j < i ==> !Admissible(g, j, q)) ==> MisledAt(g, i)
  {
    hide Pow, Admissible;
    ScaledPositive(g.lo, i);
    PrefixDivides(g, i);
    LowMisreadExactly(Rest(g, i), g.lo * Pow(10, i), g.closed, RestExp(g, i), g.loExp);
  }

  /** Stopping early where nothing is admissible is a misread. */
  lemma StopsAstray(g: Input, i: nat)
    requires Positive(g) && StopsAt(g, i) && (forall j: nat :: j < i ==> !StopsAt(g, j))
    requires forall q: int :: !Admissible(g, i, q)
    ensures MisreadAt(g, i)
  {
    StopsRight(g, i);
    assert !Admissible(g, i, Chosen(g, i));
  }

  /** The shortest mode misreads somewhere if and only if it is misled somewhere. */
  lemma MisreadExactly(g: Input)
    requires Positive(g)
    ensures (exists i: nat :: MisreadAt(g, i)) <==> (exists i: nat :: MisledAt(g, i))
  {
    if i: nat :| MisreadAt(g, i) { FirstMisread(g, 0, i); }
    if i: nat :| MisledAt(g, i) { MisledIsMisread(g, 0, i); }
  }

  lemma {:induction false} FirstMisread(g: Input, j: nat, i: nat)
    requires Positive(g) && j <= i && MisreadAt(g, i) && forall k: nat, q: int :: k < j ==> !Admissible(g, k, q)
    ensures exists k: nat :: MisledAt(g, k)
    decreases i - j
  {
    hide Admissible, StopsAt, MisledAt;
    if MisreadAt(g, j) {
      MisledHere(g, j);
    } else {
      GoesOn(g, j);
      FirstMisread(g, j + 1, i);
    }
  }

  lemma {:induction false} MisledIsMisread(g: Input, j: nat, i: nat)
    requires Positive(g) && j <= i && MisledAt(g, i) && forall k: nat :: k < j ==> !StopsAt(g, k)
    ensures exists k: nat :: MisreadAt(g, k)
    decreases i - j
  {
    hide StopsAt, MisreadAt;
    if j == i {
      MisledHere(g, i);
    } else if StopsAt(g, j) {
      StopsAstray(g, j);
    } else {
      MisledIsMisread(g, j + 1, i);
    }
  }

  // ----- one turn of the loop -----

  /** Before digit i + 1: v printed so far, the remaining value and its stored exponent. */
  ghost predicate Before(g: Input, i: nat, v: int, rest: int, exp: int) {
    && Generated(g.n, g.d, i, v, rest) && v >= 0 && rest >= 0
    && exp == if v > 0 then Min(g.nExp, g.dExp) else g.nExp
  }

  /** The next increment of the last digit cannot pass nine. */
  predicate Room(rest: int, hi: int, d: int, closed: bool) {
    if closed then rest + hi < 10 * d else rest + hi <= 10 * d
  }

  lemma TrueDigit(g: Input, i: nat, v: int, rest: int, exp: int, digit: int, r: int, exp': int)
    requires Positive(g) && Before(g, i, v, rest, exp) && !(rest == g.d && exp > g.dExp)
    requires IsDivision(rest, g.d, digit, r) && digit >= 0
    requires exp' == if digit > 0 then Min(exp, g.dExp) else exp
    ensures Prefix(g, i) == 10 * v + digit && Rest(g, i) == r && RestExp(g, i) == exp' && !TwinAt(g, i)
    ensures 0 <= r < g.d && Divided(g.n, g.d, i, 10 * v + digit, r)
    ensures Before(g, i + 1, 10 * v + digit, 10 * r, exp')
    ensures Room(rest, 1, g.d, false) ==> digit <= 9
  {
    DivideStep(g.n, g.d, i, v, rest, digit, r);
    PrefixIs(g, i, 10 * v + digit, r);
    NextDigit(g.n, g.d, i, 10 * v + digit, r);
    if TwinAt(g, i) { NothingBefore(g, i, v, rest); }
    if digit >= 10 { MulLe(10, digit, g.d); }
  }

  lemma BeforeGenerated(g: Input, i: nat, v: int, rest: int, exp: int)
    requires Before(g, i, v, rest, exp)
    ensures Generated(g.n, g.d, i, v, rest)
  {
  }

  /** A digit split off, with what remains and its stored exponent. */
  lemma DigitTaken(g: Input, i: nat, v: int, rest: int, digit: int, r: int, exp: int)
    requires g.d > 0 && Generated(g.n, g.d, i, v, rest) && Divided(g.n, g.d, i, 10 * v + digit, r) && 0 <= r < g.d
    requires Before(g, i + 1, 10 * v + digit, 10 * r, exp)
    ensures Prefix(g, i) == 10 * v + digit && Rest(g, i) == r && RestExp(g, i) == exp
    ensures IsDivision(rest, g.d, digit, r)
  {
    PrefixIs(g, i, 10 * v + digit, r);
    assert v * (10 * g.d) + digit * g.d == (10 * v + digit) * g.d;
  }

  /** Two comparisons as the code reads them, and the digit it then chooses. */
  lemma StopMeans(g: Input, i: nat, v: int, digit: int, r: int, exp: int, low: bool, high: bool)
    requires g.d > 0 && !TwinAt(g, i)
    requires Prefix(g, i) == 10 * v + digit && Rest(g, i) == r && RestExp(g, i) == exp >= 0
    requires low <==> ReadsLow(r, g.lo * Pow(10, i), g.closed, exp, g.loExp)
    requires high <==> if g.closed then r + g.hi * Pow(10, i) >= g.d else r + g.hi * Pow(10, i) > g.d
    ensures StopsAt(g, i) <==> low || high
    ensures low || high ==>
      var up := 2 * r > g.d || (2 * r == g.d && digit % 2 != 0);
      Chosen(g, i) == 10 * v + digit + if !low || (high && up) then 1 else 0
  {
    hide Pow, Prefix, Rest, RestExp, ReadsLow, TwinAt;
    ParityOfPrefix(v, digit);
  }

  lemma StopsAtTwin(g: Input, i: nat)
    requires g.d > 0 && TwinAt(g, i)
    ensures StopsAt(g, i) && Chosen(g, i) == 1
  {
  }

  lemma NothingBefore(g: Input, i: nat, v: int, rest: int)
    requires Generated(g.n, g.d, i, v, rest) && v >= 0 && rest >= 0 && g.n * Pow(10, i) == g.d > 0
    ensures v == 0 && rest == g.d
  {
    if v > 0 { MulLe(1, v, 10 * g.d); }
  }

  lemma MissedDigit(g: Input, i: nat, v: int, rest: int, exp: int)
    requires Positive(g) && Before(g, i, v, rest, exp) && rest == g.d && exp > g.dExp
    ensures v == 0 && TwinAt(g, i) && Divided(g.n, g.d, i, 0, g.d)
  {
    DivideStep(g.n, g.d, i, v, rest, 0, rest);
  }

  lemma StartBefore(g: Input)
    ensures Before(g, 0, 0, g.n, g.nExp)
    ensures g.lo * Pow(10, 0) == g.lo && g.hi * Pow(10, 0) == g.hi
  {
    GeneratedStart(g.n, g.d);
  }

  /** A lower distance above the denominator always reads as reached. */
  lemma LowEventually(r: int, l: int, d: seq<Bigit>, dExp: nat, closed: bool, rExp: nat, lExp: nat)
    requires Normal(d) && 0 <= r < Val(d, dExp) < l && (r == 0 ==> rExp <= dExp)
    ensures ReadsLow(r, l, closed, rExp, lExp)
  {
    ValNormal(d, dExp);
    if r == 0 { ShlGrows(1, rExp, dExp + |d| - 1); }
  }

  /** Incrementing the last digit stays below ten, whichever decision asked for it. */
  lemma IncrementFits(rest: int, hi: int, d: int, closed: bool, digit: int, r: int)
    requires Room(rest, hi, d, closed) && d > 0 && IsDivision(rest, d, digit, r)
    requires if closed then r + hi >= d else r + hi > d
    ensures digit < 9
  {
    if digit >= 9 { MulLe(9, digit, d); }
  }

  lemma ParityOfPrefix(v: int, digit: int)
    ensures (10 * v + digit) % 2 == digit % 2
  {
  }

  // ----- the fixed-precision mode -----

  /** k digits are n / d rounded half to even, the exponent one up if all of them would be carried away. */
  ghost predicate IsRounded(n: nat, d: nat, k: nat, digits: seq<int>, carry: int)
    requires k > 0
  {
    && |digits| == k && Decimal(digits) && 0 <= carry <= 1
    && (carry == 1 ==> DigitsValue(digits) == Pow(10, k - 1))
    && RoundsHalfEven(n * Pow(10, k - 1), d, DigitsValue(digits) * Pow(10, carry))
  }

  /** A digit other than the last goes missing and turns up as a ten in the next place. */
  ghost predicate MissesDigit(g: Input, k: nat) {
    exists i: nat :: i + 1 < k && TwinAt(g, i)
  }

  /** The operands when only the quotient matters. */
  function Quotient(n: nat, d: nat, nExp: nat, dExp: nat): Input {
    Input(n, d, 1, 1, false, nExp, dExp, 0)
  }

  lemma SameTwins(g: Input, k: nat)
    ensures MissesDigit(Quotient(g.n, g.d, g.nExp, g.dExp), k) <==> MissesDigit(g, k)
  {
    var q := Quotient(g.n, g.d, g.nExp, g.dExp);
    assert forall i: nat :: TwinAt(q, i) <==> TwinAt(g, i);
  }

  /** The last digit, rounded by the remainder r, which is the whole divisor if the digit was missed. */
  lemma RoundedLast(g: Input, k: nat, digits: seq<int>, v: int, digit: int, r: int, up: bool)
    requires k > 0 && g.d > 0 && |digits| == k && digits[..k - 1] + [digits[k - 1]] == digits
    requires v == DigitsValue(digits[..k - 1]) && digits[k - 1] == if up then digit + 1 else digit
    requires Divided(g.n, g.d, k - 1, 10 * v + digit, r) && 0 <= r <= g.d
    requires up <==> 2 * r > g.d || (2 * r == g.d && digit % 2 != 0)
    ensures RoundsHalfEven(g.n * Pow(10, k - 1), g.d, DigitsValue(digits))
  {
    DigitsPush(digits[..k - 1], digits[k - 1]);
    RoundLast(g.n, g.d, k - 1, 10 * v + digit, r);
    ParityOfPrefix(v, digit);
  }

  /** Dividing nothing, or ten times the divisor. */
  lemma ExactDivision(d: int, k: int, q: int, r: int)
    requires d > 0 && IsDivision(k * d, d, q, r)
    ensures q == k && r == 0
  {
    DivModUnique(k * d, d, q, r);
    DivModUnique(k * d, d, k, 0);
  }

  lemma DigitsOfNone()
    ensures DigitsValue([]) == 0
  {
  }
}
