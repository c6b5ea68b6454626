/** What a digit generator over an exact ratio has to deliver: rounding, intervals, digit strings. */
module DragonSpec {
  import opened Powers

  // ----- digit strings -----

  function DigitsValue(ds: seq<int>): int {
    if |ds| == 0 then 0 else 10 * DigitsValue(ds[..|ds| - 1]) + ds[|ds| - 1]
  }

  predicate Decimal(ds: seq<int>) {
    forall i :: 0 <= i < |ds| ==> 0 <= ds[i] <= 9
  }

  lemma DigitsPush(ds: seq<int>, x: int)
    ensures DigitsValue(ds + [x]) == 10 * DigitsValue(ds) + x
  {
    assert (ds + [x])[..|ds|] == ds;
  }

  lemma {:induction false} DigitsUpdate(ds: seq<int>, i: nat, x: int)
    requires i < |ds|
    ensures DigitsValue(ds[i := x]) == DigitsValue(ds) + (x - ds[i]) * Pow(10, |ds| - 1 - i)
  {
    var n := |ds| - 1;
    if i < n {
      DigitsUpdate(ds[..n], i, x);
      assert ds[i := x][..n] == ds[..n][i := x];
      assert 10 * ((x - ds[i]) * Pow(10, n - 1 - i)) == (x - ds[i]) * Pow(10, n - i);
    } else {
      assert ds[i := x][..n] == ds[..n];
    }
  }

  /** Moving a ten out of one digit as a one into the digit before it. */
  lemma DigitsCarry(ds: seq<int>, i: nat)
    requires 0 < i < |ds| && ds[i] == 10
    ensures DigitsValue(ds[i := 0][i - 1 := ds[i - 1] + 1]) == DigitsValue(ds)
  {
    DigitsUpdate(ds, i, 0);
    DigitsUpdate(ds[i := 0], i - 1, ds[i - 1] + 1);
    assert Pow(10, |ds| - i) == 10 * Pow(10, |ds| - 1 - i);
  }

  /** The all-nines carry: a ten in front of zeros is a one in front of zeros, one place up. */
  lemma {:induction false} TenInFront(ds: seq<int>)
    requires |ds| > 0 && ds[0] == 10 && forall i :: 1 <= i < |ds| ==> ds[i] == 0
    ensures DigitsValue(ds) == 10 * DigitsValue(ds[0 := 1])
  {
    var n := |ds| - 1;
    if n > 0 {
      TenInFront(ds[..n]);
      assert ds[0 := 1][..n] == ds[..n][0 := 1];
    } else {
      assert ds[..0] == [] && ds[0 := 1][..0] == [];
    }
  }

  lemma {:induction false} OneInFront(ds: seq<int>)
    requires |ds| > 0 && ds[0] == 1 && forall i :: 1 <= i < |ds| ==> ds[i] == 0
    ensures DigitsValue(ds) == Pow(10, |ds| - 1)
  {
    var n := |ds| - 1;
    if n > 0 { OneInFront(ds[..n]); } else { assert ds[..0] == []; }
  }

  /** Digits that start with a zero are those of a smaller number. */
  lemma {:induction false} FirstIsZero(digits: seq<int>)
    requires |digits| > 0 && Decimal(digits)
    ensures 0 <= DigitsValue(digits) < Pow(10, |digits|)
    ensures digits[0] == 0 <==> DigitsValue(digits) < Pow(10, |digits| - 1)
  {
    var front := digits[..|digits| - 1];
    if |front| > 0 { FirstIsZero(front); } else { assert Pow(10, 0) == 1 && Pow(10, 1) == 10; }
  }

  // ----- rounding and intervals of a ratio n / d -----

  /** q is the integer nearest to n / d, the even one of two equally near. */
  predicate RoundsHalfEven(n: int, d: int, q: int) {
    && -d <= 2 * (n - q * d) <= d
    && (2 * (n - q * d) == d || 2 * (n - q * d) == -d ==> q % 2 == 0)
  }

  /** Rounding is a function. */
  lemma RoundsUniquely(n: int, d: int, q: int, q': int)
    requires d > 0 && RoundsHalfEven(n, d, q) && RoundsHalfEven(n, d, q')
    ensures q == q'
  {
    RoundsNotBelow(n, d, q, q');
    RoundsNotBelow(n, d, q', q);
  }

  lemma RoundsNotBelow(n: int, d: int, q: int, q': int)
    requires d > 0 && RoundsHalfEven(n, d, q) && RoundsHalfEven(n, d, q')
    ensures q' <= q
  {
    if q < q' {
      var a, b := n - q * d, n - q' * d;
      assert a - b == (q' - q) * d;
      OneApart(a, b, d, q' - q);
    }
  }

  lemma OneApart(a: int, b: int, d: int, k: int)
    requires d > 0 && k >= 1 && a - b == k * d && 2 * a <= d && -d <= 2 * b
    ensures k == 1 && 2 * a == d && 2 * b == -d
  {
    if k >= 2 { MulLe(2, k, d); }
  }

  /** Rounding depends on the ratio only. */
  lemma RoundsRatio(n: int, d: int, n': int, d': int, q: int)
    requires d > 0 && d' > 0 && n * d' == n' * d
    ensures RoundsHalfEven(n, d, q) <==> RoundsHalfEven(n', d', q)
  {
    var a, b := n - q * d, n' - q * d';
    assert a * d' == b * d by {
      assert (q * d) * d' == (q * d') * d;
    }
    CompareRatio(2 * a, d, 2 * b, d');
    CompareRatio(-2 * a, d, -2 * b, d');
  }

  lemma CompareRatio(a: int, d: int, b: int, d': int)
    requires d > 0 && d' > 0 && a * d' == b * d
    ensures a <= d <==> b <= d'
    ensures a == d <==> b == d'
  {
    if a < d { MulLt(a, d, d'); } else if a > d { MulLt(d, a, d'); }
    if b < d' { MulLt(b, d', d); } else if b > d' { MulLt(d', b, d); }
    assert d * d' == d' * d;
  }

  /** The integer q lies between (n - lo) / d and (n + hi) / d, ends included iff closed. */
  predicate Within(n: int, d: int, lo: int, hi: int, closed: bool, q: int) {
    if closed then n - lo <= q * d <= n + hi else n - lo < q * d < n + hi
  }

  /** Interval membership depends on the ratios only. */
  lemma WithinRatio(n: int, d: int, lo: int, hi: int, c: int, closed: bool, q: int)
    requires c > 0
    ensures Within(c * n, c * d, c * lo, c * hi, closed, q) <==> Within(n, d, lo, hi, closed, q)
  {
    assert q * (c * d) == c * (q * d);
    CompareScaled(c, n - lo, q * d);
    CompareScaled(c, q * d, n + hi);
    assert c * (n - lo) == c * n - c * lo && c * (n + hi) == c * n + c * hi;
  }

  lemma CompareScaled(c: int, a: int, b: int)
    requires c > 0
    ensures c * a <= c * b <==> a <= b
    ensures c * a < c * b <==> a < b
  {
    if a < b { MulLt(a, b, c); } else if b < a { MulLt(b, a, c); }
  }

  // ----- one step of long division -----

  /** After i digits making up v, n is what remains of n0, both in units of the next digit. */
  ghost predicate Generated(n0: int, d: int, i: nat, v: int, n: int) {
    n0 * Pow(10, i) == v * (10 * d) + n
  }

  /** The same with the next digit split off: n0 times 10^i is p times d, plus r. */
  ghost predicate Divided(n0: int, d: int, i: nat, p: int, r: int) {
    n0 * Pow(10, i) == p * d + r
  }

  lemma GeneratedStart(n0: int, d: int)
    ensures Generated(n0, d, 0, 0, n0)
  {
  }

  lemma DivideStep(n0: int, d: int, i: nat, v: int, n: int, digit: int, r: int)
    requires Generated(n0, d, i, v, n) && n == digit * d + r
    ensures Divided(n0, d, i, 10 * v + digit, r)
  {
    assert v * (10 * d) + digit * d == (10 * v + digit) * d;
  }

  lemma NextDigit(n0: int, d: int, i: nat, p: int, r: int)
    requires Divided(n0, d, i, p, r)
    ensures Generated(n0, d, i + 1, p, 10 * r)
  {
    assert n0 * (10 * Pow(10, i)) == 10 * (n0 * Pow(10, i));
    assert 10 * (p * d + r) == p * (10 * d) + 10 * r;
  }

  /** The final rounding decision of the fixed-precision mode. */
  lemma RoundLast(n0: int, d: int, i: nat, p: int, r: int)
    requires Divided(n0, d, i, p, r) && 0 <= r <= d && d > 0
    ensures RoundsHalfEven(n0 * Pow(10, i), d, if 2 * r > d || (2 * r == d && p % 2 != 0) then p + 1 else p)
  {
    hide Pow;
    NearerNeighbour(n0 * Pow(10, i), d, p, r);
  }

  lemma NearerNeighbour(n: int, d: int, p: int, r: int)
    requires n == p * d + r && 0 <= r <= d && d > 0
    ensures RoundsHalfEven(n, d, if 2 * r > d || (2 * r == d && p % 2 != 0) then p + 1 else p)
  {
    assert (p + 1) * d == p * d + d;
  }

  /** A stop in the shortest mode yields a point of the interval; the nearer one if both neighbours are. */
  lemma StopWithin(n0: int, d: int, i: nat, p: int, r: int, lo: int, hi: int, closed: bool)
    requires Divided(n0, d, i, p, r) && 0 <= r <= d && 0 < lo && 0 < hi
    ensures (if closed then r <= lo else r < lo) ==> Within(n0 * Pow(10, i), d, lo, hi, closed, p)
    ensures (if closed then r + hi >= d else r + hi > d) ==> Within(n0 * Pow(10, i), d, lo, hi, closed, p + 1)
  {
    assert (p + 1) * d == p * d + d;
  }

  /** Where the shortest mode goes on, no point of the interval has so few digits. */
  lemma GoOnEmpty(n0: int, d: int, i: nat, p: int, r: int, lo: int, hi: int, closed: bool, q: int)
    requires Divided(n0, d, i, p, r) && d > 0
    requires !(if closed then r <= lo else r < lo)
    requires !(if closed then r + hi >= d else r + hi > d)
    ensures !Within(n0 * Pow(10, i), d, lo, hi, closed, q)
  {
    if q <= p {
      MulLe(q, p, d);
    } else {
      MulLe(p + 1, q, d);
      assert (p + 1) * d == p * d + d;
    }
  }
}
