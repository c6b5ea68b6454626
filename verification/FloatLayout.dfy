/**
 * Laying out the decimal digits of a floating-point number in the four notations, and reading the
 * text back: it denotes the number, and its length is the size that was announced.
 */
module FloatLayout {
  import opened Outcomes
  import opened Powers
  import opened FormatSyntax
  import opened DecimalDigits

  datatype FloatFormat = General | Exponential | Fixed

  datatype FloatSpecs = FloatSpecs(precision: int, format: FloatFormat, sign: Sign, upper: bool, showpoint: bool)

  // ----- pieces of text -----

  predicate Digits(s: string) { forall i :: 0 <= i < |s| ==> IsDigit(s[i]) }

  /** The number a string of digits spells. */
  function NumberOf(s: string): nat
    requires Digits(s)
  {
    if s == "" then 0 else 10 * NumberOf(s[..|s| - 1]) + DigitOf(s[|s| - 1])
  }

  function Zeros(n: int): (z: string)
    ensures |z| == if n > 0 then n else 0
    ensures Digits(z)
    decreases n
  {
    if n <= 0 then "" else Zeros(n - 1) + "0"
  }

  lemma {:induction false} NumberAppend(a: string, b: string)
    requires Digits(a) && Digits(b)
    ensures Digits(a + b) && NumberOf(a + b) == NumberOf(a) * Pow(10, |b|) + NumberOf(b)
  {
    if b == "" {
      assert a + b == a;
    } else {
      var c := b[..|b| - 1];
      NumberAppend(a, c);
      assert (a + b)[..|a + b| - 1] == a + c;
      assert Pow(10, |b|) == 10 * Pow(10, |c|);
      TenFold(NumberOf(a), Pow(10, |c|));
    }
  }

  lemma TenFold(n: int, p: int)
    ensures 10 * (n * p) == n * (10 * p)
  {
  }

  lemma {:induction false} NumberZeros(n: int)
    ensures NumberOf(Zeros(n)) == 0
  {
    if n > 0 {
      NumberZeros(n - 1);
      assert Zeros(n)[..n - 1] == Zeros(n - 1);
    }
  }

  /** A sign and at least two digits. */
  function ExponentText(exp: int): string
    requires -10000 < exp < 10000
  {
    var e := if exp < 0 then -exp else exp;
    (if exp < 0 then "-" else "+")
    + (if e >= 100 then (if e >= 1000 then [Digits2(e / 100)[0]] else "") + [Digits2(e / 100)[1]] else "")
    + Digits2(e % 100)
  }

  function Abs(x: int): nat { if x < 0 then -x else x }

  lemma ExponentSpells(exp: int)
    requires -10000 < exp < 10000
    ensures var t := ExponentText(exp);
            |t| == 1 + (if Abs(exp) >= 1000 then 4 else if Abs(exp) >= 100 then 3 else 2) &&
            t[0] == (if exp < 0 then '-' else '+') && Digits(t[1..]) && NumberOf(t[1..]) == Abs(exp)
  {
    var e, t := Abs(exp), ExponentText(exp);
    ExponentParts(exp);
    hide ExponentText, Digits2, NumberOf, Digits, Hundreds, Pow;
    TwoDigitsSpell(e % 100);
    if e >= 100 {
      HundredsSpell(e / 100);
      HundredTimes(Hundreds(e / 100), Digits2(e % 100));
    }
  }

  lemma ExponentParts(exp: int)
    requires -10000 < exp < 10000
    ensures var e, t := Abs(exp), ExponentText(exp);
            && |t| == 1 + (if e >= 1000 then 4 else if e >= 100 then 3 else 2)
            && t[0] == (if exp < 0 then '-' else '+')
            && t[1..] == if e >= 100 then Hundreds(e / 100) + Digits2(e % 100) else Digits2(e % 100)
  {
    hide Digits2;
    var e, t := Abs(exp), ExponentText(exp);
    assert t[1..] == (if e >= 100 then Hundreds(e / 100) else "") + Digits2(e % 100);
    assert "" + Digits2(e % 100) == Digits2(e % 100);
  }

  lemma HundredTimes(a: string, b: string)
    requires Digits(a) && Digits(b) && |b| == 2
    ensures Digits(a + b) && NumberOf(a + b) == 100 * NumberOf(a) + NumberOf(b)
  {
    NumberAppend(a, b);
    assert Pow(10, 2) == 100;
  }

  /** The digits of an exponent above the last two. */
  function Hundreds(h: nat): string
    requires 1 <= h < 100
  {
    if h >= 10 then Digits2(h) else [Digits2(h)[1]]
  }

  lemma HundredsSpell(h: nat)
    requires 1 <= h < 100
    ensures Digits(Hundreds(h)) && NumberOf(Hundreds(h)) == h
  {
    TwoDigitsSpell(h);
    OneDigitSpells([Digits2(h)[1]]);
  }

  lemma OneDigitSpells(s: string)
    requires |s| == 1 && Digits(s)
    ensures NumberOf(s) == DigitOf(s[0])
  {
    assert s[..0] == "";
  }

  lemma TwoDigitsSpell(v: nat)
    requires v < 100
    ensures Digits(Digits2(v)) && NumberOf(Digits2(v)) == v
    ensures DigitOf(Digits2(v)[1]) == v % 10
  {
    var s := Digits2(v);
    assert s[..1] == [s[0]];
    OneDigitSpells([s[0]]);
  }

  // ----- the layout -----

  /** The text, and the size announced before it is written. */
  datatype Laid = Laid(text: string, size: int)

  function UseExpFormat(outputExp: int, specs: FloatSpecs): bool {
    match specs.format
    case Exponential => true
    case Fixed => false
    case General => outputExp < -4 || outputExp >= (if specs.precision > 0 then specs.precision else 16)
  }

  /** What the writer asks of its callers: digits, at least one where one is shown before the point. */
  predicate Writable(sig: string, exponent: int, specs: FloatSpecs) {
    Digits(sig) && (UseExpFormat(exponent + |sig| - 1, specs) ==> sig != "" && -10000 < exponent + |sig| - 1 < 10000)
  }

  function Count(b: bool): int { if b then 1 else 0 }

  /** d.ddde+dd */
  function ExpNotation(sig: string, exponent: int, specs: FloatSpecs, point: char): Laid
    requires sig != "" && -10000 < exponent + |sig| - 1 < 10000
  {
    var outputExp := exponent + |sig| - 1;
    var numZeros := if specs.showpoint && specs.precision > |sig| then specs.precision - |sig| else 0;
    var pointed := specs.showpoint || |sig| != 1;
    var expDigits := if Abs(outputExp) >= 100 then (if Abs(outputExp) >= 1000 then 4 else 3) else 2;
    Laid(
      SignText(specs.sign) + sig[..1] + (if pointed then [point] + sig[1..] else "") + Zeros(numZeros)
      + (if specs.upper then "E" else "e") + ExponentText(outputExp),
      |sig| + Count(!specs.sign.NoSign?) + numZeros + Count(pointed) + 2 + expDigits)
  }

  /** 1234e5 as 123400000[.0+] */
  function IntegerNotation(sig: string, exponent: int, specs: FloatSpecs, point: char): Laid {
    var zeros := specs.precision - (exponent + |sig|);
    var numZeros := if specs.showpoint && zeros <= 0 && !specs.format.Fixed? then 1 else zeros;
    Laid(
      SignText(specs.sign) + sig + Zeros(exponent) + (if specs.showpoint then [point] + Zeros(numZeros) else ""),
      |sig| + Count(!specs.sign.NoSign?) + exponent
      + if specs.showpoint then 1 + (if numZeros > 0 then numZeros else 0) else 0)
  }

  /** 1234e-2 as 12.34[0+] */
  function PointNotation(sig: string, exponent: int, specs: FloatSpecs, point: char): Laid
    requires exponent < 0 < exponent + |sig|
  {
    var exp := exponent + |sig|;
    var numZeros := if specs.showpoint then specs.precision - |sig| else 0;
    Laid(
      SignText(specs.sign) + sig[..exp] + [point] + sig[exp..] + Zeros(numZeros),
      |sig| + Count(!specs.sign.NoSign?) + 1 + (if numZeros > 0 then numZeros else 0))
  }

  /** 1234e-6 as 0.001234 */
  function FractionNotation(sig: string, exponent: int, specs: FloatSpecs, point: char): Laid
    requires exponent + |sig| <= 0
  {
    var all := -(exponent + |sig|);
    var numZeros := if |sig| == 0 && 0 <= specs.precision < all then specs.precision else all;
    var pointy := numZeros != 0 || |sig| != 0 || specs.showpoint;
    Laid(
      SignText(specs.sign) + "0" + (if pointy then [point] + Zeros(numZeros) + sig else ""),
      |sig| + Count(!specs.sign.NoSign?) + 1 + Count(pointy) + numZeros)
  }

  function Layout(sig: string, exponent: int, specs: FloatSpecs, point: char): Laid
    requires Writable(sig, exponent, specs)
  {
    if UseExpFormat(exponent + |sig| - 1, specs) then ExpNotation(sig, exponent, specs, point)
    else if exponent >= 0 then IntegerNotation(sig, exponent, specs, point)
    else if exponent + |sig| > 0 then PointNotation(sig, exponent, specs, point)
    else FractionNotation(sig, exponent, specs, point)
  }

  /** In every notation exactly as many code units are written as were announced. */
  lemma SizeIsLength(sig: string, exponent: int, specs: FloatSpecs, point: char)
    requires Writable(sig, exponent, specs)
    ensures |Layout(sig, exponent, specs, point).text| == Layout(sig, exponent, specs, point).size
  {
    hide Zeros, ExponentText;
    if UseExpFormat(exponent + |sig| - 1, specs) {
      ExpSize(sig, exponent, specs, point);
    } else if exponent >= 0 {
      assert |IntegerNotation(sig, exponent, specs, point).text| == IntegerNotation(sig, exponent, specs, point).size;
    } else if exponent + |sig| > 0 {
      assert |PointNotation(sig, exponent, specs, point).text| == PointNotation(sig, exponent, specs, point).size;
    } else {
      assert |FractionNotation(sig, exponent, specs, point).text| == FractionNotation(sig, exponent, specs, point).size;
    }
  }

  lemma ExpSize(sig: string, exponent: int, specs: FloatSpecs, point: char)
    requires sig != "" && -10000 < exponent + |sig| - 1 < 10000
    ensures |ExpNotation(sig, exponent, specs, point).text| == ExpNotation(sig, exponent, specs, point).size
  {
    hide Zeros;
    ExponentSpells(exponent + |sig| - 1);
    hide ExponentText;
  }

  // ----- reading -----

  /** The mantissa as an integer, and the power of ten it is to be multiplied by. */
  datatype Reading = Reading(negative: bool, mantissa: int, scale: int)

  /** Where a fraction after the point ends. */
  function FractionEnd(s: string, a: nat, point: char): (b: nat)
    requires a <= |s|
    ensures a <= b <= |s|
  {
    if a < |s| && s[a] == point then DigitsEnd(s, a + 1) else a
  }

  lemma FractionIsDigits(s: string, a: nat, point: char)
    requires a <= |s|
    ensures a < FractionEnd(s, a, point) ==> Digits(s[a + 1..FractionEnd(s, a, point)])
  {
    if a < |s| { DigitsAreDigits(s, a + 1); }
  }

  /** Sign, digits, point, digits, and an exponent that reaches to the end. */
  function Read(s: string, point: char): Option<Reading> {
    var i := if s != "" && (s[0] == '-' || s[0] == '+' || s[0] == ' ') then 1 else 0;
    var a := DigitsEnd(s, i);
    var b := FractionEnd(s, a, point);
    var fraction := if a < b then s[a + 1..b] else "";
    DigitsAreDigits(s, i);
    FractionIsDigits(s, a, point);
    var digits := s[i..a] + fraction;
    if i == a then None
    else
      var negative := s != "" && s[0] == '-';
      var mantissa := NumberOf(digits);
      if b == |s| then Some(Reading(negative, mantissa, -|fraction|))
      else if (s[b] == 'e' || s[b] == 'E') && b + 2 < |s| && (s[b + 1] == '-' || s[b + 1] == '+')
           && Digits(s[b + 2..]) then
        var e: int := NumberOf(s[b + 2..]);
        Some(Reading(negative, mantissa, (if s[b + 1] == '-' then -e else e) - |fraction|))
      else None
  }

  /** m * 10^e and n * 10^f are the same number. */
  predicate SameNumber(m: int, e: int, n: int, f: int) {
    if e <= f then m == n * Pow(10, f - e) else m * Pow(10, e - f) == n
  }

  /** The text reads as the number with this sign, significand and exponent. */
  predicate Denotes(text: string, point: char, sign: Sign, sig: string, exponent: int)
    requires Digits(sig)
  {
    match Read(text, point)
    case None => false
    case Some(r) => r.negative == sign.Minus? && SameNumber(r.mantissa, r.scale, NumberOf(sig), exponent)
  }

  // ----- how laid-out text is read -----

  /** No digit, sign or exponent character. */
  predicate PointChar(point: char) {
    !IsDigit(point) && point != 'e' && point != 'E' && point != '-' && point != '+' && point != ' '
  }

  lemma {:induction false} DigitsEndAt(s: string, a: nat, e: nat)
    requires a <= e <= |s| && (forall i :: a <= i < e ==> IsDigit(s[i])) && (e < |s| ==> !IsDigit(s[e]))
    ensures DigitsEnd(s, a) == e
    decreases e - a
  {
    if a < e { DigitsEndAt(s, a + 1, e); }
  }

  /** Text put together from a sign, digits, an optional fraction and an optional exponent. */
  function Assembled(sign: Sign, whole: string, pointed: bool, fraction: string, tail: string, point: char): string {
    SignText(sign) + whole + (if pointed then [point] + fraction else "") + tail
  }

  /** The tail is an exponent of this value, or nothing. */
  predicate ExponentTail(tail: string, e: int) {
    if tail == "" then e == 0
    else
      |tail| > 2 && (tail[0] == 'e' || tail[0] == 'E') && (tail[1] == '-' || tail[1] == '+') &&
      Digits(tail[2..]) && e == NumberOf(tail[2..]) * (if tail[1] == '-' then -1 else 1)
  }

  /** Four texts put together are found again at their places. */
  lemma FourParts(p: string, w: string, q: string, t: string, s: string)
    requires s == p + w + q + t
    ensures |s| == |p| + |w| + |q| + |t|
    ensures forall k :: 0 <= k < |p| ==> s[k] == p[k]
    ensures s[|p|..|p| + |w|] == w && forall k :: |p| <= k < |p| + |w| ==> s[k] == w[k - |p|]
    ensures forall k :: |p| + |w| <= k < |p| + |w| + |q| ==> s[k] == q[k - |p| - |w|]
    ensures s[|p| + |w|..|p| + |w| + |q|] == q && s[|p| + |w| + |q|..] == t
  {
  }

  lemma SignIsNoDigit(sign: Sign, w: string)
    requires w != "" && Digits(w)
    ensures var first := if |SignText(sign)| > 0 then SignText(sign)[0] else w[0];
            |SignText(sign)| == Count(first == '-' || first == '+' || first == ' ') && (first == '-' <==> sign.Minus?)
  {
  }

  /** Where the parts of laid-out text end. */
  lemma PartsEnd(p: string, w: string, q: string, t: string, s: string, point: char)
    requires s == p + w + q + t && w != "" && Digits(w) && PointChar(point)
    requires q == "" || (q[0] == point && Digits(q[1..]))
    requires t == "" || t[0] == 'e' || t[0] == 'E'
    ensures DigitsEnd(s, |p|) == |p| + |w|
    ensures FractionEnd(s, |p| + |w|, point) == |p| + |w| + |q|
  {
    var a, b := |p| + |w|, |p| + |w| + |q|;
    FourParts(p, w, q, t, s);
    assert b < |s| ==> s[b] == s[b..][0];
    assert a < |s| ==> !IsDigit(s[a]);
    DigitsEndAt(s, |p|, a);
    if q != "" {
      assert s[a] == point;
      forall k | a < k < b ensures IsDigit(s[k]) {
        assert s[k] == q[k - a] == q[1..][k - a - 1];
      }
      DigitsEndAt(s, a + 1, b);
    }
  }

  /** Text assembled from its parts reads as the number they spell. */
  lemma ReadsAssembled(
      sign: Sign, whole: string, pointed: bool, fraction: string, tail: string, point: char, e: int)
    requires whole != "" && Digits(whole) && Digits(fraction) && (!pointed ==> fraction == "")
    requires PointChar(point) && ExponentTail(tail, e)
    ensures Digits(whole + fraction)
    ensures Read(Assembled(sign, whole, pointed, fraction, tail, point), point) ==
              Some(Reading(sign.Minus?, NumberOf(whole + fraction), e - |fraction|))
  {
    var p := SignText(sign);
    var q := if pointed then [point] + fraction else "";
    var s := p + whole + q + tail;
    assert s == Assembled(sign, whole, pointed, fraction, tail, point);
    assert pointed ==> q[1..] == fraction;
    PartsEnd(p, whole, q, tail, s, point);
    FourParts(p, whole, q, tail, s);
    SignIsNoDigit(sign, whole);
    assert s[0] == if |p| > 0 then p[0] else whole[0];
    ReadsParts(s, |p|, |p| + |whole|, |p| + |whole| + |q|, whole, fraction, tail, point, e);
  }

  /** Reading when the places of the parts are known. */
  lemma ReadsParts(
      s: string, i: nat, a: nat, b: nat, whole: string, fraction: string, tail: string, point: char, e: int)
    requires i < a <= b <= |s| && i == Count(s[0] == '-' || s[0] == '+' || s[0] == ' ')
    requires DigitsEnd(s, i) == a && FractionEnd(s, a, point) == b
    requires s[i..a] == whole && fraction == (if a < b then s[a + 1..b] else "") && s[b..] == tail
    requires Digits(whole) && Digits(fraction) && ExponentTail(tail, e)
    ensures Digits(whole + fraction)
    ensures Read(s, point) == Some(Reading(s[0] == '-', NumberOf(whole + fraction), e - |fraction|))
  {
    hide DigitsEnd, NumberOf, FractionEnd;
    DigitsAreDigits(s, i);
    FractionIsDigits(s, a, point);
    if tail != "" {
      assert s[b] == tail[0] && s[b + 1] == tail[1] && s[b + 2..] == tail[2..];
    }
  }

  // ----- the four notations denote the number -----

  /** Zeros behind the digits are a power of ten. */
  lemma TrailingZeros(sig: string, n: int)
    requires Digits(sig)
    ensures Digits(sig + Zeros(n)) && NumberOf(sig + Zeros(n)) == NumberOf(sig) * Pow(10, |Zeros(n)|)
  {
    NumberAppend(sig, Zeros(n));
    NumberZeros(n);
  }

  lemma LeadingZeros(n: int, sig: string)
    requires Digits(sig)
    ensures Digits(Zeros(n) + sig) && NumberOf(Zeros(n) + sig) == NumberOf(sig)
  {
    NumberAppend(Zeros(n), sig);
    NumberZeros(n);
  }

  /** Reading the assembled text gives the number when its digits do. */
  lemma AssembledDenotes(sign: Sign, whole: string, pointed: bool, fraction: string, tail: string, point: char,
                         e: int, sig: string, exponent: int)
    requires whole != "" && Digits(whole) && Digits(fraction) && (!pointed ==> fraction == "") && Digits(sig)
    requires PointChar(point) && ExponentTail(tail, e) && Digits(whole + fraction)
    requires SameNumber(NumberOf(whole + fraction), e - |fraction|, NumberOf(sig), exponent)
    ensures Denotes(Assembled(sign, whole, pointed, fraction, tail, point), point, sign, sig, exponent)
  {
    hide Read, Assembled, SameNumber, NumberOf;
    ReadsAssembled(sign, whole, pointed, fraction, tail, point, e);
  }

  /** A fraction followed by zeros, and an exponent in two parts. */
  lemma Regroup(s: string, w: string, q: string, z: string, e: string, x: string)
    ensures s + w + q + z + e + x == s + w + (q + z) + (e + x)
  {
  }

  /** Zeros behind the digits are made up for by the scale. */
  lemma ScaledZeros(digits: string, sig: string, n: int, exponent: int)
    requires Digits(sig) && digits == sig + Zeros(n)
    ensures Digits(digits) && SameNumber(NumberOf(digits), exponent - |Zeros(n)|, NumberOf(sig), exponent)
  {
    TrailingZeros(sig, n);
  }

  function ExpTail(outputExp: int, upper: bool): string
    requires -10000 < outputExp < 10000
  {
    (if upper then "E" else "e") + ExponentText(outputExp)
  }

  lemma ExpTailSpells(outputExp: int, upper: bool)
    requires -10000 < outputExp < 10000
    ensures ExponentTail(ExpTail(outputExp, upper), outputExp)
  {
    ExponentSpells(outputExp);
    hide ExponentText;
    var t := ExpTail(outputExp, upper);
    assert t[2..] == ExponentText(outputExp)[1..];
  }

  lemma ExpDenotes(sig: string, exponent: int, specs: FloatSpecs, point: char)
    requires Digits(sig) && sig != "" && -10000 < exponent + |sig| - 1 < 10000 && PointChar(point)
    ensures Denotes(ExpNotation(sig, exponent, specs, point).text, point, specs.sign, sig, exponent)
  {
    hide Zeros, NumberOf, ExponentText, ExpTail, Denotes, SameNumber, ExponentTail;
    var outputExp := exponent + |sig| - 1;
    var numZeros := if specs.showpoint && specs.precision > |sig| then specs.precision - |sig| else 0;
    var pointed := specs.showpoint || |sig| != 1;
    var fraction := if pointed then sig[1..] + Zeros(numZeros) else "";
    ExpText(sig, exponent, specs, point, pointed, fraction);
    ExpTailSpells(outputExp, specs.upper);
    assert sig[..1] + fraction == sig + Zeros(numZeros) by { assert sig == sig[..1] + sig[1..]; }
    ScaledZeros(sig[..1] + fraction, sig, numZeros, exponent);
    AssembledDenotes(specs.sign, sig[..1], pointed, fraction, ExpTail(outputExp, specs.upper), point,
                     outputExp, sig, exponent);
  }

  lemma ExpText(sig: string, exponent: int, specs: FloatSpecs, point: char, pointed: bool, fraction: string)
    requires sig != "" && -10000 < exponent + |sig| - 1 < 10000 && pointed == (specs.showpoint || |sig| != 1)
    requires var numZeros := if specs.showpoint && specs.precision > |sig| then specs.precision - |sig| else 0;
             fraction == if pointed then sig[1..] + Zeros(numZeros) else ""
    ensures ExpNotation(sig, exponent, specs, point).text ==
              Assembled(specs.sign, sig[..1], pointed, fraction, ExpTail(exponent + |sig| - 1, specs.upper), point)
  {
    hide Zeros, ExponentText, SignText;
    var numZeros := if specs.showpoint && specs.precision > |sig| then specs.precision - |sig| else 0;
    var z, e, x := Zeros(numZeros), if specs.upper then "E" else "e", ExponentText(exponent + |sig| - 1);
    var q := if pointed then [point] + sig[1..] else "";
    var r := if pointed then [point] + fraction else "";
    assert q + z == r by { PointFirst(point, sig[1..], z); }
    var a, w := SignText(specs.sign), sig[..1];
    Regroup(a, w, q, z, e, x);
    assert ExpNotation(sig, exponent, specs, point).text == a + w + q + z + e + x;
    assert Assembled(specs.sign, w, pointed, fraction, e + x, point) == a + w + r + (e + x);
  }

  lemma PointFirst(point: char, r: string, z: string)
    ensures [point] + r + z == [point] + (r + z)
    ensures |z| == 0 ==> "" + z == ""
  {
  }

  lemma IntegerDenotes(sig: string, exponent: int, specs: FloatSpecs, point: char)
    requires Digits(sig) && exponent >= 0 && (sig != "" || exponent > 0) && PointChar(point)
    ensures Denotes(IntegerNotation(sig, exponent, specs, point).text, point, specs.sign, sig, exponent)
  {
    hide Zeros, NumberOf, Denotes, SameNumber, SignText, Pow;
    var zeros := specs.precision - (exponent + |sig|);
    var numZeros := if specs.showpoint && zeros <= 0 && !specs.format.Fixed? then 1 else zeros;
    var fraction := if specs.showpoint then Zeros(numZeros) else "";
    var whole := sig + Zeros(exponent);
    WholeZeros(sig, exponent, if specs.showpoint then numZeros else 0, whole + fraction);
    assert SignText(specs.sign) + sig + Zeros(exponent) == SignText(specs.sign) + whole;
    assert IntegerNotation(sig, exponent, specs, point).text ==
           Assembled(specs.sign, whole, specs.showpoint, fraction, "", point);
    AssembledDenotes(specs.sign, whole, specs.showpoint, fraction, "", point, 0, sig, exponent);
  }

  /** Zeros of the integer part and zeros behind the point. */
  lemma WholeZeros(sig: string, exponent: int, n: int, digits: string)
    requires Digits(sig) && exponent >= 0 && digits == sig + Zeros(exponent) + Zeros(n)
    ensures Digits(digits) && SameNumber(NumberOf(digits), -|Zeros(n)|, NumberOf(sig), exponent)
  {
    hide *;
    var whole, z := sig + Zeros(exponent), |Zeros(n)|;
    TrailingZeros(sig, exponent);
    TrailingZeros(whole, n);
    PowAdd(10, exponent, z);
    Product(NumberOf(digits), NumberOf(whole), NumberOf(sig), Pow(10, exponent), Pow(10, z));
    ScaledDown(NumberOf(digits), z, NumberOf(sig), exponent);
  }

  lemma ScaledDown(m: int, z: nat, n: int, exponent: nat)
    requires m == n * Pow(10, exponent + z)
    ensures SameNumber(m, 0 - z, n, exponent)
  {
  }

  lemma Product(m: int, k: int, n: int, a: int, b: int)
    requires m == k * b && k == n * a
    ensures m == n * (a * b)
  {
    MulAssoc(n, a, b);
  }

  lemma PointDenotes(sig: string, exponent: int, specs: FloatSpecs, point: char)
    requires Digits(sig) && exponent < 0 < exponent + |sig| && PointChar(point)
    ensures Denotes(PointNotation(sig, exponent, specs, point).text, point, specs.sign, sig, exponent)
  {
    hide Zeros, NumberOf, Denotes, SameNumber, SignText;
    var exp := exponent + |sig|;
    var numZeros := if specs.showpoint then specs.precision - |sig| else 0;
    var fraction := sig[exp..] + Zeros(numZeros);
    assert sig[..exp] + fraction == sig + Zeros(numZeros) by { assert sig == sig[..exp] + sig[exp..]; }
    ScaledZeros(sig[..exp] + fraction, sig, numZeros, exponent);
    assert PointNotation(sig, exponent, specs, point).text ==
           Assembled(specs.sign, sig[..exp], true, fraction, "", point);
    AssembledDenotes(specs.sign, sig[..exp], true, fraction, "", point, 0, sig, exponent);
  }

  lemma FractionDenotes(sig: string, exponent: int, specs: FloatSpecs, point: char)
    requires Digits(sig) && exponent + |sig| <= 0 && PointChar(point)
    ensures Denotes(FractionNotation(sig, exponent, specs, point).text, point, specs.sign, sig, exponent)
  {
    hide Zeros, NumberOf, Denotes, SameNumber, SignText;
    var all := -(exponent + |sig|);
    var numZeros := if |sig| == 0 && 0 <= specs.precision < all then specs.precision else all;
    var pointy := numZeros != 0 || |sig| != 0 || specs.showpoint;
    var fraction := if pointy then Zeros(numZeros) + sig else "";
    ZeroWhole(sig, numZeros, fraction, pointy, exponent);
    assert FractionNotation(sig, exponent, specs, point).text ==
           Assembled(specs.sign, "0", pointy, fraction, "", point) by {
      assert [point] + Zeros(numZeros) + sig == [point] + (Zeros(numZeros) + sig);
    }
    AssembledDenotes(specs.sign, "0", pointy, fraction, "", point, 0, sig, exponent);
  }

  lemma ZeroWhole(sig: string, n: int, fraction: string, pointy: bool, exponent: int)
    requires Digits(sig) && n >= 0 && fraction == (if pointy then Zeros(n) + sig else "") && (!pointy ==> sig == "")
    requires sig != "" ==> exponent == -(n + |sig|)
    ensures Digits(fraction) && Digits("0" + fraction)
    ensures SameNumber(NumberOf("0" + fraction), -|fraction|, NumberOf(sig), exponent)
  {
    LeadingZeros(n, sig);
    assert Zeros(1) == "0";
    assert NumberOf("") == 0;
    LeadingZeros(1, fraction);
    assert NumberOf("0" + fraction) == NumberOf(sig);
    hide Zeros, NumberOf;
    if sig == "" { assert NumberOf(sig) == NumberOf(""); }
  }

  /**
   * In every notation the text denotes the number, sign, significand and exponent, exactly unless no
   * digit at all was given for an integer.
   */
  lemma LayoutDenotes(sig: string, exponent: int, specs: FloatSpecs, point: char)
    requires Writable(sig, exponent, specs) && PointChar(point)
    ensures Denotes(Layout(sig, exponent, specs, point).text, point, specs.sign, sig, exponent) <==>
              sig != "" || exponent != 0
  {
    hide ExpNotation, IntegerNotation, PointNotation, FractionNotation, Denotes;
    if UseExpFormat(exponent + |sig| - 1, specs) {
      ExpDenotes(sig, exponent, specs, point);
    } else if exponent >= 0 {
      if sig != "" || exponent > 0 {
        IntegerDenotes(sig, exponent, specs, point);
      } else {
        NoDigits(sig, exponent, specs, point);
      }
    } else if exponent + |sig| > 0 {
      PointDenotes(sig, exponent, specs, point);
    } else {
      FractionDenotes(sig, exponent, specs, point);
    }
  }

  lemma NoDigits(sig: string, exponent: int, specs: FloatSpecs, point: char)
    requires sig == "" && exponent == 0 && PointChar(point)
    ensures !Denotes(IntegerNotation(sig, exponent, specs, point).text, point, specs.sign, sig, exponent)
  {
    var text := IntegerNotation(sig, exponent, specs, point).text;
    var i := |SignText(specs.sign)|;
    assert |text| > i ==> text[i] == point;
    assert DigitsEnd(text, i) == i;
  }

  // ----- digits of an integer significand around the point -----

  lemma LastDigits(n: nat)
    ensures |Decimal(n)| >= 1
    ensures |Decimal(n)| >= 3 ==> Decimal(n) == Decimal(n / 100) + Digits2(n % 100)
    ensures |Decimal(n)| >= 2 ==> Decimal(n) == Decimal(n / 10) + [DigitChar(n % 10)]
  {
    TwoDigits(n);
  }

  /** The fraction, written backwards in pairs; what is left of the significand is the integral part. */
  method WriteFraction(buffer: array<char>, significand0: nat, size: nat, integralSize: nat)
    returns (significand: nat, ghost rest: string)
    requires size == |Decimal(significand0)| && 1 <= integralSize <= size && buffer.Length == size + 1
    modifies buffer
    ensures Decimal(significand0) == Decimal(significand) + rest && |Decimal(significand)| == integralSize
    ensures Holds(buffer[..], old(buffer[..]), integralSize + 1, rest, size + 1)
  {
    hide *;
    significand, rest := significand0, "";
    ghost var was := buffer[..];
    HoldsNone(was, size + 1);
    assert Decimal(significand0) == Decimal(significand) + rest;
    var floatingSize, out := size - integralSize, size + 1;
    var i := floatingSize / 2;
    while i > 0
      invariant i >= 0 && out == size + 1 - |rest| && |rest| + 2 * i + floatingSize % 2 == floatingSize
      invariant Decimal(significand0) == Decimal(significand) + rest
      invariant Holds(buffer[..], was, out, rest, size + 1)
      decreases i
    {
      LastDigits(significand);
      var pair := Digits2(significand % 100);
      Rejoin(Decimal(significand0), Decimal(significand), Decimal(significand / 100), pair, rest);
      PutPair(buffer, out, pair, was, rest, size + 1);
      out, rest, significand := out - 2, pair + rest, significand / 100;
      i := i - 1;
    }
    if floatingSize % 2 != 0 {
      LastDigits(significand);
      var last := [DigitChar(significand % 10)];
      Rejoin(Decimal(significand0), Decimal(significand), Decimal(significand / 10), last, rest);
      PutChar(buffer, out, last[0], was, rest, size + 1);
      out, rest, significand := out - 1, last + rest, significand / 10;
    }
  }

  /** The digits around the point: the fraction, the point, then the integral part in front. */
  method WriteSignificand(buffer: array<char>, significand0: nat, size: nat, integralSize: nat, point: char)
    requires size == |Decimal(significand0)| && 1 <= integralSize <= size && buffer.Length == size + 1
    modifies buffer
    ensures buffer[..] == Decimal(significand0)[..integralSize] + [point] + Decimal(significand0)[integralSize..]
  {
    hide *;
    ghost var was := buffer[..];
    var significand, rest := WriteFraction(buffer, significand0, size, integralSize);
    PutChar(buffer, integralSize + 1, point, was, rest, size + 1);
    DecimalLength(significand);
    ghost var before := buffer[..];
    var begin := FormatDecimal(buffer, significand, integralSize);
    AroundPoint(buffer[..], before, was, Decimal(significand), rest, point, integralSize, size);
    assert Decimal(significand0)[..integralSize] == Decimal(significand);
    assert Decimal(significand0)[integralSize..] == rest;
  }

  lemma AroundPoint(b: string, before: string, was: string, whole: string, rest: string, point: char, k: nat, size: nat)
    requires Holds(before, was, k, [point] + rest, size + 1) && |was| == size + 1
    requires Holds(b, before, 0, whole, k)
    ensures b == whole + [point] + rest
  {
    assert before[k..] == [point] + rest;
  }

  // ----- padding -----

  function Repeated(fill: string, n: nat): (s: string)
    ensures |s| == n * |fill|
  {
    if n == 0 then "" else fill + Repeated(fill, n - 1)
  }

  /** The columns missing to the width go left of the text, right of it, or half and half. */
  function Padded(laid: Laid, width: nat, align: Align, fill: string): string {
    var padding := if width > laid.size >= 0 then width - laid.size else 0;
    var left := if align.Left? then 0 else if align.Center? then padding / 2 else padding;
    Repeated(fill, left) + laid.text + Repeated(fill, padding - left)
  }

  /** With the announced size right, the padded text reserves exactly what is written. */
  lemma PaddedLength(sig: string, exponent: int, specs: FloatSpecs, point: char, width: nat, align: Align, fill: string)
    requires Writable(sig, exponent, specs)
    ensures var laid := Layout(sig, exponent, specs, point);
            var padding := if width > laid.size then width - laid.size else 0;
            |Padded(laid, width, align, fill)| == laid.size + padding * |fill|
  {
    SizeIsLength(sig, exponent, specs, point);
    hide Layout, Repeated;
    var laid := Layout(sig, exponent, specs, point);
    var padding := if width > laid.size then width - laid.size else 0;
    var left := if align.Left? then 0 else if align.Center? then padding / 2 else padding;
    assert left * |fill| + (padding - left) * |fill| == padding * |fill|;
  }
}
