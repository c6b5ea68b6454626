/** The integer parser of cxxopts: accumulation in a word of the target's unsigned type. */
module IntegerParser {
  import opened Outcomes
  import opened Powers
  import opened DecimalDigits
  import opened BasedDigits

  /** A target type of 2 * half values, signed or not. */
  datatype Target = Target(half: int, signed: bool) {
    function Words(): int { 2 * half }
    function Min(): int { if signed then -half else 0 }
    function Max(): int { if signed then half - 1 else 2 * half - 1 }
    predicate Valid() { half >= 128 }
  }

  // ----- splitting -----

  /** The parts of the text: a minus sign, a hexadecimal prefix, the digits. */
  datatype IntegerDesc = IntegerDesc(negative: bool, hexadecimal: bool, digits: string) {
    function Base(): int { if hexadecimal then 16 else 10 }
  }

  function SplitInteger(text: string): Result<IntegerDesc> {
    var negative := |text| >= 1 && text[0] == '-';
    var s := if negative then text[1..] else text;
    var hexadecimal := |s| >= 2 && s[0] == '0' && s[1] == 'x';
    var digits := if hexadecimal then s[2..] else s;
    if digits == "" then Err("argument failed to parse") else Ok(IntegerDesc(negative, hexadecimal, digits))
  }

  /** The digits are neither empty nor such that a sign or a prefix would be taken off them. */
  predicate Unmistaken(d: IntegerDesc) {
    && d.digits != "" && (!d.negative && !d.hexadecimal ==> d.digits[0] != '-')
    && (!d.hexadecimal ==> |d.digits| == 1 || d.digits[..2] != "0x")
  }

  function Whole(d: IntegerDesc): string {
    (if d.negative then "-" else "") + ((if d.hexadecimal then "0x" else "") + d.digits)
  }

  /** A text is cut into a sign, a prefix and digits exactly if it is these, one behind the other. */
  lemma SplitExactly(text: string, d: IntegerDesc)
    ensures SplitInteger(text) == Ok(d) <==> text == Whole(d) && Unmistaken(d)
  {
    if text == Whole(d) { SplitsTo(d); }
    if SplitInteger(text) == Ok(d) { SplitsFrom(text, d); }
  }

  lemma SplitsTo(d: IntegerDesc)
    ensures SplitInteger(Whole(d)) == Ok(d) <==> Unmistaken(d)
  {
    var s, text := (if d.hexadecimal then "0x" else "") + d.digits, Whole(d);
    assert text[if d.negative then 1 else 0..] == s;
    assert s[if d.hexadecimal then 2 else 0..] == d.digits;
    assert |s| >= 2 ==> (s[..2] == "0x" <==> s[0] == '0' && s[1] == 'x');
  }

  lemma SplitsFrom(text: string, d: IntegerDesc)
    requires SplitInteger(text) == Ok(d)
    ensures text == Whole(d) && Unmistaken(d)
  {
    var s := if d.negative then text[1..] else text;
    assert d.negative ==> text == "-" + s;
    assert d.hexadecimal ==> s == "0x" + s[2..];
    assert |s| >= 2 ==> (s[..2] == "0x" <==> s[0] == '0' && s[1] == 'x');
  }

  // ----- digits -----

  function Digit(ch: char, base: int): Option<int> {
    if '0' <= ch <= '9' then Some(ch as int - '0' as int)
    else if base == 16 && 'a' <= ch <= 'f' then Some(ch as int - 'a' as int + 10)
    else if base == 16 && 'A' <= ch <= 'F' then Some(ch as int - 'A' as int + 10)
    else None
  }

  predicate AllDigits(s: string, base: int) { forall i :: 0 <= i < |s| ==> Digit(s[i], base).Some? }

  /** The number the first k digits denote. */
  function Value(s: string, base: int, k: nat): (v: int)
    requires k <= |s| && AllDigits(s, base) && base >= 0
    ensures v >= 0
  {
    if k == 0 then 0 else base * Value(s, base, k - 1) + Digit(s[k - 1], base).value
  }

  lemma {:induction false} ValueGrows(s: string, base: int, j: nat, k: nat)
    requires j <= k <= |s| && AllDigits(s, base) && base >= 10
    ensures Value(s, base, j) <= Value(s, base, k)
  {
    if j < k {
      ValueGrows(s, base, j, k - 1);
      Grows(base, Value(s, base, k - 1), Digit(s[k - 1], base).value);
    }
  }

  lemma Grows(base: int, v: int, d: int)
    requires base >= 1 && v >= 0 && d >= 0
    ensures base * v + d >= v
  {
    MulLe(1, base, v);
  }

  /** What the text stands for. */
  function Meant(d: IntegerDesc): int
    requires AllDigits(d.digits, d.Base())
  {
    var v := Value(d.digits, d.Base(), |d.digits|);
    if d.negative then -v else v
  }

  /** The digits are digits and their number fits the unsigned word. */
  predicate Fits(t: Target, d: IntegerDesc) {
    AllDigits(d.digits, d.Base()) && Value(d.digits, d.Base(), |d.digits|) < t.Words()
  }

  /**
   * What the wrap test lets through: the words of the growing number never step down. Every number that fits
   * is let through, and some that do not fit.
   */
  predicate Accepted(t: Target, d: IntegerDesc)
    requires t.Valid()
  {
    && AllDigits(d.digits, d.Base())
    && forall i :: 0 <= i < |d.digits| ==> Word(t, d, i) <= Word(t, d, i + 1)
  }

  /** The number of the first digits, cut to the unsigned word. */
  function Word(t: Target, d: IntegerDesc, k: nat): (w: int)
    requires t.Valid() && k <= |d.digits| && AllDigits(d.digits, d.Base())
    ensures 0 <= w < t.Words()
  {
    Value(d.digits, d.Base(), k) % t.Words()
  }

  /** The word read, with its sign, if the target holds it. */
  function Signed(t: Target, negative: bool, word: int): Result<int> {
    var m := if negative then -word else word;
    if t.Min() <= m <= t.Max() && (negative ==> t.signed) then Ok(m) else Err("argument failed to parse")
  }

  // ----- parsing -----

  /** The sign put back without leaving the signed type: the predecessor negated, less one. */
  function CheckedNegate(t: Target, u: int): (r: int)
    requires t.Valid() && 0 <= u <= t.half
    ensures r == -u
  {
    Reduced(u - 1, 2 * t.half);
    var before := (u - 1) % t.Words();
    var signedBefore := if before > t.half - 1 then before - t.Words() else before;
    -signedBefore - 1
  }

  lemma Reduced(x: int, w: int)
    requires w > 0 && -1 <= x < w
    ensures x % w == if x < 0 then w - 1 else x
  {
    if x < 0 { DivModUnique(x, w, -1, w - 1); } else { DivModUnique(x, w, 0, x); }
  }

  /** Cutting to the word before a digit is added or after makes no difference. */
  lemma ModStep(v: int, base: int, digit: int, w: int)
    requires w > 0 && v >= 0 && base >= 0 && digit >= 0
    ensures (v % w * base + digit) % w == (base * v + digit) % w
  {
    var r := v % w * base + digit;
    DivParts(v, w);
    MulLe(0, v % w, base);
    DivParts(r, w);
    calc {
      base * v + digit;
      v / w * w * base + r;
      { MulAssoc(v / w, w, base); MulAssoc(v / w, base, w); }
      v / w * base * w + r;
      (v / w * base + r / w) * w + r % w;
    }
    DivModUnique(base * v + digit, w, v / w * base + r / w, r % w);
  }

  lemma DigitAdded(t: Target, d: IntegerDesc, i: nat)
    requires t.Valid() && AllDigits(d.digits, d.Base()) && i < |d.digits|
    ensures (Word(t, d, i) * d.Base() + Digit(d.digits[i], d.Base()).value) % t.Words() == Word(t, d, i + 1)
  {
    ModStep(Value(d.digits, d.Base(), i), d.Base(), Digit(d.digits[i], d.Base()).value, t.Words());
  }

  /** A number that fits is never cut, so it is let through. */
  lemma FitsAccepted(t: Target, d: IntegerDesc)
    requires t.Valid() && Fits(t, d)
    ensures Accepted(t, d)
  {
    hide Value, Digit;
    forall i | 0 <= i < |d.digits| ensures Word(t, d, i) <= Word(t, d, i + 1) {
      ValueGrows(d.digits, d.Base(), i, i + 1);
      ValueGrows(d.digits, d.Base(), i + 1, |d.digits|);
      Reduced(Value(d.digits, d.Base(), i), t.Words());
      Reduced(Value(d.digits, d.Base(), i + 1), t.Words());
    }
  }

  /** What is let through is read as itself if and only if it fits. */
  lemma ExactIfFits(t: Target, d: IntegerDesc)
    requires t.Valid() && AllDigits(d.digits, d.Base())
    ensures Word(t, d, |d.digits|) == Value(d.digits, d.Base(), |d.digits|) <==> Fits(t, d)
  {
    hide Value;
    if Fits(t, d) { Reduced(Value(d.digits, d.Base(), |d.digits|), t.Words()); }
  }

  lemma WordStart(t: Target, d: IntegerDesc)
    requires t.Valid() && AllDigits(d.digits, d.Base())
    ensures Word(t, d, 0) == 0
  {
    hide Digit;
    Reduced(0, t.Words());
  }

  /** The accumulated word, which a step down or a character that is no digit stops. */
  method Accumulate(t: Target, d: IntegerDesc) returns (r: Result<int>)
    requires t.Valid()
    ensures !Accepted(t, d) ==> r == Err("argument failed to parse")
    ensures Accepted(t, d) ==> r == Ok(Word(t, d, |d.digits|))
  {
    hide Word, Digit;
    var base := d.Base();
    var result, i := 0, 0;
    if AllDigits(d.digits, base) { WordStart(t, d); }
    while i < |d.digits|
      invariant i <= |d.digits| && 0 <= result < t.Words()
      invariant forall j :: 0 <= j < i ==> Digit(d.digits[j], base).Some?
      invariant AllDigits(d.digits, base) ==> result == Word(t, d, i)
      invariant AllDigits(d.digits, base) ==> forall j :: 0 <= j < i ==> Word(t, d, j) <= Word(t, d, j + 1)
    {
      if AllDigits(d.digits, base) { DigitAdded(t, d, i); }
      var digit := Digit(d.digits[i], base);
      if digit.None? { return Err("argument failed to parse"); }
      var next := (result * base + digit.value) % t.Words();
      if result > next { return Err("argument failed to parse"); }
      result := next;
      i := i + 1;
    }
    r := Ok(result);
  }

  /**
   * What is read of every text: the word let through, with its sign. It is the number that is written if and
   * only if the digits fit the unsigned word.
   */
  method Parse(t: Target, d: IntegerDesc) returns (r: Result<int>)
    requires t.Valid()
    ensures !Accepted(t, d) ==> r == Err("argument failed to parse")
    ensures Accepted(t, d) ==> r == Signed(t, d.negative, Word(t, d, |d.digits|))
    ensures Fits(t, d) ==> r == Signed(t, d.negative, Value(d.digits, d.Base(), |d.digits|))
    ensures r.Ok? ==> AllDigits(d.digits, d.Base()) && (r.value == Meant(d) <==> Fits(t, d))
  {
    hide Accepted, Value, AllDigits, Word, Fits;
    AcceptedDigits(t, d);
    var word := Accumulate(t, d);
    if word.Err? { return Err("argument failed to parse"); }
    ExactIfFits(t, d);
    if t.signed && word.value > (if d.negative then t.half else t.half - 1) {
      return Err("argument failed to parse");
    }
    if d.negative {
      if !t.signed { return Err("argument failed to parse"); }
      return Ok(CheckedNegate(t, word.value));
    }
    r := word;
  }

  lemma AcceptedDigits(t: Target, d: IntegerDesc)
    requires t.Valid()
    ensures Accepted(t, d) ==> AllDigits(d.digits, d.Base())
    ensures Fits(t, d) ==> Accepted(t, d)
  {
    if Fits(t, d) { FitsAccepted(t, d); }
  }

  method ParseText(t: Target, text: string) returns (r: Result<int>)
    requires t.Valid()
    ensures SplitInteger(text).Err? || !Accepted(t, SplitInteger(text).value) ==> r.Err?
    ensures SplitInteger(text).Ok? && Accepted(t, SplitInteger(text).value) ==>
              var d := SplitInteger(text).value; r == Signed(t, d.negative, Word(t, d, |d.digits|))
    ensures SplitInteger(text).Ok? && Fits(t, SplitInteger(text).value) ==>
              var d := SplitInteger(text).value; r == Signed(t, d.negative, Value(d.digits, d.Base(), |d.digits|))
  {
    hide Accepted, Value, AllDigits, Word, Fits;
    var desc := SplitInteger(text);
    if desc.Err? { return Err(desc.message); }
    r := Parse(t, desc.value);
  }

  const TOO_BIG := "17179869180"

  lemma TooBigValues()
    ensures AllDigits(TOO_BIG, 10) && |TOO_BIG| == 11
    ensures Value(TOO_BIG, 10, 10) == 1717986918 && Value(TOO_BIG, 10, 11) == 17179869180
  {
    var s := TOO_BIG;
    assert Value(s, 10, 0) == 0 && Value(s, 10, 1) == 1 && Value(s, 10, 2) == 17 && Value(s, 10, 3) == 171;
    assert Value(s, 10, 4) == 1717 && Value(s, 10, 5) == 17179 && Value(s, 10, 6) == 171798;
    assert Value(s, 10, 7) == 1717986 && Value(s, 10, 8) == 17179869 && Value(s, 10, 9) == 171798691;
  }

  /** The wrap test lets a number through that a 32-bit word cannot hold, and it is read as another one. */
  lemma WrapNotNoticed()
    ensures var t, d := Target(0x8000_0000, false), IntegerDesc(false, false, TOO_BIG);
            Accepted(t, d) && !Fits(t, d) && Signed(t, false, Word(t, d, 11)) == Ok(4294967292)
  {
    var t, d := Target(0x8000_0000, false), IntegerDesc(false, false, TOO_BIG);
    TooBigValues();
    hide TOO_BIG, Digit, Value, AllDigits;
    forall i | 0 <= i < |d.digits| ensures Word(t, d, i) <= Word(t, d, i + 1) {
      if i < 10 {
        ValueGrows(TOO_BIG, 10, i, i + 1);
        ValueGrows(TOO_BIG, 10, i + 1, 10);
      } else {
        assert i == 10;
      }
    }
  }

  // ----- what was written is read back -----

  lemma {:induction false} DecimalValue(n: nat)
    ensures AllDigits(Decimal(n), 10) && Value(Decimal(n), 10, |Decimal(n)|) == n
    ensures n > 0 ==> Decimal(n)[0] != '0'
  {
    if n >= 10 {
      DecimalValue(n / 10);
      ValueOfFront(Decimal(n / 10), Decimal(n), 10, |Decimal(n / 10)|);
    }
  }

  lemma {:induction false} ValueOfFront(s: string, t: string, base: int, k: nat)
    requires k <= |s| <= |t| && t[..|s|] == s && AllDigits(s, base) && AllDigits(t, base) && base >= 0
    ensures Value(s, base, k) == Value(t, base, k)
  {
    if k > 0 {
      ValueOfFront(s, t, base, k - 1);
      assert s[k - 1] == t[..|s|][k - 1];
    }
  }

  lemma IntegerTextSplits(v: int)
    ensures SplitInteger(IntegerText(v)) == Ok(IntegerDesc(v < 0, false, Decimal(if v < 0 then -v else v)))
  {
    var n := if v < 0 then -v else v;
    DecimalValue(n);
    var s := Decimal(n);
    assert v < 0 ==> IntegerText(v)[1..] == s;
    assert s[0] == '0' ==> n == 0;
    assert !(|s| >= 2 && s[1] == 'x') by {
      if |s| >= 2 { assert Digit(s[1], 10).Some?; }
    }
    assert s[0] != '-' by { assert Digit(s[0], 10).Some?; }
  }

  /** Every value of the target, written as text, is read back as itself. */
  method RoundTrip(t: Target, v: int) returns (r: Result<int>)
    requires t.Valid() && t.half <= 0x8000_0000_0000_0000 && t.Min() <= v <= t.Max()
    ensures r == Ok(v)
  {
    hide Decimal, Value, AllDigits;
    var text := WriteInt(v);
    IntegerTextSplits(v);
    DecimalValue(if v < 0 then -v else v);
    r := ParseText(t, text);
  }

  // ----- other bases -----

  /** A character is a digit exactly as one of these lists has it, in either case. */
  lemma DigitListed(ch: char, base: int, d: int)
    requires base == 10 || base == 16
    ensures Digit(ch, base) == Some(d) <==>
            0 <= d < base && ("0123456789abcdef"[d] == ch || "0123456789ABCDEF"[d] == ch)
  {
  }

  lemma BasedDigitRead(d: int, base: int, upper: bool)
    requires IsBase(base) && 0 <= d < base
    ensures Digit(BasedDigit(d, upper), base) == Some(d)
  {
    if base == 16 { DigitListed(BasedDigit(d, upper), 16, d); }
  }

  /** The digits of a number in base two, eight or sixteen denote it. */
  lemma {:induction false} BasedValue(n: nat, base: int, upper: bool)
    requires IsBase(base)
    ensures var s := InBase(n, base, upper); AllDigits(s, base) && Value(s, base, |s|) == n
  {
    var low := LowBits(n, base);
    BasedDigitRead(low, base, upper);
    LastOf(n, base, upper, "");
    assert InBase(n, base, upper) == InBase(n, base, upper) + "";
    var front := if n < base then "" else InBase(Shifted(n, base), base, upper);
    if n >= base { BasedValue(Shifted(n, base), base, upper); }
    hide InBase, Digit, BasedDigit, IsBase, LowBits;
    Appended(front, base, BasedDigit(low, upper), low);
  }

  /** One digit more. */
  lemma Appended(front: string, base: int, c: char, d: int)
    requires AllDigits(front, base) && Digit(c, base) == Some(d) && base >= 0
    ensures var s := front + ([c] + "");
            AllDigits(s, base) && Value(s, base, |s|) == base * Value(front, base, |front|) + d
  {
    hide Digit;
    var s := front + ([c] + "");
    assert s[..|front|] == front && s[|front|] == c;
    ValueOfFront(front, s, base, |front|);
  }

  lemma HexTextSplits(v: int, upper: bool)
    ensures var n := if v < 0 then -v else v;
            SplitInteger((if v < 0 then "-" else "") + "0x" + InBase(n, 16, upper)) ==
            Ok(IntegerDesc(v < 0, true, InBase(n, 16, upper)))
  {
    var n := if v < 0 then -v else v;
    var digits, text := InBase(n, 16, upper), (if v < 0 then "-" else "") + "0x" + InBase(n, 16, upper);
    assert v < 0 ==> text[1..] == "0x" + digits;
    assert ("0x" + digits)[2..] == digits;
  }

  /** Every value of the target, written in hexadecimal with the prefix in small letters, is read back. */
  method HexRoundTrip(t: Target, v: int) returns (r: Result<int>)
    requires t.Valid() && t.half <= 0x8000_0000_0000_0000 && t.Min() <= v <= t.Max()
    ensures r == Ok(v)
  {
    hide InBase, Value, AllDigits, SplitInteger;
    var text := WriteBased(v, Hexadecimal(false), true);
    HexTextSplits(v, false);
    BasedValue(if v < 0 then -v else v, 16, false);
    r := ParseText(t, text);
  }

  /** The prefix in capitals is not read. */
  method CapitalPrefix(t: Target, v: int) returns (r: Result<int>)
    requires t.Valid() && t.half <= 0x8000_0000_0000_0000 && t.Min() <= v <= t.Max()
    ensures r.Err?
  {
    hide InBase;
    var text := WriteBased(v, Hexadecimal(true), true);
    assert v < 0 ==> text[1..] == "0X" + InBase(-v, 16, true);
    ghost var d := SplitInteger(text).value;
    assert d.digits[1] == 'X' && Digit('X', 10).None?;
    r := ParseText(t, text);
  }
}
