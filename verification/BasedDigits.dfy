/** Binary, octal and hexadecimal text of integers: counting digits by shifts and writing them from the end. */
module BasedDigits {
  import opened DecimalDigits

  const LOWER := "0123456789abcdef"
  const UPPER := "0123456789ABCDEF"

  function BasedDigit(d: int, upper: bool): char
    requires 0 <= d < 16
  {
    if upper then UPPER[d] else LOWER[d]
  }

  predicate IsBase(base: int) { base == 2 || base == 8 || base == 16 }

  /** The lowest digit shifted out. */
  function Shifted(n: nat, base: int): (m: nat)
    requires IsBase(base)
    ensures n > 0 ==> m < n
  {
    if base == 2 then n / 2 else if base == 8 then n / 8 else n / 16
  }

  function LowBits(n: nat, base: int): (d: nat)
    requires IsBase(base)
    ensures d < base && n == base * Shifted(n, base) + d
  {
    if base == 2 then n % 2 else if base == 8 then n % 8 else n % 16
  }

  function InBase(n: nat, base: int, upper: bool): (s: string)
    requires IsBase(base)
    ensures |s| >= 1
  {
    (if n < base then "" else InBase(Shifted(n, base), base, upper)) + [BasedDigit(LowBits(n, base), upper)]
  }

  predicate Looks(c: char, base: int, upper: bool) {
    '0' <= c <= '9' || (base == 16 && if upper then 'A' <= c <= 'F' else 'a' <= c <= 'f')
  }

  lemma OneLooks(d: int, base: int, upper: bool)
    requires IsBase(base) && 0 <= d < base
    ensures Looks(BasedDigit(d, upper), base, upper) && (BasedDigit(d, upper) == '0' <==> d == 0)
  {
  }

  /** The letters are in the case asked for, and only zero starts with a zero. */
  lemma {:induction false} DigitsLook(n: nat, base: int, upper: bool)
    requires IsBase(base)
    ensures forall c <- InBase(n, base, upper) :: Looks(c, base, upper)
    ensures InBase(n, base, upper)[0] == '0' <==> n == 0
  {
    OneLooks(LowBits(n, base), base, upper);
    if n >= base { DigitsLook(Shifted(n, base), base, upper); }
    hide Looks, BasedDigit;
  }

  /** One digit a round, the first one always. */
  method CountDigits(n0: nat, base: int, ghost upper: bool) returns (count: nat)
    requires IsBase(base)
    ensures count == |InBase(n0, base, upper)|
  {
    hide InBase, Shifted;
    var n := n0;
    count := 0;
    while true
      invariant count + |InBase(n, base, upper)| == |InBase(n0, base, upper)|
      decreases n
    {
      LastOf(n, base, upper, "");
      count := count + 1;
      n := Shifted(n, base);
      if n == 0 { break; }
    }
  }

  lemma LastOf(n: nat, base: int, upper: bool, rest: string)
    requires IsBase(base)
    ensures Shifted(n, base) == 0 <==> n < base
    ensures InBase(n, base, upper) + rest ==
              (if n < base then "" else InBase(Shifted(n, base), base, upper))
              + ([BasedDigit(LowBits(n, base), upper)] + rest)
    ensures |InBase(n, base, upper)| == if n < base then 1 else |InBase(Shifted(n, base), base, upper)| + 1
  {
    var front := if n < base then "" else InBase(Shifted(n, base), base, upper);
    var digit := BasedDigit(LowBits(n, base), upper);
    assert front + [digit] + rest == front + ([digit] + rest);
  }

  /** The digits go to the end of the buffer, the last one first, and nothing else of it changes. */
  method FormatUint(buffer: array<char>, value0: nat, numDigits: nat, base: int, upper: bool)
    requires IsBase(base) && numDigits == |InBase(value0, base, upper)| <= buffer.Length
    modifies buffer
    ensures buffer[..] == InBase(value0, base, upper) + old(buffer[numDigits..])
  {
    hide InBase, BasedDigit, Shifted, LowBits;
    var value, out := value0, numDigits;
    ghost var was, rest := buffer[..], "";
    HoldsNone(was, numDigits);
    assert InBase(value0, base, upper) + rest == InBase(value0, base, upper);
    while true
      invariant 0 <= out <= numDigits && |InBase(value, base, upper)| + |rest| == numDigits
      invariant InBase(value0, base, upper) == InBase(value, base, upper) + rest
      invariant Holds(buffer[..], was, out, rest, numDigits)
      decreases value
    {
      LastOf(value, base, upper, rest);
      var digit := BasedDigit(LowBits(value, base), upper);
      PutChar(buffer, out, digit, was, rest, numDigits);
      out, rest := out - 1, [digit] + rest;
      value := Shifted(value, base);
      if value == 0 { break; }
    }
    assert "" + rest == rest;
    assert was[..0] + rest + was[numDigits..] == rest + was[numDigits..];
  }

  // ----- integers -----

  datatype Radix = Binary(upper: bool) | Octal | Hexadecimal(upper: bool) {
    function Base(): int { match this case Binary(_) => 2 case Octal => 8 case Hexadecimal(_) => 16 }

    /** The letters of hexadecimal digits. */
    predicate Upper() { Hexadecimal? && this.upper }

    /** What the alternate form puts in front of the digits of a number. */
    function Prefix(n: nat): string {
      match this
      case Binary(upper) => if upper then "0B" else "0b"
      case Octal => if n == 0 then "" else "0"
      case Hexadecimal(upper) => if upper then "0X" else "0x"
    }
  }

  function BasedText(value: int, radix: Radix, alt: bool): string {
    var n := if value < 0 then -value else value;
    (if value < 0 then "-" else "") + (if alt then radix.Prefix(n) else "") + InBase(n, radix.Base(), radix.Upper())
  }

  /** Writing an integer of at most 64 bits without padding: sign, prefix, digits. */
  method WriteBased(value: int, radix: Radix, alt: bool) returns (text: string)
    requires -0x8000_0000_0000_0000 <= value < 0x1_0000_0000_0000_0000
    ensures text == BasedText(value, radix, alt)
  {
    var absValue := AbsValue(value);
    var prefix := if value < 0 then "-" else "";
    if alt { prefix := prefix + radix.Prefix(absValue); }
    BaseIsBase(radix);
    assert BasedText(value, radix, alt) == prefix + InBase(absValue, radix.Base(), radix.Upper()) by {
      hide InBase, AbsValue;
    }
    hide *;
    var digits := WriteDigits(absValue, radix.Base(), radix.Upper());
    text := prefix + digits;
  }

  /** The value cut to a word, and negated there. */
  function AbsValue(value: int): (n: nat)
    requires -0x8000_0000_0000_0000 <= value < 0x1_0000_0000_0000_0000
    ensures n == if value < 0 then -value else value
  {
    var word := value % 0x1_0000_0000_0000_0000;
    if value < 0 then (0x1_0000_0000_0000_0000 - word) % 0x1_0000_0000_0000_0000 else word
  }

  lemma BaseIsBase(radix: Radix)
    ensures IsBase(radix.Base())
  {
  }

  method WriteDigits(value: nat, base: int, upper: bool) returns (text: string)
    requires IsBase(base)
    ensures text == InBase(value, base, upper)
  {
    hide *;
    var numDigits := CountDigits(value, base, upper);
    var buffer := new char[numDigits];
    FormatUint(buffer, value, numDigits, base, upper);
    assert buffer[numDigits..] == "";
    text := buffer[..];
  }
}
