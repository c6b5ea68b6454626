/** Decimal text of integers: counting digits by tables, writing them two at a time. */
module DecimalDigits {
  import opened Powers

  // ----- the digits of a number -----

  function DigitChar(d: int): char
    requires 0 <= d <= 9
  {
    '0' + d as char
  }

  function Decimal(n: nat): string {
    if n < 10 then [DigitChar(n)] else Decimal(n / 10) + [DigitChar(n % 10)]
  }

  function DigitCount(n: nat): nat {
    if n < 10 then 1 else 1 + DigitCount(n / 10)
  }

  lemma {:induction false} DecimalLength(n: nat)
    ensures |Decimal(n)| == DigitCount(n)
  {
    if n >= 10 { DecimalLength(n / 10); }
  }

  /** The count is determined by the powers of ten around the number. */
  lemma {:induction false} CountBetween(n: nat, k: nat)
    requires k > 0 && n < Pow(10, k) && (k > 1 ==> Pow(10, k - 1) <= n)
    ensures DigitCount(n) == k
  {
    if k > 1 {
      PowPositive(10, k - 2);
      assert Pow(10, k - 1) == 10 * Pow(10, k - 2) && Pow(10, k) == 10 * Pow(10, k - 1);
      CountBetween(n / 10, k - 1);
    }
  }

  // ----- counting -----

  /** Four digits a round. */
  method CountDigitsFallback(n0: nat) returns (count: nat)
    ensures count == DigitCount(n0)
  {
    var n := n0;
    count := 1;
    while true
      invariant count >= 1 && count - 1 + DigitCount(n) == DigitCount(n0)
      decreases n
    {
      FourDigits(n);
      if n < 10 { return; }
      if n < 100 { return count + 1; }
      if n < 1000 { return count + 2; }
      if n < 10000 { return count + 3; }
      n := n / 10000;
      count := count + 4;
    }
  }

  lemma FourDigits(n: nat)
    ensures 10 <= n < 100 ==> DigitCount(n) == 2
    ensures 100 <= n < 1000 ==> DigitCount(n) == 3
    ensures 1000 <= n < 10000 ==> DigitCount(n) == 4
    ensures n >= 10000 ==> DigitCount(n) == 4 + DigitCount(n / 10000)
  {
    var a, b, c := n / 10, n / 100, n / 1000;
    assert a / 10 == b && b / 10 == c && c / 10 == n / 10000;
    assert n >= 100 ==> DigitCount(a) == 1 + DigitCount(b);
    assert n >= 1000 ==> DigitCount(b) == 1 + DigitCount(c);
  }

  /** The position of the highest bit. */
  function Bsr(n: nat): nat
    requires n > 0
  {
    if n == 1 then 0 else 1 + Bsr(n / 2)
  }

  lemma {:induction false} BsrBetween(n: nat)
    requires n > 0
    ensures Pow(2, Bsr(n)) <= n < Pow(2, Bsr(n) + 1)
  {
    if n > 1 { BsrBetween(n / 2); }
  }

  function OrOne(n: nat): (r: nat)
    ensures r > 0
  {
    if n % 2 == 0 then n + 1 else n
  }

  /** Setting the lowest bit of a positive number leaves its highest bit where it is. */
  lemma BsrOrOne(n: nat)
    ensures n > 0 ==> Bsr(OrOne(n)) == Bsr(n)
    ensures n == 0 ==> Bsr(OrOne(n)) == 0
  {
    if n > 0 && n % 2 == 0 { assert (n + 1) / 2 == n / 2; }
  }

  const W32: int := 0x1_0000_0000

  /** The threshold of the 32-bit table at each highest bit. */
  function Threshold32(b: nat): nat {
    if b < 3 then 0 else if b < 6 then 10 else if b < 9 then 100 else if b < 12 then 1000
    else if b < 15 then 10000 else if b < 18 then 100000 else if b < 21 then 1000000
    else if b < 24 then 10000000 else if b < 27 then 100000000 else 1000000000
  }

  /** The table entry: one less in the upper half until the threshold is added. */
  function Increment(t: nat): int { DigitCount(t) * W32 - t }

  /** Counting the digits of a 32-bit word by one addition and one shift. */
  function CountDigits32(n: nat): int {
    (n + Increment(Threshold32(Bsr(OrOne(n))))) / W32
  }

  /** The first and the last highest bit for which the 64-bit table answers t. */
  function FirstBit(t: nat): nat {
    if t <= 1 then 0 else if t == 2 then 3 else if t == 3 then 6 else if t == 4 then 9 else if t == 5 then 13
    else if t == 6 then 16 else if t == 7 then 19 else if t == 8 then 23 else if t == 9 then 26
    else if t == 10 then 29 else if t == 11 then 33 else if t == 12 then 36 else if t == 13 then 39
    else if t == 14 then 43 else if t == 15 then 46 else if t == 16 then 49 else if t == 17 then 53
    else if t == 18 then 56 else if t == 19 then 59 else if t == 20 then 63 else 64
  }

  /** The digits of the largest number with this highest bit. */
  function Bsr2Log10(b: nat): (t: nat)
    requires b < 64
    ensures 1 <= t <= 20 && FirstBit(t) <= b < FirstBit(t + 1)
  {
    if b < 3 then 1 else if b < 6 then 2 else if b < 9 then 3 else if b < 13 then 4 else if b < 16 then 5
    else if b < 19 then 6 else if b < 23 then 7 else if b < 26 then 8 else if b < 29 then 9 else if b < 33 then 10
    else if b < 36 then 11 else if b < 39 then 12 else if b < 43 then 13 else if b < 46 then 14 else if b < 49 then 15
    else if b < 53 then 16 else if b < 56 then 17 else if b < 59 then 18 else if b < 63 then 19 else 20
  }

  function ZeroOrPower(t: nat): nat { if t < 2 then 0 else Pow(10, t - 1) }

  function CountDigits64(n: nat): int
    requires Bsr(OrOne(n)) < 64
  {
    var t := Bsr2Log10(Bsr(OrOne(n)));
    t - if n < ZeroOrPower(t) then 1 else 0
  }

  lemma TableFits(t: nat)
    requires 1 <= t <= 20
    ensures t >= 2 ==> Pow(10, t - 2) <= Pow(2, FirstBit(t))
    ensures Pow(2, FirstBit(t + 1)) <= Pow(10, t)
  {
    hide Pow;
    PowersOfTwo();
    PowersOfTen();
  }

  lemma PowersOfTwo()
    ensures Pow(2, 3) == 8
    ensures Pow(2, 6) == 64
    ensures Pow(2, 9) == 512
    ensures Pow(2, 13) == 8192
    ensures Pow(2, 16) == 65536
    ensures Pow(2, 19) == 524288
    ensures Pow(2, 23) == 8388608
    ensures Pow(2, 26) == 67108864
    ensures Pow(2, 29) == 536870912
    ensures Pow(2, 33) == 8589934592
    ensures Pow(2, 36) == 68719476736
    ensures Pow(2, 39) == 549755813888
    ensures Pow(2, 43) == 8796093022208
    ensures Pow(2, 46) == 70368744177664
    ensures Pow(2, 49) == 562949953421312
    ensures Pow(2, 53) == 9007199254740992
    ensures Pow(2, 56) == 72057594037927936
    ensures Pow(2, 59) == 576460752303423488
    ensures Pow(2, 63) == 9223372036854775808
    ensures Pow(2, 64) == 18446744073709551616
  {
    assert Pow(2, 1) == 2 && Pow(2, 3) == 8 && Pow(2, 4) == 16;
    hide Pow;
    PowAdd(2, 3, 3); PowAdd(2, 6, 3); PowAdd(2, 9, 4); PowAdd(2, 13, 3); PowAdd(2, 16, 3); PowAdd(2, 19,
    4); PowAdd(2, 23, 3); PowAdd(2, 26, 3); PowAdd(2, 29, 4); PowAdd(2, 33, 3); PowAdd(2, 36, 3);
    PowAdd(2, 39, 4); PowAdd(2, 43, 3); PowAdd(2, 46, 3); PowAdd(2, 49, 4); PowAdd(2, 53, 3); PowAdd(2,
    56, 3); PowAdd(2, 59, 4); PowAdd(2, 63, 1);
  }

  lemma PowersOfTen()
    ensures Pow(10, 0) == 1
    ensures Pow(10, 1) == 10
    ensures Pow(10, 2) == 100
    ensures Pow(10, 3) == 1000
    ensures Pow(10, 4) == 10000
    ensures Pow(10, 5) == 100000
    ensures Pow(10, 6) == 1000000
    ensures Pow(10, 7) == 10000000
    ensures Pow(10, 8) == 100000000
    ensures Pow(10, 9) == 1000000000
    ensures Pow(10, 10) == 10000000000
    ensures Pow(10, 11) == 100000000000
    ensures Pow(10, 12) == 1000000000000
    ensures Pow(10, 13) == 10000000000000
    ensures Pow(10, 14) == 100000000000000
    ensures Pow(10, 15) == 1000000000000000
    ensures Pow(10, 16) == 10000000000000000
    ensures Pow(10, 17) == 100000000000000000
    ensures Pow(10, 18) == 1000000000000000000
    ensures Pow(10, 19) == 10000000000000000000
    ensures Pow(10, 20) == 100000000000000000000
  {
    assert forall k: nat {:trigger Pow(10, k)} :: k > 0 ==> Pow(10, k) == 10 * Pow(10, k - 1);
  }

  lemma FirstRow()
    ensures Bsr2Log10(0) == 1
  {
  }

  /** Both ends of a 64-bit table row decide between two digit counts; one comparison picks the right one. */
  lemma CountDigits64Exact(n: nat)
    requires n < 0x1_0000_0000_0000_0000
    ensures Bsr(OrOne(n)) < 64
    ensures CountDigits64(n) == DigitCount(n)
  {
    PowersOfTwo();
    HighBitBelow(n, 64);
    hide Bsr, Pow, FirstBit, Bsr2Log10, DigitCount;
    BsrOrOne(n);
    FirstRow();
    var b := Bsr(OrOne(n));
    var t := Bsr2Log10(b);
    TableFits(t);
    HighBitBounds(n, FirstBit(t), FirstBit(t + 1));
    CountBetweenTwo(n, t);
  }

  lemma HighBitBelow(n: nat, k: nat)
    requires n < Pow(2, k) && k > 0
    ensures Bsr(OrOne(n)) < k
  {
    hide Pow, Bsr;
    BsrOrOne(n);
    if n > 0 {
      BsrBetween(n);
      if Bsr(n) >= k { PowMonotone(2, k, Bsr(n)); }
    }
  }

  /** The group of three highest bits a 32-bit table entry is for. */
  function Group(b: nat): nat { if b < 27 then b / 3 else 9 }

  lemma ThresholdIsPower(b: nat)
    ensures Threshold32(b) == if Group(b) == 0 then 0 else Pow(10, Group(b))
    ensures DigitCount(Threshold32(b)) == Group(b) + 1
  {
    hide Pow;
    PowersOfTen();
    if Group(b) > 0 { CountBetween(Pow(10, Group(b)), Group(b) + 1); }
  }

  lemma GroupFits(e: nat)
    requires e <= 9
    ensures Pow(2, if e < 9 then 3 * e + 3 else 32) <= Pow(10, e + 1)
    ensures e >= 1 ==> Pow(10, e - 1) <= Pow(2, 3 * e)
  {
    hide Pow;
    PowersOfEight();
    PowersOfTen();
  }

  /** The threshold of the entry is where the digit count changes among the numbers of its group. */
  lemma ThresholdDecides(n: nat)
    requires n < W32
    ensures var b := Bsr(OrOne(n)); DigitCount(n) == Group(b) + if n < Threshold32(b) then 0 else 1
  {
    hide Bsr, OrOne, Pow, DigitCount, Threshold32;
    HighBit32(n);
    var b := Bsr(OrOne(n));
    var e := Group(b);
    GroupFits(e);
    HighBitBounds(n, 3 * e, if e < 9 then 3 * e + 3 else 32);
    CountBetweenTwo(n, e + 1);
    ThresholdIsPower(b);
  }

  /** Adding the 32-bit table entry carries into the upper half once more exactly from the threshold on. */
  lemma CountDigits32Exact(n: nat)
    requires n < W32
    ensures CountDigits32(n) == DigitCount(n)
  {
    hide Bsr, OrOne, Pow, DigitCount, Threshold32, Group;
    var b := Bsr(OrOne(n));
    ThresholdDecides(n);
    ThresholdIsPower(b);
    ThresholdSmall(b);
    CarryDecides(n, Group(b), Threshold32(b));
  }

  lemma ThresholdSmall(b: nat)
    ensures Threshold32(b) < W32
  {
  }

  lemma HighBit32(n: nat)
    requires n < W32
    ensures Bsr(OrOne(n)) < 32
    ensures n == 0 ==> Bsr(OrOne(n)) == 0
  {
    PowersOfEight();
    HighBitBelow(n, 32);
  }

  lemma CarryDecides(n: int, e: int, t: int)
    requires 0 <= n < W32 && 0 <= t < W32
    ensures (n + ((e + 1) * W32 - t)) / W32 == if n < t then e else e + 1
  {
  }

  lemma PowersOfEight()
    ensures Pow(2, 0) == 1 && Pow(2, 3) == 8 && Pow(2, 6) == 64 && Pow(2, 9) == 512 && Pow(2, 12) == 4096
    ensures Pow(2, 15) == 32768 && Pow(2, 18) == 262144 && Pow(2, 21) == 2097152 && Pow(2, 24) == 16777216
    ensures Pow(2, 27) == 134217728 && Pow(2, 30) == 1073741824 && Pow(2, 32) == W32
  {
    assert Pow(2, 0) == 1 && Pow(2, 2) == 4 && Pow(2, 3) == 8;
    hide Pow;
    PowAdd(2, 3, 3); PowAdd(2, 6, 3); PowAdd(2, 9, 3); PowAdd(2, 12, 3); PowAdd(2, 15, 3); PowAdd(2, 18, 3);
    PowAdd(2, 21, 3); PowAdd(2, 24, 3); PowAdd(2, 27, 3); PowAdd(2, 30, 2);
  }

  /** What the highest bit says about the number itself. */
  lemma HighBitBounds(n: nat, lo: nat, hi: nat)
    requires lo <= Bsr(OrOne(n)) < hi
    ensures n < Pow(2, hi)
    ensures n > 0 ==> Pow(2, lo) <= n
  {
    hide Pow, Bsr;
    var b := Bsr(OrOne(n));
    BsrOrOne(n);
    BsrBetween(OrOne(n));
    PowMonotone(2, b + 1, hi);
    if n > 0 {
      BsrBetween(n);
      PowMonotone(2, lo, b);
    }
  }

  /** Below the power the count is one less than at or above it. */
  lemma CountBetweenTwo(n: nat, t: nat)
    requires t > 0 && n < Pow(10, t) && (t >= 2 && n > 0 ==> Pow(10, t - 2) <= n) && (n == 0 ==> t == 1)
    ensures DigitCount(n) == if t >= 2 && n < Pow(10, t - 1) then t - 1 else t
  {
    hide DigitCount;
    if t >= 2 && n < Pow(10, t - 1) {
      CountBetween(n, t - 1);
    } else {
      CountBetween(n, t);
    }
  }

  // ----- writing -----

  /** The two characters of the table of pairs at a number below a hundred. */
  function Digits2(v: nat): (s: string)
    requires v < 100
    ensures |s| == 2
  {
    [DigitChar(v / 10), DigitChar(v % 10)]
  }

  lemma TwoDigits(n: nat)
    ensures n >= 100 ==> Decimal(n) == Decimal(n / 100) + Digits2(n % 100)
    ensures 10 <= n < 100 ==> Decimal(n) == Digits2(n)
    ensures n < 10 ==> Decimal(n) == [DigitChar(n)]
  {
    if n >= 100 {
      var a := n / 10;
      assert a / 10 == n / 100 && a % 10 == n % 100 / 10 && n % 10 == n % 100 % 10;
      assert Decimal(n) == Decimal(a / 10) + [DigitChar(a % 10)] + [DigitChar(n % 10)];
    }
  }

  method Copy2(buffer: array<char>, at: nat, pair: string)
    requires at + 2 <= buffer.Length && |pair| == 2
    modifies buffer
    ensures buffer[..] == old(buffer[..at]) + pair + old(buffer[at + 2..])
  {
    buffer[at] := pair[0];
    buffer[at + 1] := pair[1];
  }

  method Copy1(buffer: array<char>, at: nat, c: char)
    requires at < buffer.Length
    modifies buffer
    ensures buffer[..] == old(buffer[..at]) + [c] + old(buffer[at + 1..])
  {
    buffer[at] := c;
  }

  /** A buffer whose part from out to size holds this text and whose rest is as it was. */
  ghost predicate Holds(b: string, was: string, out: nat, rest: string, size: nat) {
    out <= size <= |was| && |rest| == size - out && b == was[..out] + rest + was[size..]
  }

  lemma HoldsNone(was: string, size: nat)
    requires size <= |was|
    ensures Holds(was, was, size, "", size)
  {
  }

  lemma HoldsMore(b: string, was: string, out: nat, rest: string, size: nat, text: string)
    requires Holds(b, was, out, rest, size) && |text| <= out
    ensures |b| == |was|
    ensures Holds(b[..out - |text|] + text + b[out..], was, out - |text|, text + rest, size)
  {
    assert b[out..] == rest + was[size..];
    assert b[..out - |text|] == was[..out - |text|];
  }

  /** A pair of digits put in front of what is written. */
  method PutPair(buffer: array<char>, out: nat, pair: string, ghost was: string, ghost rest: string, ghost size: nat)
    requires Holds(buffer[..], was, out, rest, size) && |pair| == 2 <= out && buffer.Length == |was|
    modifies buffer
    ensures Holds(buffer[..], was, out - 2, pair + rest, size)
  {
    HoldsMore(buffer[..], was, out, rest, size, pair);
    Copy2(buffer, out - 2, pair);
  }

  /** One character put in front of what is written. */
  method PutChar(buffer: array<char>, out: nat, c: char, ghost was: string, ghost rest: string, ghost size: nat)
    requires Holds(buffer[..], was, out, rest, size) && 1 <= out && buffer.Length == |was|
    modifies buffer
    ensures Holds(buffer[..], was, out - 1, [c] + rest, size)
  {
    HoldsMore(buffer[..], was, out, rest, size, [c]);
    Copy1(buffer, out - 1, c);
  }

  lemma Rejoin(all: string, front: string, shorter: string, piece: string, rest: string)
    requires all == front + rest && front == shorter + piece
    ensures all == shorter + (piece + rest)
  {
  }

  /** Writing the digits backwards from the end of the buffer, in pairs. */
  method FormatDecimal(buffer: array<char>, value0: nat, size: nat) returns (begin: nat)
    requires DigitCount(value0) <= size <= buffer.Length
    modifies buffer
    ensures begin == size - DigitCount(value0)
    ensures Holds(buffer[..], old(buffer[..]), begin, Decimal(value0), size)
  {
    hide *;
    var value, out := value0, size;
    ghost var was, rest := buffer[..], "";
    DecimalLength(value0);
    assert Decimal(value0) == Decimal(value) + rest;
    HoldsNone(was, size);
    while value >= 100
      invariant out <= size && |Decimal(value)| == DigitCount(value) <= out
      invariant Decimal(value0) == Decimal(value) + rest && |rest| == size - out
      invariant Holds(buffer[..], was, out, rest, size)
      decreases value
    {
      DecimalLength(value / 100);
      TwoDigits(value);
      var pair := Digits2(value % 100);
      Rejoin(Decimal(value0), Decimal(value), Decimal(value / 100), pair, rest);
      PutPair(buffer, out, pair, was, rest, size);
      out, rest, value := out - 2, pair + rest, value / 100;
    }
    TwoDigits(value);
    if value < 10 {
      var last := [DigitChar(value)];
      PutChar(buffer, out, last[0], was, rest, size);
      return out - 1;
    }
    var pair := Digits2(value);
    PutPair(buffer, out, pair, was, rest, size);
    begin := out - 2;
  }

  /** The text of a signed integer. */
  function IntegerText(value: int): string {
    if value < 0 then ['-'] + Decimal(-value) else Decimal(value)
  }

  /** Writing an integer whose magnitude fits 64 bits: the sign, then the digits in place. */
  method WriteInt(value: int) returns (text: string)
    requires -0x8000_0000_0000_0000 <= value < 0x1_0000_0000_0000_0000
    ensures text == IntegerText(value)
  {
    hide Decimal, DigitCount, CountDigits64, Bsr;
    var absValue := value % 0x1_0000_0000_0000_0000;
    var negative := value < 0;
    if negative { absValue := (0x1_0000_0000_0000_0000 - absValue) % 0x1_0000_0000_0000_0000; }
    CountDigits64Exact(absValue);
    DecimalLength(absValue);
    var numDigits := CountDigits64(absValue);
    var buffer := new char[numDigits];
    var begin := FormatDecimal(buffer, absValue, numDigits);
    assert buffer[..] == Decimal(absValue);
    text := (if negative then ['-'] else []) + buffer[..];
  }
}
