/** UTF-8 and UTF-16: the branchless decoder, the walk over code points, the encoder and their round trips. */
module Utf8 {
  import opened Outcomes
  import opened Powers

  type Byte = x: int | 0 <= x < 0x100
  type Bytes = seq<Byte>

  const INVALID: int := 0xffff_ffff

  predicate Scalar(c: int) { 0 <= c < 0xd800 || 0xe000 <= c <= 0x10ffff }

  // ----- the branchless decoder -----

  /** The length by the upper five bits of the first byte, zero where no sequence starts. */
  function LeadLength(b: Byte): nat {
    var k := b / 8;
    if k < 16 then 1 else if k < 24 then 0 else if k < 28 then 2 else if k < 30 then 3 else if k == 30 then 4 else 0
  }

  function Mask(len: nat, b: Byte): int
    requires len <= 4
  {
    if len == 0 then 0 else if len == 1 then b % 0x80 else if len == 2 then b % 0x20
    else if len == 3 then b % 0x10 else b % 0x08
  }

  function Min(len: nat): int {
    if len == 0 then 4194304 else if len == 1 then 0 else if len == 2 then 128 else if len == 3 then 2048 else 65536
  }

  function ShiftC(len: nat): int {
    if len == 0 then 0x1 else if len == 1 then 0x4_0000 else if len == 2 then 0x1000 else if len == 3 then 0x40 else 0x1
  }

  function ShiftE(len: nat): int {
    if len == 0 then 0x1 else if len == 1 then 0x40 else if len == 2 then 0x10 else if len == 3 then 0x4 else 0x1
  }

  function Flag(b: bool): int { if b then 1 else 0 }

  /** A pair of bits with its upper one flipped: zero exactly for the pair of a tail byte. */
  function FlipTail(b: Byte): int { (b / 0x40 + 2) % 4 }

  /** The code point, the accumulated errors, and how far the pointer moves. */
  datatype Decoded = Decoded(c: int, e: int, advance: nat)

  function Decode(b0: Byte, b1: Byte, b2: Byte, b3: Byte): (d: Decoded)
    ensures 1 <= d.advance <= 4
  {
    var len := LeadLength(b0);
    var c := (Mask(len, b0) * 0x4_0000 + b1 % 0x40 * 0x1000 + b2 % 0x40 * 0x40 + b3 % 0x40) / ShiftC(len);
    var e := Flag(c > 0x10ffff) * 0x100 + Flag(c / 0x800 == 0x1b) * 0x80 + Flag(c < Min(len)) * 0x40
             + FlipTail(b1) * 0x10 + FlipTail(b2) * 0x4 + FlipTail(b3);
    Decoded(c, e / ShiftE(len), len + Flag(len == 0))
  }

  // ----- well-formed sequences, by the table of section 4 of RFC 3629 -----

  predicate Tail(b: Byte) { 0x80 <= b <= 0xbf }

  predicate WellFormed1(b0: Byte) { b0 <= 0x7f }

  predicate WellFormed2(b0: Byte, b1: Byte) { 0xc2 <= b0 <= 0xdf && Tail(b1) }

  predicate WellFormed3(b0: Byte, b1: Byte, b2: Byte) {
    Tail(b2) && (
      || (b0 == 0xe0 && 0xa0 <= b1 <= 0xbf) || (0xe1 <= b0 <= 0xec && Tail(b1))
      || (b0 == 0xed && 0x80 <= b1 <= 0x9f) || (0xee <= b0 <= 0xef && Tail(b1)))
  }

  predicate WellFormed4(b0: Byte, b1: Byte, b2: Byte, b3: Byte) {
    Tail(b2) && Tail(b3) && (
      || (b0 == 0xf0 && 0x90 <= b1 <= 0xbf) || (0xf1 <= b0 <= 0xf3 && Tail(b1))
      || (b0 == 0xf4 && 0x80 <= b1 <= 0x8f))
  }

  // What the decoder computes for each length of the first byte.

  lemma Decodes0(b0: Byte, b1: Byte, b2: Byte, b3: Byte)
    requires LeadLength(b0) == 0
    ensures Decode(b0, b1, b2, b3).e != 0 && Decode(b0, b1, b2, b3).advance == 1
  {
  }

  lemma Decodes1(b0: Byte, b1: Byte, b2: Byte, b3: Byte)
    requires LeadLength(b0) == 1
    ensures Decode(b0, b1, b2, b3) == Decoded(b0, 0, 1)
  {
    hide FlipTail;
    FlipsTail(b1);
    FlipsTail(b2);
    FlipsTail(b3);
    assert b0 < 0x80 && b0 % 0x80 == b0;
    Shifted(b0, b1 % 0x40, b2 % 0x40, b3 % 0x40);
    ErrorBits(false, false, false, FlipTail(b1), FlipTail(b2), FlipTail(b3));
  }

  lemma Decodes2(b0: Byte, b1: Byte, b2: Byte, b3: Byte)
    requires LeadLength(b0) == 2
    ensures var c := b0 % 0x20 * 0x40 + b1 % 0x40;
            Decode(b0, b1, b2, b3).c == c && Decode(b0, b1, b2, b3).advance == 2 &&
            (Decode(b0, b1, b2, b3).e == 0 <==> c >= 0x80 && FlipTail(b1) == 0)
  {
    Shifted(b0 % 0x20, b1 % 0x40, b2 % 0x40, b3 % 0x40);
    var c := b0 % 0x20 * 0x40 + b1 % 0x40;
    ErrorBits(false, false, c < 0x80, FlipTail(b1), FlipTail(b2), FlipTail(b3));
  }

  lemma Decodes3(b0: Byte, b1: Byte, b2: Byte, b3: Byte)
    requires LeadLength(b0) == 3
    ensures var c := b0 % 0x10 * 0x1000 + b1 % 0x40 * 0x40 + b2 % 0x40;
            Decode(b0, b1, b2, b3).c == c && Decode(b0, b1, b2, b3).advance == 3 &&
            (Decode(b0, b1, b2, b3).e == 0 <==>
               c >= 0x800 && c / 0x800 != 0x1b && FlipTail(b1) == 0 && FlipTail(b2) == 0)
  {
    Shifted(b0 % 0x10, b1 % 0x40, b2 % 0x40, b3 % 0x40);
    var c := b0 % 0x10 * 0x1000 + b1 % 0x40 * 0x40 + b2 % 0x40;
    ErrorBits(false, c / 0x800 == 0x1b, c < 0x800, FlipTail(b1), FlipTail(b2), FlipTail(b3));
  }

  lemma Decodes4(b0: Byte, b1: Byte, b2: Byte, b3: Byte)
    requires LeadLength(b0) == 4
    ensures var c := b0 % 0x08 * 0x4_0000 + b1 % 0x40 * 0x1000 + b2 % 0x40 * 0x40 + b3 % 0x40;
            Decode(b0, b1, b2, b3).c == c && Decode(b0, b1, b2, b3).advance == 4 &&
            (Decode(b0, b1, b2, b3).e == 0 <==>
               0x1_0000 <= c <= 0x10_ffff && FlipTail(b1) == 0 && FlipTail(b2) == 0 && FlipTail(b3) == 0)
  {
    Shifted(b0 % 0x08, b1 % 0x40, b2 % 0x40, b3 % 0x40);
    var c := b0 % 0x08 * 0x4_0000 + b1 % 0x40 * 0x1000 + b2 % 0x40 * 0x40 + b3 % 0x40;
    ErrorBits(c > 0x10_ffff, c / 0x800 == 0x1b, c < 0x1_0000, FlipTail(b1), FlipTail(b2), FlipTail(b3));
  }

  /** Shifting out the bytes that do not belong to the sequence. */
  lemma Shifted(m: int, t1: int, t2: int, t3: int)
    requires 0 <= m < 0x80 && 0 <= t1 < 0x40 && 0 <= t2 < 0x40 && 0 <= t3 < 0x40
    ensures (m * 0x4_0000 + t1 * 0x1000 + t2 * 0x40 + t3) / 0x4_0000 == m
    ensures (m * 0x4_0000 + t1 * 0x1000 + t2 * 0x40 + t3) / 0x1000 == m * 0x40 + t1
    ensures (m * 0x4_0000 + t1 * 0x1000 + t2 * 0x40 + t3) / 0x40 == m * 0x1000 + t1 * 0x40 + t2
  {
  }

  /** Which error bits are left when those of the missing tail bytes are shifted out. */
  lemma ErrorBits(range: bool, surrogate: bool, overlong: bool, f1: int, f2: int, f3: int)
    requires 0 <= f1 < 4 && 0 <= f2 < 4 && 0 <= f3 < 4
    ensures var e := Flag(range) * 0x100 + Flag(surrogate) * 0x80 + Flag(overlong) * 0x40 + f1 * 0x10 + f2 * 0x4 + f3;
            var none := !range && !surrogate && !overlong;
            (e / 0x40 == 0 <==> none) && (e / 0x10 == 0 <==> none && f1 == 0) &&
            (e / 0x4 == 0 <==> none && f1 == 0 && f2 == 0) &&
            (e == 0 <==> none && f1 == 0 && f2 == 0 && f3 == 0)
  {
  }

  lemma FlipsTail(b: Byte)
    ensures 0 <= FlipTail(b) < 4
    ensures FlipTail(b) == 0 <==> Tail(b)
  {
  }

  /** Some prefix of these bytes is a well-formed sequence, and how long it is. */
  function WellFormedLength(b0: Byte, b1: Byte, b2: Byte, b3: Byte): nat {
    if WellFormed1(b0) then 1 else if WellFormed2(b0, b1) then 2
    else if WellFormed3(b0, b1, b2) then 3 else if WellFormed4(b0, b1, b2, b3) then 4 else 0
  }

  /** The decoder reports no error exactly on a well-formed sequence, moves past it, and yields a scalar value. */
  lemma DecodesWellFormed(b0: Byte, b1: Byte, b2: Byte, b3: Byte)
    ensures Decode(b0, b1, b2, b3).e == 0 <==> WellFormedLength(b0, b1, b2, b3) > 0
    ensures Decode(b0, b1, b2, b3).e == 0 ==>
              Decode(b0, b1, b2, b3).advance == WellFormedLength(b0, b1, b2, b3) && Scalar(Decode(b0, b1, b2, b3).c)
  {
    hide Decode, FlipTail, WellFormedLength;
    FlipsTail(b1);
    FlipsTail(b2);
    FlipsTail(b3);
    WellFormedShort(b0, b1, b2, b3);
    match LeadLength(b0)
    case 0 => Decodes0(b0, b1, b2, b3);
    case 1 => Decodes1(b0, b1, b2, b3);
    case 2 => Decodes2(b0, b1, b2, b3);
    case 3 => WellFormedLong3(b0, b1, b2, b3); Decodes3(b0, b1, b2, b3);
    case 4 => WellFormedLong4(b0, b1, b2, b3); Decodes4(b0, b1, b2, b3);
  }

  // The table of well-formed sequences in terms of the code point the bits spell.

  lemma WellFormedShort(b0: Byte, b1: Byte, b2: Byte, b3: Byte)
    ensures LeadLength(b0) == 0 ==> WellFormedLength(b0, b1, b2, b3) == 0
    ensures LeadLength(b0) == 1 ==> WellFormedLength(b0, b1, b2, b3) == 1
    ensures LeadLength(b0) == 2 ==>
              WellFormedLength(b0, b1, b2, b3) == if b0 % 0x20 * 0x40 + b1 % 0x40 >= 0x80 && Tail(b1) then 2 else 0
  {
  }

  lemma WellFormedLong3(b0: Byte, b1: Byte, b2: Byte, b3: Byte)
    requires LeadLength(b0) == 3
    ensures var c := b0 % 0x10 * 0x1000 + b1 % 0x40 * 0x40 + b2 % 0x40;
            WellFormedLength(b0, b1, b2, b3) == if c >= 0x800 && c / 0x800 != 0x1b && Tail(b1) && Tail(b2) then 3 else 0
  {
    assert 0xe0 <= b0 < 0xf0 && b0 % 0x10 == b0 - 0xe0;
  }

  lemma WellFormedLong4(b0: Byte, b1: Byte, b2: Byte, b3: Byte)
    requires LeadLength(b0) == 4
    ensures var c := b0 % 0x08 * 0x4_0000 + b1 % 0x40 * 0x1000 + b2 % 0x40 * 0x40 + b3 % 0x40;
            WellFormedLength(b0, b1, b2, b3) ==
              if 0x1_0000 <= c <= 0x10_ffff && Tail(b1) && Tail(b2) && Tail(b3) then 4 else 0
  {
    assert 0xf0 <= b0 < 0xf8 && b0 % 0x08 == b0 - 0xf0;
  }

  // ----- the encoder -----

  /** The bytes of a code point, as the time formatter writes them; none for what is no scalar value. */
  function Encode(c: int): (bs: Bytes)
    ensures Scalar(c) ==> 1 <= |bs| <= 4
  {
    if c < 0 then []
    else if c < 0x80 then [c]
    else if c < 0x800 then [0xc0 + c / 0x40, 0x80 + c % 0x40]
    else if 0x800 <= c <= 0xd7ff || 0xe000 <= c <= 0xffff then
      [0xe0 + c / 0x1000, 0x80 + c % 0x1000 / 0x40, 0x80 + c % 0x40]
    else if 0x1_0000 <= c <= 0x10_ffff then
      [0xf0 + c / 0x4_0000, 0x80 + c % 0x4_0000 / 0x1000, 0x80 + c % 0x1000 / 0x40, 0x80 + c % 0x40]
    else []
  }

  /** The byte at a position, zero past the end. */
  function At(s: Bytes, i: nat): Byte { if i < |s| then s[i] else 0 }

  function DecodeAt(s: Bytes, p: nat): Decoded { Decode(At(s, p), At(s, p + 1), At(s, p + 2), At(s, p + 3)) }

  // The bits of a code point cut into bytes and joined again, for each length.

  /** The digits of a number to the base 64. */
  lemma Digits64(c: int, m: int, t1: int, t2: int, t3: int)
    requires 0 <= t1 < 0x40 && 0 <= t2 < 0x40 && 0 <= t3 < 0x40
    requires c == m * 0x4_0000 + t1 * 0x1000 + t2 * 0x40 + t3
    ensures c / 0x4_0000 == m && c % 0x4_0000 / 0x1000 == t1 && c % 0x1000 / 0x40 == t2 && c % 0x40 == t3
    ensures c / 0x1000 == m * 0x40 + t1
  {
    DivModUnique(c, 0x4_0000, m, t1 * 0x1000 + t2 * 0x40 + t3);
    DivModUnique(t1 * 0x1000 + t2 * 0x40 + t3, 0x1000, t1, t2 * 0x40 + t3);
    DivModUnique(c, 0x1000, m * 0x40 + t1, t2 * 0x40 + t3);
    DivModUnique(t2 * 0x40 + t3, 0x40, t2, t3);
    DivModUnique(c, 0x40, m * 0x1000 + t1 * 0x40 + t2, t3);
  }

  lemma Digits3(c: int, m: int, t1: int, t2: int)
    requires 0 <= t1 < 0x40 && 0 <= t2 < 0x40 && c == m * 0x1000 + t1 * 0x40 + t2
    ensures c / 0x1000 == m && c % 0x1000 / 0x40 == t1 && c % 0x40 == t2
  {
    DivModUnique(c, 0x1000, m, t1 * 0x40 + t2);
    DivModUnique(t1 * 0x40 + t2, 0x40, t1, t2);
    DivModUnique(c, 0x40, m * 0x40 + t1, t2);
  }

  lemma Sum64(c: int)
    ensures c == c / 0x4_0000 * 0x4_0000 + c % 0x4_0000 / 0x1000 * 0x1000 + c % 0x1000 / 0x40 * 0x40 + c % 0x40
    ensures c == c / 0x1000 * 0x1000 + c % 0x1000 / 0x40 * 0x40 + c % 0x40
  {
    var k, l := c / 0x1000, c % 0x1000;
    Digits64(c, k / 0x40, k % 0x40, l / 0x40, l % 0x40);
  }

  lemma TailBits(b: Byte)
    requires Tail(b)
    ensures b % 0x40 == b - 0x80
  {
  }

  lemma Joined2(c: int, b0: Byte, b1: Byte)
    requires 0x80 <= c < 0x800 && Encode(c) == [b0, b1]
    ensures LeadLength(b0) == 2 && Tail(b1)
    ensures b0 % 0x20 * 0x40 + b1 % 0x40 == c
  {
  }

  lemma Cut2(c: int, b0: Byte, b1: Byte)
    requires LeadLength(b0) == 2 && Tail(b1) && c == b0 % 0x20 * 0x40 + b1 % 0x40
    requires 0x80 <= c < 0x800
    ensures Encode(c) == [b0, b1]
  {
  }

  lemma Joined3(c: int, b0: Byte, b1: Byte, b2: Byte)
    requires 0x800 <= c <= 0xffff && Scalar(c) && Encode(c) == [b0, b1, b2]
    ensures LeadLength(b0) == 3 && Tail(b1) && Tail(b2)
    ensures b0 % 0x10 * 0x1000 + b1 % 0x40 * 0x40 + b2 % 0x40 == c
  {
    Sum64(c);
    var m, t1, t2 := c / 0x1000, c % 0x1000 / 0x40, c % 0x40;
    assert b0 == 0xe0 + m && b1 == 0x80 + t1 && b2 == 0x80 + t2;
    TailBits(b1); TailBits(b2);
    assert b0 % 0x10 == m;
  }

  lemma Cut3(c: int, b0: Byte, b1: Byte, b2: Byte)
    requires LeadLength(b0) == 3 && Tail(b1) && Tail(b2)
    requires c == b0 % 0x10 * 0x1000 + b1 % 0x40 * 0x40 + b2 % 0x40 && 0x800 <= c <= 0xffff && Scalar(c)
    ensures Encode(c) == [b0, b1, b2]
  {
    TailBits(b1); TailBits(b2);
    var m: int, t1: int, t2: int := b0 - 0xe0, b1 - 0x80, b2 - 0x80;
    assert b0 % 0x10 == m;
    Digits3(c, m, t1, t2);
  }

  lemma Joined4(c: int, b0: Byte, b1: Byte, b2: Byte, b3: Byte)
    requires 0x1_0000 <= c <= 0x10_ffff && Encode(c) == [b0, b1, b2, b3]
    ensures LeadLength(b0) == 4 && Tail(b1) && Tail(b2) && Tail(b3)
    ensures b0 % 0x08 * 0x4_0000 + b1 % 0x40 * 0x1000 + b2 % 0x40 * 0x40 + b3 % 0x40 == c
  {
    Sum64(c);
    var m, t1, t2, t3 := c / 0x4_0000, c % 0x4_0000 / 0x1000, c % 0x1000 / 0x40, c % 0x40;
    assert b0 == 0xf0 + m && b1 == 0x80 + t1 && b2 == 0x80 + t2 && b3 == 0x80 + t3;
    TailBits(b1); TailBits(b2); TailBits(b3);
    assert b0 % 0x08 == m;
  }

  lemma Cut4(c: int, b0: Byte, b1: Byte, b2: Byte, b3: Byte)
    requires LeadLength(b0) == 4 && Tail(b1) && Tail(b2) && Tail(b3)
    requires c == b0 % 0x08 * 0x4_0000 + b1 % 0x40 * 0x1000 + b2 % 0x40 * 0x40 + b3 % 0x40
    requires 0x1_0000 <= c <= 0x10_ffff
    ensures Encode(c) == [b0, b1, b2, b3]
  {
    TailBits(b1); TailBits(b2); TailBits(b3);
    assert b0 % 0x08 == b0 - 0xf0;
    Digits64(c, b0 - 0xf0, b1 - 0x80, b2 - 0x80, b3 - 0x80);
  }

  /** The decoder inverts the encoder, whatever follows. */
  lemma DecodeInvertsEncode(c: int, s: Bytes, p: nat)
    requires Scalar(c) && p + |Encode(c)| <= |s| && s[p..p + |Encode(c)|] == Encode(c)
    ensures DecodeAt(s, p) == Decoded(c, 0, |Encode(c)|)
  {
    var bs := Encode(c);
    assert forall i :: 0 <= i < |bs| ==> At(s, p + i) == bs[i];
    DecodesEncoded(c, At(s, p), At(s, p + 1), At(s, p + 2), At(s, p + 3));
  }

  lemma DecodesEncoded(c: int, b0: Byte, b1: Byte, b2: Byte, b3: Byte)
    requires Scalar(c) && forall i :: 0 <= i < |Encode(c)| ==> Encode(c)[i] == [b0, b1, b2, b3][i]
    ensures Decode(b0, b1, b2, b3) == Decoded(c, 0, |Encode(c)|)
  {
    EncodedLength(c);
    hide Decode, FlipTail, Encode, LeadLength;
    FlipsTail(b1); FlipsTail(b2); FlipsTail(b3);
    var n, block := |Encode(c)|, [b0, b1, b2, b3];
    assert Encode(c) == block[..n];
    if n == 1 {
      assert Encode(c)[0] == b0;
      OneByte(c, b0);
      Decodes1(b0, b1, b2, b3);
    } else if n == 2 {
      assert Encode(c) == [b0, b1];
      Joined2(c, b0, b1);
      Decodes2(b0, b1, b2, b3);
    } else if n == 3 {
      assert Encode(c) == [b0, b1, b2];
      Joined3(c, b0, b1, b2);
      Decodes3(b0, b1, b2, b3);
    } else {
      assert Encode(c) == [b0, b1, b2, b3];
      Joined4(c, b0, b1, b2, b3);
      Decodes4(b0, b1, b2, b3);
    }
  }

  lemma EncodedLength(c: int)
    requires Scalar(c)
    ensures |Encode(c)| == if c < 0x80 then 1 else if c < 0x800 then 2 else if c <= 0xffff then 3 else 4
  {
  }

  lemma OneByte(c: int, b0: Byte)
    requires 0 <= c < 0x80
    ensures Encode(c) == [c]
    ensures c == b0 ==> LeadLength(b0) == 1
  {
  }

  lemma FirstOfOne(b0: Byte)
    requires LeadLength(b0) == 1
    ensures b0 < 0x80
  {
  }

  /** And what the decoder accepts is what the encoder writes. */
  lemma EncodesDecoded(b0: Byte, b1: Byte, b2: Byte, b3: Byte)
    requires Decode(b0, b1, b2, b3).e == 0
    ensures var d := Decode(b0, b1, b2, b3); Scalar(d.c) && [b0, b1, b2, b3][..d.advance] == Encode(d.c)
  {
    DecodesWellFormed(b0, b1, b2, b3);
    hide Decode, FlipTail, Encode, LeadLength, WellFormedLength;
    FlipsTail(b1); FlipsTail(b2); FlipsTail(b3);
    var c := Decode(b0, b1, b2, b3).c;
    match LeadLength(b0)
    case 0 => Decodes0(b0, b1, b2, b3);
    case 1 => Decodes1(b0, b1, b2, b3); FirstOfOne(b0); OneByte(c, b0);
    case 2 => Decodes2(b0, b1, b2, b3); BelowShort(b0, b1); Cut2(c, b0, b1);
    case 3 => Decodes3(b0, b1, b2, b3); BelowMiddle(b0, b1, b2); Cut3(c, b0, b1, b2);
    case 4 => Decodes4(b0, b1, b2, b3); Cut4(c, b0, b1, b2, b3);
    case _ => LengthAtMost4(b0);
  }

  lemma LengthAtMost4(b: Byte)
    ensures LeadLength(b) <= 4
  {
  }

  lemma BelowShort(b0: Byte, b1: Byte)
    ensures b0 % 0x20 * 0x40 + b1 % 0x40 < 0x800
  {
  }

  lemma BelowMiddle(b0: Byte, b1: Byte, b2: Byte)
    ensures b0 % 0x10 * 0x1000 + b1 % 0x40 * 0x40 + b2 % 0x40 <= 0xffff
  {
  }

  /** What the decoder accepts at a position lies within the text, although it reads four bytes. */
  lemma EncodeInvertsDecode(s: Bytes, p: nat)
    requires p < |s| && DecodeAt(s, p).e == 0
    ensures p + DecodeAt(s, p).advance <= |s|
    ensures Scalar(DecodeAt(s, p).c) && s[p..p + DecodeAt(s, p).advance] == Encode(DecodeAt(s, p).c)
  {
    hide Decode;
    var b0, b1, b2, b3 := At(s, p), At(s, p + 1), At(s, p + 2), At(s, p + 3);
    var d := Decode(b0, b1, b2, b3);
    EncodesDecoded(b0, b1, b2, b3);
    NoZeroInside(d.c);
    var block := [b0, b1, b2, b3];
    assert At(s, p + 0) == block[0] && At(s, p + 1) == block[1] && At(s, p + 2) == block[2] && At(s, p + 3) == block[3];
    assert forall i :: 0 <= i < d.advance ==> At(s, p + i) == block[i] == Encode(d.c)[i];
    assert p + d.advance <= |s| by {
      assert d.advance > 1 ==> At(s, p + (d.advance - 1)) != 0;
    }
  }

  /** After the first byte of an encoding there is no zero byte. */
  lemma NoZeroInside(c: int)
    ensures forall i :: 0 < i < |Encode(c)| ==> Encode(c)[i] != 0
  {
  }
}
