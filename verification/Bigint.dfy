/** fmt's arbitrary-precision unsigned integer, with its in-place schoolbook algorithms. */
module Bigints {
  import opened Powers
  import opened Bigits
  import opened BigintSpec

  class Bigint {
    var bigits: seq<Bigit>
    var exp: nat

    /** The number stored. */
    ghost function Value(): nat
      reads this
    {
      Val(bigits, exp)
    }

    function NumBigits(): nat
      reads this
    {
      |bigits| + exp
    }

    /** Either normal, or the bigit 0 with an arbitrary exponent. */
    ghost predicate Valid()
      reads this
    {
      Canonical(bigits)
    }

    constructor ()
      ensures bigits == [] && exp == 0
    {
      bigits, exp := [], 0;
    }

    method SubtractBigits(index: nat, other: Bigit, borrow: Bigit) returns (borrow': Bigit)
      requires index < |bigits| && borrow <= 1
      modifies this`bigits
      ensures |bigits| == |old(bigits)| && bigits == old(bigits)[index := bigits[index]]
      ensures bigits[index] - BASE * borrow' == old(bigits[index]) - other - borrow
      ensures borrow' <= 1
    {
      var result: Word64 := (bigits[index] - other - borrow) % WORD64;
      bigits := bigits[index := result % BASE];
      borrow' := result / 0x8000_0000_0000_0000;
    }

    method RemoveLeadingZeros()
      requires |bigits| > 0
      modifies this`bigits
      ensures Valid() && bigits <= old(bigits)
      ensures forall k: nat :: Val(bigits, k) == Val(old(bigits), k)
    {
      var numBigits := |bigits| - 1;
      while numBigits > 0 && bigits[numBigits] == 0
        invariant 0 <= numBigits < |bigits|
        invariant forall i :: numBigits < i < |bigits| ==> bigits[i] == 0
      {
        numBigits := numBigits - 1;
      }
      forall k: nat ensures Val(bigits[..numBigits + 1], k) == Val(bigits, k) {
        DropZeros(bigits, numBigits + 1, k);
      }
      bigits := bigits[..numBigits + 1];
    }

    /** The main loop of subtract_aligned: subtracts other from the bigits sm level with it,
        leaving those below and above alone. */
    method SubtractLevel(other: Bigint) returns (borrow: Bigit, ghost lo: seq<Bigit>, ghost sm: seq<Bigit>,
                                                 ghost um: seq<Bigit>, ghost st: seq<Bigit>)
      requires this != other && exp <= other.exp && other.exp - exp + |other.bigits| <= |bigits|
      modifies this`bigits
      ensures borrow <= 1 && |lo| == other.exp - exp && |sm| == |um| == |other.bigits|
      ensures old(bigits) == lo + sm + st && bigits == lo + um + st
      ensures Val(um, other.exp) == Val(sm, other.exp) - other.Value() + Shl(borrow, other.NumBigits())
    {
      hide Val, Shl;
      ghost var t, n := other.bigits, other.exp;
      ghost var tm: seq<Bigit> := [];
      lo, sm, um, st := bigits[..n - exp], [], [], bigits[n - exp..];
      ValEmpty(n);
      borrow := 0;
      var i, j := other.exp - exp, 0;
      while j != |other.bigits|
        invariant 0 <= j <= |t| && i == n - exp + j && 0 <= borrow <= 1
        invariant tm == t[..j] && |sm| == |um| == j && |lo| == n - exp
        invariant old(bigits) == lo + sm + st && bigits == lo + um + st
        invariant Val(um, n) == Val(sm, n) - Val(tm, n) + Shl(borrow, n + |tm|)
      {
        ghost var x := st[0];
        var borrow' := SubtractBigits(i, other.bigits[j], borrow);
        BorrowStep(um, sm, tm, n, x, t[j], bigits[i], borrow, borrow');
        um, sm, st, tm := um + [bigits[i]], sm + [x], st[1..], tm + [t[j]];
        borrow := borrow';
        i, j := i + 1, j + 1;
      }
      assert tm == t;
    }

    /** The tail loop of subtract_aligned, which stays at the same index. */
    method SubtractBorrow(index: nat, borrow0: Bigit, ghost lo: seq<Bigit>, ghost st: seq<Bigit>)
      requires borrow0 <= 1 && (borrow0 == 1 ==> st != [])
      requires |lo| == index && bigits == lo + st
      modifies this`bigits
      ensures bigits == lo + if borrow0 == 0 then st else st[0 := TakenOne(st[0])]
    {
      var borrow := borrow0;
      while borrow > 0
        invariant 0 <= borrow <= borrow0 && |bigits| == |lo| + |st|
        invariant borrow0 == 0 ==> bigits == lo + st
        invariant borrow0 == 1 ==> bigits == lo + st[0 := bigits[index]]
        invariant borrow == 1 ==> bigits[index] == st[0] || (st[0] == 0 && bigits[index] == BASE - 1)
        invariant borrow0 == 1 && borrow == 0 ==> bigits[index] == TakenOne(st[0])
        decreases borrow, if borrow > 0 && bigits[index] == st[0] then 1 else 0
      {
        borrow := SubtractBigits(index, 0, borrow);
      }
    }

    /** Subtracts, except that a borrow lost by the tail loop leaves (BASE - 1) too many
        units at the position just above the subtrahend. */
    method SubtractAligned(other: Bigint)
      requires this != other && Valid() && Normal(other.bigits)
      requires other.exp >= exp
      requires Value() >= other.Value()
      modifies this`bigits
      ensures Valid() && |bigits| <= |old(bigits)|
      ensures Value() == old(Value()) - other.Value()
                         + if LostBorrow(old(bigits), exp, other.bigits, other.exp)
                           then Shl(BASE - 1, other.NumBigits()) else 0
    {
      hide Val, Shl, LostBorrow;
      ghost var t, n := other.bigits, other.exp;
      FitsBelow(bigits, exp, t, n);
      var borrow, lo, sm, um, st := SubtractLevel(other);
      BorrowOut(sm, um, t, n, borrow);
      if borrow == 1 && st == [] {
        assert lo + sm + st == lo + sm;
        NoRoom(lo, exp, sm, t);
      }
      SubtractBorrow(other.exp - exp + |other.bigits|, borrow, lo + um, st);
      ghost var ut := if borrow == 0 then st else st[0 := TakenOne(st[0])];
      SubtractedValue(lo, sm, st, um, ut, t, exp, borrow);
      LostBorrowParts(lo, sm, st, t, exp);
      RemoveLeadingZeros();
    }

    // ----- multiplication -----

    method Multiply(value: Bigit)
      modifies this`bigits
      ensures Value() == old(Value()) * value
      ensures |old(bigits)| <= |bigits| <= |old(bigits)| + 1
      ensures Normal(old(bigits)) && value > 0 ==> Normal(bigits)
      ensures old(bigits) == [0] ==> bigits == [0]
    {
      hide Val, Shl, Carried, MulAdd, LowWord, HighWord, WideCarry;
      ghost var u: seq<Bigit>, s: seq<Bigit> := [], [];
      CarryStart(exp, value);
      var carry: Bigit := 0;
      var i := 0;
      while i < |bigits|
        invariant |u| == |s| == i <= |bigits| && 0 <= carry <= value
        invariant |bigits| == |old(bigits)| && u == bigits[..i] && s == old(bigits)[..i]
        invariant forall k :: i <= k < |bigits| ==> bigits[k] == old(bigits)[k]
        invariant Carried(u, s, exp, value, carry)
        invariant old(bigits) == [0] ==> carry == 0 && u == s
      {
        ghost var x := bigits[i];
        MulStep(u, s, exp, value, carry, x);
        NarrowProduct(x, value, carry);
        ZeroProduct(value);
        var result: Word64 := MulAdd(bigits[i], value, carry);
        bigits := bigits[i := LowWord(result)];
        u, s := u + [LowWord(result)], s + [x];
        carry := HighWord(result);
        i := i + 1;
      }
      assert s == old(bigits) && u == bigits;
      if carry != 0 {
        CarryOne(u, s, exp, value, carry);
        bigits := bigits + [carry];
      } else {
        CarryNone(u, s, exp, value);
      }
    }

    /** The overload for 64-bit (half == 32) and 128-bit (half == 64) factors, which it splits in two. */
    method MultiplyWide(value: Word128, half: nat)
      requires half == 32 || half == 64
      requires half == 32 ==> value < WORD64
      modifies this`bigits
      ensures Value() == old(Value()) * value
      ensures |old(bigits)| <= |bigits|
      ensures Normal(old(bigits)) && value > 0 ==> Normal(bigits)
    {
      hide Val, Shl, Carried, MulAdd, LowWord, HighWord, WideCarry;
      var halfRange := if half == 32 then BASE else WORD64;
      var shifted := if half == 32 then 1 else BASE;
      var lower, upper := value % halfRange, value / halfRange;
      ghost var u: seq<Bigit>, s: seq<Bigit> := [], [];
      CarryStart(exp, value);
      var carry: Word128 := 0;
      var i := 0;
      while i < |bigits|
        invariant |u| == |s| == i <= |bigits| && 0 <= carry <= value
        invariant |bigits| == |old(bigits)| && u == bigits[..i] && s == old(bigits)[..i]
        invariant forall k :: i <= k < |bigits| ==> bigits[k] == old(bigits)[k]
        invariant Carried(u, s, exp, value, carry)
      {
        ghost var x := bigits[i];
        MulStep(u, s, exp, value, carry, x);
        SplitProduct(x, value, half, halfRange, shifted, carry);
        var result: Word128 := MulAdd(lower, bigits[i], LowWord(carry));
        carry := WideCarry(upper, bigits[i], shifted, result, carry);
        bigits := bigits[i := LowWord(result)];
        u, s := u + [LowWord(result)], s + [x];
        i := i + 1;
      }
      assert s == old(bigits) && u == bigits;
      if carry == 0 {
        CarryNone(u, s, exp, value);
      } else {
        PushCarry(carry, s, value);
      }
    }

    /** Appends a carry of several bigits. */
    method PushCarry(carry0: Word128, ghost s: seq<Bigit>, ghost value: nat)
      requires carry0 > 0 && Carried(bigits, s, exp, value, carry0)
      modifies this`bigits
      ensures Value() == Val(s, exp) * value
      ensures Normal(bigits) && |bigits| > |old(bigits)|
    {
      hide Val, Shl;
      var carry := carry0;
      while carry != 0
        invariant 0 <= carry && |bigits| >= |old(bigits)|
        invariant Value() + Shl(carry, exp + |bigits|) == Val(s, exp) * value
        invariant carry == 0 ==> Normal(bigits) && |bigits| > |old(bigits)|
      {
        CarryPush(bigits, exp, carry);
        bigits := bigits + [carry % BASE];
        carry := carry / BASE;
      }
      ValEmpty(exp + |bigits|);
    }

    // ----- assignment -----

    method Assign(n: Word128)
      modifies this
      ensures Value() == n && exp == 0 && Valid()
      ensures n > 0 ==> Normal(bigits)
      ensures n < BASE ==> bigits == [n]
    {
      hide Val, Shl;
      exp := 0;
      bigits := [];
      ValEmpty(0);
      ShlIdentity(n);
      var rest := n;
      while true
        invariant 0 <= rest && exp == 0 && Value() + Shl(rest, |bigits|) == n
        invariant |bigits| > 0 ==> rest > 0
        invariant bigits == [] ==> rest == n
        invariant n < BASE ==> bigits == []
        decreases rest
      {
        CarryPush(bigits, 0, rest);
        bigits := bigits + [rest % BASE];
        rest := rest / BASE;
        if rest == 0 { break; }
      }
      ValEmpty(|bigits|);
    }

    method AssignBigint(other: Bigint)
      modifies this
      ensures bigits == old(other.bigits) && exp == old(other.exp)
    {
      bigits, exp := other.bigits, other.exp;
    }

    // ----- shifting -----

    /** The loop of operator<<=, for a shift below a word; f and g are 2^shift and 2^(32 - shift). */
    method ShiftBigits(f: nat, g: nat)
      requires f > 0 && g > 0 && SplitsWord(f, g)
      modifies this`bigits
      ensures Value() == old(Value()) * f
      ensures Normal(old(bigits)) ==> Normal(bigits)
      ensures |old(bigits)| <= |bigits| <= |old(bigits)| + 1
    {
      hide Val, Shl, Carried, MulAdd, LowWord, HighWord, ShiftOut, SplitsWord;
      ghost var u: seq<Bigit>, t: seq<Bigit> := [], [];
      CarryStart(exp, f);
      var carry: Bigit := 0;
      var i := 0;
      while i < |bigits|
        invariant |u| == |t| == i <= |bigits| && 0 <= carry < f
        invariant |bigits| == |old(bigits)| && u == bigits[..i] && t == old(bigits)[..i]
        invariant forall k :: i <= k < |bigits| ==> bigits[k] == old(bigits)[k]
        invariant Carried(u, t, exp, f, carry)
      {
        ghost var x := bigits[i];
        ShiftStep(u, t, exp, f, g, carry, x);
        var c: Bigit := ShiftOut(bigits[i], g);
        var y: Bigit := MulAdd(1, LowWord(MulAdd(bigits[i], f, 0)), carry);
        bigits := bigits[i := y];
        u, t := u + [y], t + [x];
        carry := c;
        i := i + 1;
      }
      assert t == old(bigits) && u == bigits;
      if carry != 0 {
        CarryOne(u, t, exp, f, carry);
        bigits := bigits + [carry];
      } else {
        CarryNone(u, t, exp, f);
      }
    }

    method ShiftLeft(shift: nat)
      modifies this
      ensures Value() == old(Value()) * Pow(2, shift)
      ensures exp == old(exp) + shift / 32
      ensures Normal(old(bigits)) ==> Normal(bigits)
      ensures |old(bigits)| <= |bigits| <= |old(bigits)| + 1
    {
      hide Val, Shl, Pow;
      exp := exp + shift / 32;
      var f, g := Pow(2, shift % 32), Pow(2, 32 - shift % 32);
      ShiftFactors(bigits, old(exp), shift, f, g);
      if shift % 32 == 0 {
        return;
      }
      ShiftBigits(f, g);
    }

    // ----- comparison -----

    static method Compare(lhs: Bigint, rhs: Bigint) returns (r: int)
      ensures r == Order(lhs.bigits, lhs.exp, rhs.bigits, rhs.exp)
    {
      hide Val, Shl;
      var numLhs, numRhs := lhs.NumBigits(), rhs.NumBigits();
      if numLhs != numRhs {
        return if numLhs > numRhs then 1 else -1;
      }
      ghost var s, t := lhs.bigits, rhs.bigits;
      var i, j := |lhs.bigits| - 1, |rhs.bigits| - 1;
      var end := i - j;
      if end < 0 { end := 0; }
      while i >= end
        invariant i - j == |s| - |t| && end - 1 <= i < |s|
        invariant s[i + 1..] == t[j + 1..]
      {
        var l, r := lhs.bigits[i], rhs.bigits[j];
        if l != r {
          if l < r { DecidedAt(s, lhs.exp, t, rhs.exp, i, j); } else { DecidedAt(t, rhs.exp, s, lhs.exp, j, i); }
          return if l > r then 1 else -1;
        }
        assert s[i..] == [l] + s[i + 1..] && t[j..] == [r] + t[j + 1..];
        i, j := i - 1, j - 1;
      }
      if i > j {
        assert t[0..] == t;
        SuffixIsSmaller(s, lhs.exp, t, rhs.exp);
      } else {
        assert s[0..] == s;
        SuffixIsSmaller(t, rhs.exp, s, lhs.exp);
      }
      if i != j {
        return if i > j then 1 else -1;
      }
      assert t[0..] == t;
      return 0;
    }

    function GetBigit(i: nat): Bigit
      reads this
    {
      if exp <= i < NumBigits() then bigits[i - exp] else 0
    }

    static method AddCompare(lhs1: Bigint, lhs2: Bigint, rhs: Bigint) returns (r: int)
      requires Normal(rhs.bigits)
      ensures r == AddOrder(lhs1.bigits, lhs1.exp, lhs2.bigits, lhs2.exp, rhs.bigits, rhs.exp)
    {
      hide Val, Shl, Leads;
      ghost var s1, m1, s2, m2, t, n := lhs1.bigits, lhs1.exp, lhs2.bigits, lhs2.exp, rhs.bigits, rhs.exp;
      var maxLhs, numRhs := Max(lhs1.NumBigits(), lhs2.NumBigits()), rhs.NumBigits();
      if maxLhs + 1 < numRhs {
        SumIsShorter(s1, m1, s2, m2, t, n);
        return -1;
      }
      if maxLhs > numRhs {
        return 1;
      }
      var borrow: Word64 := 0;
      ghost var lead := 0;
      var minExp := Min(Min(lhs1.exp, lhs2.exp), rhs.exp);
      LeadStart(s1, m1, s2, m2, t, n);
      var i := numRhs - 1;
      while i >= minExp
        invariant minExp - 1 <= i < numRhs
        invariant Leads(s1, m1, s2, m2, t, n, i + 1, lead) && 0 <= lead <= 1 && borrow == BASE * lead
      {
        LeadStep(s1, m1, s2, m2, t, n, i, lead);
        var sum: Word64 := lhs1.GetBigit(i) + lhs2.GetBigit(i);
        var rhsBigit := rhs.GetBigit(i);
        lead := rhsBigit + borrow - sum;
        LeadDecides(s1, m1, s2, m2, t, n, i, lead);
        if sum > rhsBigit + borrow {
          return 1;
        }
        borrow := rhsBigit + borrow - sum;
        if borrow > 1 {
          return -1;
        }
        borrow := borrow * BASE;
        i := i - 1;
      }
      LeadEnd(s1, m1, s2, m2, t, n, i + 1, lead);
      return if borrow != 0 then -1 else 0;
    }

    // ----- squaring and powers of ten -----

    /** One cross sum of the low half of square, added to sum. */
    static method AddCrossLow(n: seq<Bigit>, bigitIndex: nat, sum0: Word128) returns (sum: Word128)
      requires bigitIndex < |n|
      requires sum0 + Cross(n, n, bigitIndex) < 0x1_0000_0000_0000_0000_0000_0000_0000_0000
      ensures sum == sum0 + Cross(n, n, bigitIndex)
    {
      hide Cross;
      sum := sum0;
      var i, j := 0, bigitIndex;
      assert n[0..] == n;
      while j >= 0
        invariant 0 <= i && i + j == bigitIndex && -1 <= j
        invariant sum + Cross(n[i..], n, j) == sum0 + Cross(n, n, bigitIndex)
      {
        CrossUnfold(n, n, i, j);
        var x: int, y: int := n[i], n[j];
        BigitProduct(x, y);
        var product: Word64 := x * y;
        sum := sum + product;
        i, j := i + 1, j - 1;
      }
      CrossNegative(n[i..], n, j);
    }

    /** One cross sum of the top half of square, added to sum. */
    static method AddCrossHigh(n: seq<Bigit>, bigitIndex: nat, sum0: Word128) returns (sum: Word128)
      requires |n| <= bigitIndex < 2 * |n|
      requires sum0 + Cross(n, n, bigitIndex) < 0x1_0000_0000_0000_0000_0000_0000_0000_0000
      ensures sum == sum0 + Cross(n, n, bigitIndex)
    {
      hide Cross;
      sum := sum0;
      var j := |n| - 1;
      var i := bigitIndex - j;
      CrossSkip(n, n, bigitIndex, i);
      while i < |n|
        invariant 0 <= i <= |n| && i + j == bigitIndex
        invariant sum + Cross(n[i..], n, j) == sum0 + Cross(n, n, bigitIndex)
      {
        CrossUnfold(n, n, i, j);
        var x: int, y: int := n[i], n[j];
        BigitProduct(x, y);
        var product: Word64 := x * y;
        sum := sum + product;
        i, j := i + 1, j - 1;
      }
      CrossDone(n, n, j);
    }

    method Square()
      requires Normal(bigits) && 2 * |bigits| <= INT_MAX
      modifies this
      ensures Value() == old(Value()) * old(Value())
      ensures Normal(bigits) && exp == 2 * old(exp)
    {
      hide Val, Shl, Squared, Cross, LowWord, HighWord;
      var numBigits := |bigits|;
      var numResultBigits := 2 * numBigits;
      var n := bigits;
      bigits := seq(numResultBigits, _ => 0);
      ghost var u: seq<Bigit> := [];
      var sum: Word128 := 0;
      SquareStart(n, exp + exp);
      var bigitIndex := 0;
      while bigitIndex < numResultBigits
        invariant |bigits| == numResultBigits && exp == old(exp) && |u| == bigitIndex <= numResultBigits
        invariant u == bigits[..bigitIndex]
        invariant 0 <= sum <= numBigits * BASE
        invariant Squared(u, n, exp + exp, sum)
      {
        SquareSumBound(n, bigitIndex, sum);
        SquareStep(u, n, exp + exp, sum, sum + Cross(n, n, bigitIndex));
        if bigitIndex < numBigits {
          sum := AddCrossLow(n, bigitIndex, sum);
        } else {
          sum := AddCrossHigh(n, bigitIndex, sum);
        }
        bigits := bigits[bigitIndex := LowWord(sum)];
        u := u + [LowWord(sum)];
        sum := HighWord(sum);
        bigitIndex := bigitIndex + 1;
      }
      assert u == bigits;
      SquareEnd(u, n, exp, sum);
      SquareNonzero(n, exp);
      RemoveLeadingZeros();
      exp := exp * 2;
      CanonicalZero(bigits, exp);
    }

    /** The largest power of two not above exponent. */
    static method TopBit(exponent: nat) returns (bitmask: nat, ghost b: nat)
      requires 0 < exponent < 0x4000_0000
      ensures bitmask == Pow(2, b) && bitmask <= exponent < 2 * bitmask
    {
      hide Pow;
      bitmask, b := 1, 0;
      PowSmall(2);
      while exponent >= bitmask
        invariant 1 <= bitmask <= 0x4000_0000 && bitmask == Pow(2, b)
        invariant bitmask / 2 <= exponent && (bitmask == 1 ==> b == 0)
        decreases exponent - bitmask
      {
        PowStep(2, b);
        b := b + 1;
        PowerOfTwoCap(b, exponent);
        bitmask := bitmask * 2;
      }
      PowHalf(b);
      bitmask, b := bitmask / 2, b - 1;
    }

    /** One scanned bit of the exponent: the power so far is squared, and multiplied when the bit is set. */
    method AssignPow10Step(exponent: nat, bitmask: nat, ghost p: nat)
      requires exponent < 0x4000_0000 && p == 2 * bitmask > 0
      requires exp == 0 && Normal(bigits) && Value() == Pow(5, Scan(exponent, p))
      modifies this
      ensures exp == 0 && Normal(bigits) && Value() == Pow(5, Scan(exponent, bitmask))
    {
      hide Val, Shl, Pow, Scan;
      ScanStep(exponent, bitmask);
      PowerOfFiveSize(bigits, Scan(exponent, p));
      Square();
      PowSquare(5, Scan(exponent, p));
      if Scan(exponent, bitmask) % 2 != 0 {
        Multiply(5);
        PowStep(5, 2 * Scan(exponent, p));
      }
    }

    /** Assigns 10^exponent: 5^exponent by repeated squaring, then a shift. */
    method AssignPow10(exponent: nat)
      requires exponent < 0x4000_0000
      modifies this
      ensures Value() == Pow(10, exponent)
      ensures Normal(bigits) && exp == exponent / 32
    {
      hide Val, Shl, Pow, Scan;
      PowSmall(10);
      PowSmall(5);
      if exponent == 0 {
        Assign(1);
        return;
      }
      var bitmask, b := TopBit(exponent);
      Assign(5);
      ghost var p := bitmask;
      ScanTop(exponent, p);
      PowHalf(b);
      bitmask := bitmask / 2;
      while bitmask != 0
        invariant p == Pow(2, b) && p > 0 && bitmask == p / 2 && (bitmask != 0 ==> p == 2 * bitmask)
        invariant exp == 0 && Normal(bigits) && Value() == Pow(5, Scan(exponent, p))
      {
        AssignPow10Step(exponent, bitmask, p);
        PowHalf(b);
        p, b := bitmask, b - 1;
        PowHalf(b);
        bitmask := bitmask / 2;
      }
      ScanAll(exponent);
      ShiftLeft(exponent);
      PowBase(5, 2, exponent);
    }

    // ----- alignment and division -----

    /** The loop of align that moves every bigit up, from the top. */
    method MoveUp(difference: nat)
      modifies this`bigits
      ensures |bigits| == |old(bigits)| + difference
      ensures forall j :: difference <= j < |bigits| ==> bigits[j] == old(bigits)[j - difference]
    {
      ghost var s := bigits;
      var i := |bigits| - 1;
      bigits := bigits + seq(difference, _ => 0);
      while i >= 0
        invariant -1 <= i < |s| && |bigits| == |s| + difference
        invariant forall j :: 0 <= j <= i ==> bigits[j] == s[j]
        invariant forall j :: difference + i < j < |bigits| ==> bigits[j] == s[j - difference]
      {
        bigits := bigits[i + difference := bigits[i]];
        i := i - 1;
      }
    }

    /** The fill of align. */
    method FillZeros(count: nat)
      requires count <= |bigits|
      modifies this`bigits
      ensures |bigits| == |old(bigits)|
      ensures forall j :: 0 <= j < count ==> bigits[j] == 0
      ensures forall j :: count <= j < |bigits| ==> bigits[j] == old(bigits)[j]
    {
      var k := 0;
      while k < count
        invariant 0 <= k <= count && |bigits| == |old(bigits)|
        invariant forall j :: 0 <= j < k ==> bigits[j] == 0
        invariant forall j :: count <= j < |bigits| ==> bigits[j] == old(bigits)[j]
      {
        bigits := bigits[k := 0];
        k := k + 1;
      }
    }

    /** Lowers the exponent to other's, if it is larger, by storing zeros below. */
    method Align(other: Bigint)
      modifies this
      ensures exp == Min(old(exp), old(other.exp))
      ensures |bigits| + exp == |old(bigits)| + old(exp)
      ensures Value() == old(Value())
      ensures Normal(old(bigits)) ==> Normal(bigits)
    {
      hide Val, Shl;
      if exp <= other.exp {
        return;
      }
      var difference: nat := exp - other.exp;
      MoveUp(difference);
      FillZeros(difference);
      exp := exp - difference;
      ghost var zeros: seq<Bigit> := seq(difference, _ => 0);
      assert bigits == zeros + old(bigits);
      ZerosBelow(zeros, old(bigits), exp);
    }

    /** Divides in place, leaving the remainder, by repeated subtraction. */
    method DivmodAssign(divisor: Bigint) returns (quotient: nat)
      requires this != divisor && Valid() && Normal(divisor.bigits)
      requires bigits == [0] ==> exp <= divisor.exp
      requires Value() < (INT_MAX + 1) * divisor.Value()
      modifies this
      ensures Valid() && quotient <= INT_MAX
      ensures exp == if quotient > 0 then Min(old(exp), divisor.exp) else old(exp)
      ensures quotient == 0 ==> bigits == old(bigits)
      ensures bigits == [0] ==> exp <= divisor.exp
      ensures if old(Twins(bigits, exp, divisor.bigits, divisor.exp))
              then quotient == 0 && Value() == old(Value())
              else IsDivision(old(Value()), divisor.Value(), quotient, Value())
    {
      hide Val, Shl, LostBorrow;
      ghost var t, n, d := divisor.bigits, divisor.exp, divisor.Value();
      ValNormal(t, n);
      ValEmpty(|t| + n - 1);
      OrderAtLeast(bigits, exp, t, n);
      var c := Compare(this, divisor);
      if c < 0 {
        return 0;
      }
      CanonicalZero(bigits, exp);
      Align(divisor);
      quotient := 0;
      while c >= 0
        invariant Valid() && exp == Min(old(exp), n) && (c < 0 ==> quotient > 0)
        invariant divisor.bigits == t && divisor.exp == n
        invariant old(Value()) == quotient * d + Value()
        invariant c >= 0 <==> Value() >= d
        decreases Value()
      {
        QuotientRoom(quotient, d, Value());
        NoLostBorrow(bigits, exp, t, n);
        SubtractAligned(divisor);
        quotient := quotient + 1;
        OrderAtLeast(bigits, exp, t, n);
        c := Compare(this, divisor);
      }
      QuotientRoom(quotient, d, Value());
    }
  }
}
