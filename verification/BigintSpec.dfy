/** What the operations of a bigint decide or compute, on its stored bigits. */
module BigintSpec {
  import opened Powers
  import opened Bigits

  const INT_MAX: nat := 0x7fff_ffff

  function Sign(x: int): int {
    if x > 0 then 1 else if x < 0 then -1 else 0
  }

  function Min(a: int, b: int): int {
    if a < b then a else b
  }

  function Max(a: int, b: int): int {
    if a < b then b else a
  }

  // ----- comparison -----

  /** compare orders by length, then by value, then by how many bigits are stored. */
  ghost function Order(s: seq<Bigit>, m: nat, t: seq<Bigit>, n: nat): int {
    if |s| + m != |t| + n then Sign(|s| + m - (|t| + n))
    else if Val(s, m) != Val(t, n) then Sign(Val(s, m) - Val(t, n))
    else Sign(|s| - |t|)
  }

  /** A zero stored with so large an exponent that its length exceeds the other operand's. */
  predicate TallZero(s: seq<Bigit>, m: nat, t: seq<Bigit>, n: nat) {
    s == [0] && m + 1 > |t| + n
  }

  /** compare returns the sign of the difference except in exactly two situations. */
  lemma CompareIsSign(s: seq<Bigit>, m: nat, t: seq<Bigit>, n: nat)
    requires Canonical(s) && Normal(t)
    ensures Order(s, m, t, n) == Sign(Val(s, m) - Val(t, n))
       <==> !TallZero(s, m, t, n) && !(Val(s, m) == Val(t, n) && m != n)
  {
    CanonicalZero(s, m);
    ValNormal(t, n);
    if Normal(s) {
      ValNormal(s, m);
      if |s| + m < |t| + n {
        LongerIsLarger(s, m, t, n);
      } else if |s| + m > |t| + n {
        LongerIsLarger(t, n, s, m);
      }
    }
  }

  /** Two stored forms of 2^32 that compare tells apart although they are equal. */
  lemma CompareSplitsEqualValues()
    ensures Val([0, 1], 0) == Val([1], 1)
    ensures Order([0, 1], 0, [1], 1) == 1 && Order([1], 1, [0, 1], 0) == -1
  {
    ValPush([0], 1, 0);
    ValPush([], 0, 0);
    ValPush([], 1, 1);
    assert [0] + [1] == [0, 1] && [] + [0] == [0] && [] + [1] == [1];
  }

  /** A differing bigit decides the order once everything above it agrees. */
  lemma DecidedAt(s: seq<Bigit>, m: nat, t: seq<Bigit>, n: nat, i: nat, j: nat)
    requires i < |s| && j < |t| && i + m == j + n && |s| + m == |t| + n
    requires s[i + 1..] == t[j + 1..] && s[i] < t[j]
    ensures Val(s, m) < Val(t, n)
  {
    var p := i + m;
    AboveBounds(s, m, p);
    AboveBounds(t, n, p);
    AboveIsVal(s, m, p + 1);
    AboveIsVal(t, n, p + 1);
    ShlOrder(s[i], t[j], p);
  }

  /** Extra stored bigits below an agreeing part only add. */
  lemma SuffixIsSmaller(s: seq<Bigit>, m: nat, t: seq<Bigit>, n: nat)
    requires |s| + m == |t| + n && m <= n && s[n - m..] == t
    ensures Val(s, m) >= Val(t, n)
  {
    assert s == s[..n - m] + t;
    ValAppend(s[..n - m], t, m);
  }

  /** add_compare trusts its second early exit whatever made the left side long. */
  ghost function AddOrder(s1: seq<Bigit>, m1: nat, s2: seq<Bigit>, m2: nat, t: seq<Bigit>, n: nat): int {
    if Max(|s1| + m1, |s2| + m2) > |t| + n then 1
    else Sign(Val(s1, m1) + Val(s2, m2) - Val(t, n))
  }

  /** add_compare returns the sign of the sum's difference unless a tall zero triggers the exit. */
  lemma AddCompareIsSign(s1: seq<Bigit>, m1: nat, s2: seq<Bigit>, m2: nat, t: seq<Bigit>, n: nat)
    requires Canonical(s1) && Canonical(s2) && Normal(t)
    ensures AddOrder(s1, m1, s2, m2, t, n) == Sign(Val(s1, m1) + Val(s2, m2) - Val(t, n))
       <==> !((TallZero(s1, m1, t, n) || TallZero(s2, m2, t, n))
              && Val(s1, m1) + Val(s2, m2) <= Val(t, n))
  {
    CanonicalZero(s1, m1);
    CanonicalZero(s2, m2);
    if |s1| + m1 > |t| + n && s1 != [0] { LongerIsLarger(t, n, s1, m1); }
    if |s2| + m2 > |t| + n && s2 != [0] { LongerIsLarger(t, n, s2, m2); }
  }

  /** The right side's lead over the left at positions i and up, in units of position i. */
  ghost predicate Leads(s1: seq<Bigit>, m1: nat, s2: seq<Bigit>, m2: nat, t: seq<Bigit>, n: nat, i: nat, lead: int) {
    Above(t, n, i) - Above(s1, m1, i) - Above(s2, m2, i) == Shl(lead, i)
  }

  lemma LeadStart(s1: seq<Bigit>, m1: nat, s2: seq<Bigit>, m2: nat, t: seq<Bigit>, n: nat)
    requires Max(|s1| + m1, |s2| + m2) <= |t| + n
    ensures Leads(s1, m1, s2, m2, t, n, |t| + n, 0)
  {
    ShlOrder(0, 0, |t| + n);
  }

  lemma LeadStep(s1: seq<Bigit>, m1: nat, s2: seq<Bigit>, m2: nat, t: seq<Bigit>, n: nat, i: nat, lead: int)
    requires Leads(s1, m1, s2, m2, t, n, i + 1, lead)
    ensures Leads(s1, m1, s2, m2, t, n, i,
                  Digit(t, n, i) + BASE * lead - (Digit(s1, m1, i) + Digit(s2, m2, i)))
  {
    var x: int, y1: int, y2: int := Digit(t, n, i), Digit(s1, m1, i), Digit(s2, m2, i);
    ShlStep(lead, i);
    ShlAdd(x, BASE * lead, i);
    ShlAdd(y1, y2, i);
    ShlSub(x + BASE * lead, y1 + y2, i);
    AboveStep(t, n, i);
    AboveStep(s1, m1, i);
    AboveStep(s2, m2, i);
  }

  lemma AboveStep(s: seq<Bigit>, m: nat, i: nat)
    ensures Above(s, m, i) == Shl(Digit(s, m, i), i) + Above(s, m, i + 1)
  {
    ShlOrder(0, 0, i);
  }

  /** A lead below 0 or above 1 cannot be made up by the lower positions. */
  lemma LeadDecides(s1: seq<Bigit>, m1: nat, s2: seq<Bigit>, m2: nat, t: seq<Bigit>, n: nat, i: nat, lead: int)
    requires Leads(s1, m1, s2, m2, t, n, i, lead)
    ensures lead < 0 ==> Val(s1, m1) + Val(s2, m2) > Val(t, n)
    ensures lead > 1 ==> Val(s1, m1) + Val(s2, m2) < Val(t, n)
  {
    AboveBounds(s1, m1, i);
    AboveBounds(s2, m2, i);
    AboveBounds(t, n, i);
    ShlOrder(lead, 0, i);
    ShlOrder(1, lead, i);
  }

  lemma LeadEnd(s1: seq<Bigit>, m1: nat, s2: seq<Bigit>, m2: nat, t: seq<Bigit>, n: nat, i: nat, lead: int)
    requires Leads(s1, m1, s2, m2, t, n, i, lead) && i <= m1 && i <= m2 && i <= n && lead >= 0
    ensures Sign(Val(s1, m1) + Val(s2, m2) - Val(t, n)) == if lead > 0 then -1 else 0
  {
    AboveAll(s1, m1, i);
    AboveAll(s2, m2, i);
    AboveAll(t, n, i);
    ShlOrder(0, lead, i);
  }

  lemma BelowPosition(s: seq<Bigit>, m: nat, p: nat)
    requires |s| + m <= p
    ensures Val(s, m) < Shl(1, p)
  {
    ValBound(s, m);
    ShlOrder(0, 1, m);
    ShlGrows(1, |s| + m, p);
  }

  /** A right side more than one bigit longer exceeds any sum. */
  lemma SumIsShorter(s1: seq<Bigit>, m1: nat, s2: seq<Bigit>, m2: nat, t: seq<Bigit>, n: nat)
    requires Normal(t) && Max(|s1| + m1, |s2| + m2) + 1 < |t| + n
    ensures Val(s1, m1) + Val(s2, m2) < Val(t, n)
  {
    var p := Max(|s1| + m1, |s2| + m2);
    BelowPosition(s1, m1, p);
    BelowPosition(s2, m2, p);
    ShlGrows(1, p + 1, |t| + n - 1);
    ValNormal(t, n);
  }

  // ----- subtraction -----

  /** subtract_aligned's tail loop drops a borrow exactly here: the bigit just above the
      subtrahend is zero and the bigits level with the subtrahend are below it. */
  ghost predicate LostBorrow(s: seq<Bigit>, m: nat, t: seq<Bigit>, n: nat)
    requires m <= n
  {
    && n - m + |t| < |s|
    && s[n - m + |t|] == 0
    && Val(s[n - m..n - m + |t|], n) < Val(t, n)
  }

  /** Taking 1 from 2^64: the borrow meets a zero bigit and goes no further. */
  lemma BorrowIsLost()
    ensures LostBorrow([0, 0, 1], 0, [1], 0)
  {
    assert [0 as Bigit, 0, 1][0..1] == [0];
    assert Val([0], 0) == 0 && Val([1], 0) == 1;
  }

  /** A pending borrow is worth one unit of the position it will be taken from. */
  lemma BorrowStep(u: seq<Bigit>, s: seq<Bigit>, t: seq<Bigit>, k: nat, x: Bigit, y: Bigit, z: Bigit,
                   borrow: Bigit, borrow': Bigit)
    requires |u| == |s| == |t|
    requires Val(u, k) == Val(s, k) - Val(t, k) + Shl(borrow, k + |t|)
    requires z - BASE * borrow' == x - y - borrow
    ensures Val(u + [z], k) == Val(s + [x], k) - Val(t + [y], k) + Shl(borrow', k + |t| + 1)
  {
    ValPush(u, z, k);
    ValPush(s, x, k);
    ValPush(t, y, k);
    var p := k + |t|;
    ShlSub(z, BASE * borrow', p);
    ShlStep(borrow', p);
    ShlSub(x - y, borrow, p);
    ShlSub(x, y, p);
  }

  /** The subtrahend's top does not reach above the minuend's. */
  lemma FitsBelow(s: seq<Bigit>, m: nat, t: seq<Bigit>, n: nat)
    requires Normal(t) && m <= n && Val(s, m) >= Val(t, n)
    ensures n - m + |t| <= |s|
  {
    if |s| + m < |t| + n { LongerIsLarger(s, m, t, n); }
  }

  /** The borrow left over tells whether the level bigits were below the subtrahend. */
  lemma BorrowOut(sm: seq<Bigit>, um: seq<Bigit>, t: seq<Bigit>, n: nat, borrow: Bigit)
    requires |sm| == |um| == |t| && borrow <= 1
    requires Val(um, n) == Val(sm, n) - Val(t, n) + Shl(borrow, n + |t|)
    ensures borrow == 1 <==> Val(sm, n) < Val(t, n)
  {
    ShlOrder(0, 1, n);
    ShlOrder(0, 1, n + |t|);
    ValBound(um, n);
    ValBound(sm, n);
  }

  /** A subtrahend level with the top of a minuend that is not smaller leaves no borrow. */
  lemma NoRoom(lo: seq<Bigit>, m: nat, sm: seq<Bigit>, t: seq<Bigit>)
    requires Val(sm, m + |lo|) < Val(t, m + |lo|)
    ensures Val(lo + sm, m) < Val(t, m + |lo|)
  {
    var n := m + |lo|;
    ValAppend(lo, sm, m);
    ValBound(lo, m);
    ShlOrder(0, 1, m);
    ValShift(sm, 0, n);
    ValShift(t, 0, n);
    ShlOrder(Val(sm, 0), Val(t, 0), n);
  }

  /** What the tail loop leaves of the bigit it takes a borrow from. */
  function TakenOne(x: Bigit): Bigit {
    if x == 0 then 0xffff_fffe else x - 1
  }

  /** Assembles untouched, level and tail bigits into the whole difference. */
  lemma SubtractedValue(lo: seq<Bigit>, sm: seq<Bigit>, st: seq<Bigit>, um: seq<Bigit>, ut: seq<Bigit>,
                        t: seq<Bigit>, m: nat, borrow: Bigit)
    requires |um| == |sm| == |t| && borrow <= 1
    requires Val(um, m + |lo|) == Val(sm, m + |lo|) - Val(t, m + |lo|) + Shl(borrow, m + |lo| + |t|)
    requires borrow == 0 ==> ut == st
    requires borrow == 1 ==> |st| == |ut| > 0 && ut[1..] == st[1..] && ut[0] == TakenOne(st[0])
    ensures Val(lo + um + ut, m) == Val(lo + sm + st, m) - Val(t, m + |lo|)
              + if borrow == 1 && st[0] == 0 then Shl(BASE - 1, m + |lo| + |t|) else 0
  {
    ThreeParts(lo, sm, st, m);
    ThreeParts(lo, um, ut, m);
    if borrow == 1 {
      TakenOneValue(st, ut, m + |lo| + |t|);
    } else {
      ShlOrder(0, 0, m + |lo| + |t|);
    }
  }

  lemma LostBorrowParts(lo: seq<Bigit>, sm: seq<Bigit>, st: seq<Bigit>, t: seq<Bigit>, m: nat)
    requires |sm| == |t|
    ensures LostBorrow(lo + sm + st, m, t, m + |lo|)
       <==> st != [] && st[0] == 0 && Val(sm, m + |lo|) < Val(t, m + |lo|)
  {
    assert (lo + sm + st)[|lo|..|lo| + |t|] == sm;
  }

  lemma TakenOneValue(s: seq<Bigit>, u: seq<Bigit>, k: nat)
    requires |s| == |u| > 0 && u[1..] == s[1..] && u[0] == TakenOne(s[0])
    ensures Val(u, k) == Val(s, k) - Shl(1, k) + if s[0] == 0 then Shl(BASE - 1, k) else 0
  {
    ValHead(s, k);
    ValHead(u, k);
    if s[0] == 0 {
      ShlSub(BASE - 1, 1, k);
      ShlOrder(0, 0, k);
    } else {
      ShlSub(s[0], 1, k);
    }
  }

  lemma ThreeParts(lo: seq<Bigit>, mid: seq<Bigit>, hi: seq<Bigit>, m: nat)
    ensures Val(lo + mid + hi, m) == Val(lo, m) + Val(mid, m + |lo|) + Val(hi, m + |lo| + |mid|)
  {
    ValAppend(lo + mid, hi, m);
    ValAppend(lo, mid, m);
  }

  // ----- multiplication -----

  /** A bigit times a factor, plus a carry within the factor, needs no more than one further factor. */
  lemma CarryBound(x: Bigit, factor: nat, carry: nat)
    requires carry <= factor
    ensures 0 <= x * factor + carry <= BASE * factor
    ensures (x * factor + carry) / BASE <= factor
  {
    var y: int := x;
    MulLe(y, BASE - 1, factor);
    MulLe(0, y, factor);
  }

  /** u and the carry above it make up s times factor. */
  ghost predicate Carried(u: seq<Bigit>, s: seq<Bigit>, k: nat, factor: nat, carry: nat) {
    && |u| == |s|
    && Val(u, k) + Shl(carry, k + |s|) == Val(s, k) * factor
  }

  lemma CarryStart(k: nat, factor: nat)
    ensures Carried([], [], k, factor, 0)
  {
    ValEmpty(k);
  }

  /** One step of a carry chain that multiplies by factor. */
  lemma CarryStep(u: seq<Bigit>, s: seq<Bigit>, k: nat, factor: nat, carry: nat, x: Bigit, y: Bigit, carry': nat)
    requires Carried(u, s, k, factor, carry)
    requires x * factor + carry == y + BASE * carry'
    ensures Carried(u + [y], s + [x], k, factor, carry')
  {
    var p := k + |s|;
    calc {
      Val(s + [x], k) * factor;
      { ValPush(s, x, k); }
      (Val(s, k) + Shl(x, p)) * factor;
      { ShlTimes(x, factor, p); Distribute(Val(s, k), Shl(x, p), factor); }
      Val(s, k) * factor + Shl(x * factor, p);
      { ShlAdd(x * factor, carry, p); }
      Val(u, k) + Shl(x * factor + carry, p);
      { ShlAdd(y, BASE * carry', p); ShlStep(carry', p); }
      Val(u, k) + Shl(y, p) + Shl(carry', p + 1);
      { ValPush(u, y, k); }
      Val(u + [y], k) + Shl(carry', p + 1);
    }
  }

  /** One bigit of a product by a factor of any width. */
  lemma MulStep(u: seq<Bigit>, s: seq<Bigit>, k: nat, factor: nat, carry: nat, x: Bigit)
    requires Carried(u, s, k, factor, carry) && carry <= factor
    ensures var r := MulAdd(x, factor, carry);
      && r <= MulAdd(BASE, factor, 0)
      && HighWord(r) <= factor
      && Carried(u + [LowWord(r)], s + [x], k, factor, HighWord(r))
  {
    CarryBound(x, factor, carry);
    var r := x * factor + carry;
    CarryStep(u, s, k, factor, carry, x, r % BASE, r / BASE);
  }

  lemma ZeroProduct(factor: nat)
    ensures MulAdd(0, factor, 0) == 0 && LowWord(0) == 0 && HighWord(0) == 0
  {
  }

  lemma NarrowProduct(x: Bigit, factor: Bigit, carry: nat)
    requires carry <= factor
    ensures MulAdd(x, factor, carry) < WORD64
  {
    CarryBound(x, factor, carry);
  }

  /** The end of a carry chain without a carry. */
  lemma CarryNone(u: seq<Bigit>, s: seq<Bigit>, k: nat, factor: nat)
    requires Carried(u, s, k, factor, 0)
    ensures Val(u, k) == Val(s, k) * factor
    ensures Normal(s) && factor > 0 ==> Normal(u)
  {
    ValEmpty(k + |s|);
    if Normal(s) && factor > 0 { TopStays(s, u, k, factor); }
  }

  /** The end of a carry chain whose carry fills one more bigit. */
  lemma CarryOne(u: seq<Bigit>, s: seq<Bigit>, k: nat, factor: nat, carry: Bigit)
    requires Carried(u, s, k, factor, carry)
    ensures Val(u + [carry], k) == Val(s, k) * factor
  {
    ValPush(u, carry, k);
  }

  /** The carry of the wide multiply, from the products of the two halves. */
  function WideCarry(upper: nat, x: Bigit, shifted: nat, result: nat, carry: nat): nat {
    upper * x * shifted + result / BASE + carry / BASE
  }

  /** The split product of the wide multiply: no intermediate overflows, and the new carry is exact. */
  lemma SplitProduct(x: Bigit, value: Word128, half: nat, halfRange: nat, shifted: nat, carry: Word128)
    requires (half == 32 && halfRange == BASE && shifted == 1 && value < WORD64)
          || (half == 64 && halfRange == WORD64 && shifted == BASE)
    requires carry <= value
    ensures var result := MulAdd(value % halfRange, x, LowWord(carry));
      && 0 <= result < halfRange * BASE
      && LowWord(result) == LowWord(MulAdd(x, value, carry))
      && WideCarry(value / halfRange, x, shifted, result, carry) == HighWord(MulAdd(x, value, carry)) <= value
  {
    var lower, upper := value % halfRange, value / halfRange;
    CarryBound(x, value, carry);
    CarryBound(x, lower, 0);
    LowHalf(x, lower, halfRange, carry % BASE);
    ProductSplit(x, lower, upper, halfRange, shifted);
    assert value == upper * halfRange + lower;
    WordDivided(x * value + carry, upper * x * shifted + carry / BASE, lower * x + carry % BASE);
    MulLe(0, x, upper);
  }

  lemma LowHalf(x: Bigit, lower: nat, halfRange: nat, c: nat)
    requires lower < halfRange && c < BASE
    ensures 0 <= lower * x + c < halfRange * BASE
  {
    var y: int := x;
    MulLe(0, y, lower);
    MulLe(y, BASE - 1, lower);
    assert y * lower == lower * y;
  }

  lemma ProductSplit(x: int, lower: int, upper: int, halfRange: int, shifted: int)
    requires halfRange == BASE * shifted
    ensures x * (upper * halfRange + lower) == BASE * (upper * x * shifted) + lower * x
  {
    calc {
      x * (upper * halfRange);
      { MulAssoc(x, upper, halfRange); assert x * upper == upper * x; }
      (upper * x) * (BASE * shifted);
      BASE * (upper * x * shifted);
    }
  }

  lemma WordDivided(n: int, a: int, r: int)
    requires n == BASE * a + r
    ensures n / BASE == a + r / BASE && n % BASE == r % BASE
  {
  }

  /** A carry pushed on top. */
  lemma CarryPush(u: seq<Bigit>, k: nat, carry: nat)
    ensures Val(u + [carry % BASE], k) + Shl(carry / BASE, k + |u| + 1) == Val(u, k) + Shl(carry, k + |u|)
  {
    ValPush(u, carry % BASE, k);
    ShlAdd(carry % BASE, BASE * (carry / BASE), k + |u|);
    ShlStep(carry / BASE, k + |u|);
  }

  /** A product that fits the same positions keeps a nonzero top bigit. */
  lemma TopStays(s: seq<Bigit>, u: seq<Bigit>, k: nat, value: nat)
    requires Normal(s) && value > 0 && |u| == |s|
    requires Val(u, k) == Val(s, k) * value
    ensures Normal(u)
  {
    ValNormal(s, k);
    hide Val, Shl;
    Grows(Val(s, k), value);
    TopNonzero(u, k);
  }

  lemma Grows(a: int, b: int)
    requires a >= 0 && b >= 1
    ensures a * b >= a
  {
    MulLe(1, b, a);
  }

  lemma TopNonzero(u: seq<Bigit>, k: nat)
    requires |u| > 0 && Val(u, k) >= Shl(1, k + |u| - 1)
    ensures Normal(u)
  {
    ValBound(u[..|u| - 1], k);
    ShlOrder(0, 1, k);
    ShlOrder(0, 0, k + |u| - 1);
  }

  // ----- squaring -----

  function At(s: seq<Bigit>, i: int): Bigit {
    if 0 <= i < |s| then s[i] else 0
  }

  /** The sum of a[i] * b[m - i] over all positions of a. */
  function Cross(a: seq<Bigit>, b: seq<Bigit>, m: int): nat
    decreases |a|
  {
    if |a| == 0 then 0 else a[0] * At(b, m) + Cross(a[1..], b, m - 1)
  }

  /** The first k cross sums, the m-th of them at weight BASE^(m + e). */
  ghost function CrossSum(a: seq<Bigit>, b: seq<Bigit>, k: nat, e: nat): int
    decreases k
  {
    if k == 0 then 0 else CrossSum(a, b, k - 1, e) + Shl(Cross(a, b, k - 1), k - 1 + e)
  }

  ghost function WeightedSum(b: seq<Bigit>, k: nat, e: nat): int
    decreases k
  {
    if k == 0 then 0 else WeightedSum(b, k - 1, e) + Shl(At(b, k - 1), k - 1 + e)
  }

  lemma {:induction false} WeightedSumIsVal(b: seq<Bigit>, k: nat, e: nat)
    ensures WeightedSum(b, k, e) == Val(if k <= |b| then b[..k] else b, e)
    decreases k
  {
    if k == 0 {
    } else if k <= |b| {
      WeightedSumIsVal(b, k - 1, e);
      assert b[..k][..k - 1] == b[..k - 1];
    } else {
      WeightedSumIsVal(b, k - 1, e);
      assert b[..|b|] == b;
      ShlOrder(0, 0, k - 1 + e);
    }
  }

  lemma {:induction false} CrossNegative(a: seq<Bigit>, b: seq<Bigit>, m: int)
    requires m < 0
    ensures Cross(a, b, m) == 0
    decreases |a|
  {
    if a != [] { CrossNegative(a[1..], b, m - 1); }
  }

  lemma {:induction false} CrossSumHead(a: seq<Bigit>, b: seq<Bigit>, k: nat, e: nat)
    requires a != [] && k > 0
    ensures CrossSum(a, b, k, e) == WeightedSum(b, k, e) * a[0] + CrossSum(a[1..], b, k - 1, e + 1)
    decreases k
  {
    var x: int, a', y: int, p := a[0], a[1..], At(b, k - 1), k - 1 + e;
    var c := Cross(a', b, k - 2);
    calc {
      CrossSum(a, b, k, e);
      { assert x * y == y * x; ShlAdd(y * x, c, p); ShlTimes(y, x, p); }
      CrossSum(a, b, k - 1, e) + Shl(y, p) * x + Shl(c, p);
      { if k == 1 { CrossNegative(a', b, -1); ShlOrder(0, 0, p); } else { CrossSumHead(a, b, k - 1, e); } }
      WeightedSum(b, k - 1, e) * x + CrossSum(a', b, k - 1, e + 1) + Shl(y, p) * x;
      { Distribute(WeightedSum(b, k - 1, e), Shl(y, p), x); }
      WeightedSum(b, k, e) * x + CrossSum(a', b, k - 1, e + 1);
    }
  }

  /** All cross sums together make the product. */
  lemma {:induction false} CrossSumIsProduct(a: seq<Bigit>, b: seq<Bigit>, k: nat, m: nat, n: nat)
    requires k >= |a| + |b|
    ensures CrossSum(a, b, k, m + n) == Val(a, m) * Val(b, n)
    decreases |a|
  {
    if a == [] {
      CrossSumOfEmpty(b, k, m + n);
    } else {
      var v, x: int := Val(b, n), a[0];
      calc {
        CrossSum(a, b, k, m + n);
        { CrossSumHead(a, b, k, m + n); }
        WeightedSum(b, k, m + n) * a[0] + CrossSum(a[1..], b, k - 1, m + n + 1);
        { WeightedSumIsVal(b, k, m + n); assert b[..|b|] == b; ValShift(b, n, m); }
        Shl(v, m) * a[0] + CrossSum(a[1..], b, k - 1, m + n + 1);
        { CrossSumIsProduct(a[1..], b, k - 1, m + 1, n); }
        Shl(v, m) * a[0] + Val(a[1..], m + 1) * v;
        { ShlTimes(v, x, m); assert v * x == x * v; ShlTimes(x, v, m); }
        Shl(a[0], m) * v + Val(a[1..], m + 1) * v;
        { Distribute(Shl(a[0], m), Val(a[1..], m + 1), v); ValHead(a, m); }
        Val(a, m) * v;
      }
    }
  }

  lemma {:induction false} CrossSumOfEmpty(b: seq<Bigit>, k: nat, e: nat)
    ensures CrossSum([], b, k, e) == 0
    decreases k
  {
    if k > 0 {
      CrossSumOfEmpty(b, k - 1, e);
      ShlOrder(0, 0, k - 1 + e);
    }
  }

  /** Positions whose partner lies beyond the top contribute nothing. */
  lemma {:induction false} CrossSkip(a: seq<Bigit>, b: seq<Bigit>, m: int, i: nat)
    requires i <= |a| && m - i >= |b| - 1
    ensures Cross(a, b, m) == Cross(a[i..], b, m - i)
    decreases |a|
  {
    if i == 0 {
      assert a[0..] == a;
    } else {
      CrossSkip(a[1..], b, m - 1, i - 1);
      assert a[1..][i - 1..] == a[i..];
    }
  }

  lemma BigitProduct(x: Bigit, y: Bigit)
    ensures 0 <= x * y < WORD64
  {
    var a: int := x;
    MulLe(0, a, y);
    MulLe(a, BASE, y);
  }

  lemma CrossDone(a: seq<Bigit>, b: seq<Bigit>, m: int)
    ensures Cross(a[|a|..], b, m) == 0
  {
  }

  lemma CrossUnfold(a: seq<Bigit>, b: seq<Bigit>, i: nat, m: int)
    requires i < |a|
    ensures Cross(a[i..], b, m) == a[i] * At(b, m) + Cross(a[i + 1..], b, m - 1)
  {
    assert a[i..][1..] == a[i + 1..];
  }

  lemma {:induction false} CrossBound(a: seq<Bigit>, b: seq<Bigit>, m: int)
    ensures Cross(a, b, m) <= |a| * ((BASE - 1) * (BASE - 1))
    decreases |a|
  {
    if a != [] {
      CrossBound(a[1..], b, m - 1);
      MulLe(a[0], BASE - 1, At(b, m));
      MulLe(At(b, m), BASE - 1, BASE - 1);
    }
  }

  /** u, with sum carried above it, holds the cross sums of n below position |u|. */
  ghost predicate Squared(u: seq<Bigit>, n: seq<Bigit>, e: nat, sum: nat) {
    Val(u, e) + Shl(sum, e + |u|) == CrossSum(n, n, |u|, e)
  }

  lemma SquareStart(n: seq<Bigit>, e: nat)
    ensures Squared([], n, e, 0)
  {
    ValEmpty(e);
  }

  /** Storing the low bigit of the running sum and keeping the rest as carry. */
  lemma SquareStep(u: seq<Bigit>, n: seq<Bigit>, e: nat, sum: nat, total: nat)
    requires Squared(u, n, e, sum)
    requires total == sum + Cross(n, n, |u|)
    ensures Squared(u + [LowWord(total)], n, e, HighWord(total))
  {
    CarryPush(u, e, total);
    ShlAdd(sum, Cross(n, n, |u|), e + |u|);
  }

  lemma SquareEnd(u: seq<Bigit>, n: seq<Bigit>, m: nat, sum: nat)
    requires |u| == 2 * |n| && Squared(u, n, m + m, sum)
    ensures Val(u, m + m) == Val(n, m) * Val(n, m)
  {
    CrossSumIsProduct(n, n, |u|, m, m);
    var v, b, p := Val(n, m), Shl(1, m + |n|), m + m + |u|;
    assert v < b by { ValBound(n, m); ShlOrder(0, 1, m); }
    assert b * b == Shl(1, p) by {
      ShlTimes(1, b, m + |n|);
      ShlShl(1, m + |n|, m + |n|);
      assert 1 * b == b;
    }
    assert v * v < b * b by { MulLe(v, b, v); MulLt(v, b, b); assert b * v == v * b; }
    ShlOrder(0, 0, p);
    if sum > 0 { ShlGrowsWith(1, sum, p); }
  }

  lemma SquareNonzero(n: seq<Bigit>, m: nat)
    requires Normal(n)
    ensures Val(n, m) * Val(n, m) > 0
  {
    ValNormal(n, m);
    MulLt(0, Val(n, m), Val(n, m));
  }

  lemma ShlGrowsWith(x: int, y: int, k: nat)
    requires x <= y
    ensures Shl(x, k) <= Shl(y, k)
  {
    ShlOrder(x, y, k);
  }

  /** The running sum of square never outgrows its 128-bit accumulator. */
  lemma SquareSumBound(n: seq<Bigit>, m: int, sum: nat)
    requires |n| <= INT_MAX && sum <= |n| * BASE
    ensures sum + Cross(n, n, m) <= |n| * (BASE * BASE) < 0x1_0000_0000_0000_0000_0000_0000_0000_0000
    ensures 0 <= HighWord(sum + Cross(n, n, m)) <= |n| * BASE
  {
    CrossBound(n, n, m);
  }

  // ----- alignment -----

  lemma ZerosBelow(zeros: seq<Bigit>, s: seq<Bigit>, k: nat)
    requires forall i :: 0 <= i < |zeros| ==> zeros[i] == 0
    ensures Val(zeros + s, k) == Val(s, k + |zeros|)
  {
    ValAppend(zeros, s, k);
    ValZeros(zeros, k);
  }

  // ----- division -----

  /** The one pair of operands that divmod_assign does not divide: equal values of which the
      dividend carries the larger exponent. */
  ghost predicate Twins(s: seq<Bigit>, m: nat, t: seq<Bigit>, n: nat) {
    Val(s, m) == Val(t, n) && m > n
  }

  /** q and r are quotient and remainder of n by d. */
  ghost predicate IsDivision(n: int, d: int, q: int, r: int) {
    n == q * d + r && 0 <= r < d
  }

  lemma OrderAtLeast(s: seq<Bigit>, m: nat, t: seq<Bigit>, n: nat)
    requires Canonical(s) && Normal(t)
    requires s == [0] ==> m <= n
    ensures Order(s, m, t, n) >= 0 <==> Val(s, m) >= Val(t, n) && !Twins(s, m, t, n)
  {
    CompareIsSign(s, m, t, n);
    if Val(s, m) == Val(t, n) {
      ValNormal(t, n);
      CanonicalZero(s, m);
      if |s| + m < |t| + n { LongerIsLarger(s, m, t, n); }
      if |s| + m > |t| + n { LongerIsLarger(t, n, s, m); }
    }
  }

  /** A quotient below 2^32 keeps the dividend at most one bigit above the divisor. */
  lemma NoLostBorrow(s: seq<Bigit>, m: nat, t: seq<Bigit>, n: nat)
    requires Canonical(s) && Normal(t) && m <= n && Val(s, m) < BASE * Val(t, n)
    ensures !LostBorrow(s, m, t, n)
  {
    var k := n - m + |t|;
    if k + 1 < |s| {
      ValNormal(s, m);
      ValBound(t, n);
      ShlOrder(0, 1, n);
      ShlGrows(1, m + k + 1, m + |s| - 1);
      assert Shl(1, n + |t| + 1) == BASE * Shl(1, n + |t|);
      hide Val, Shl;
      BelowShifted(Val(s, m), Val(t, n), Shl(1, n + |t|));
      assert false;
    }
  }

  lemma BelowShifted(x: int, y: int, b: int)
    requires x < BASE * y && y < b
    ensures x < BASE * b
  {
  }

  // ----- shifting by bits -----

  lemma ShiftFactors(s: seq<Bigit>, m: nat, shift: nat, f: nat, g: nat)
    requires f == Pow(2, shift % 32) && g == Pow(2, 32 - shift % 32)
    ensures f > 0 && g > 0 && SplitsWord(f, g)
    ensures Val(s, m + shift / 32) * f == Val(s, m) * Pow(2, shift)
    ensures shift % 32 == 0 ==> Val(s, m + shift / 32) == Val(s, m) * Pow(2, shift)
  {
    var d, r := shift / 32, shift % 32;
    PowPositive(2, r);
    PowPositive(2, 32 - r);
    PowAdd(2, r, 32 - r);
    WordIsPower();
    var v := Val(s, m);
    calc {
      Val(s, m + d) * f;
      { ValShift(s, m, d); ShlPow(v, d); }
      (v * Pow(BASE, d)) * f;
      { MulAssoc(v, Pow(BASE, d), f); }
      v * (Pow(BASE, d) * f);
      { PowPow(2, 32, d); assert Pow(BASE, d) == Pow(2, 32 * d); PowAdd(2, 32 * d, r); assert shift == 32 * d + r; }
      v * Pow(2, shift);
    }
  }

  lemma WordIsPower()
    ensures Pow(2, 32) == BASE
  {
    assert Pow(2, 8) == 256;
    PowAdd(2, 8, 8);
    PowAdd(2, 16, 16);
  }

  lemma ShlIdentity(x: int)
    ensures Shl(x, 0) == x
  {
  }

  lemma ShiftParts(y: int, f: int, g: int, base: int, q: int, r: int)
    requires f * g == base && f > 0 && g > 0 && 0 <= y < base && y == q * g + r && 0 <= r < g
    ensures q < f && y * f == q * base + r * f && 0 <= r * f && r * f + f <= base
  {
    calc {
      y * f;
      { Distribute(q * g, r, f); }
      q * g * f + r * f;
      { MulAssoc(q, g, f); }
      q * base + r * f;
    }
    MulLe(0, r, f);
    MulLe(r + 1, g, f);
    Distribute(r, 1, f);
    if q >= f { MulLe(f, q, g); }
  }

  /** Shifting a bigit left by less than a word: what leaves at the top and what stays. */
  lemma ShiftBits(x: Bigit, f: nat, g: nat, carry: nat)
    requires f * g == BASE && g > 0 && carry < f
    ensures x / g < f
    ensures 0 <= (x * f) % BASE + carry < BASE
    ensures x * f + carry == ((x * f) % BASE + carry) + BASE * (x / g)
  {
    DivParts(x, g);
    ShiftParts(x, f, g, BASE, x / g, x % g);
    DivModUnique(x * f, BASE, x / g, x % g * f);
  }

  lemma DivBelow(x: nat, g: nat)
    requires g > 0
    ensures 0 <= x / g <= x
  {
    var q, r := x / g, x % g;
    assert x == q * g + r;
    MulLe(1, g, q);
    assert q * g == g * q;
  }

  /** f == 2^shift and g == 2^(32 - shift) split a word. */
  ghost predicate SplitsWord(f: nat, g: nat) {
    f * g == BASE
  }

  /** The bits of x that a left shift moves out at the top: x >> (32 - shift), with g == 2^(32 - shift). */
  function ShiftOut(x: Bigit, g: nat): nat
    requires g > 0
  {
    x / g
  }

  /** One step of a shift by less than a word. */
  lemma ShiftStep(u: seq<Bigit>, t: seq<Bigit>, k: nat, f: nat, g: nat, carry: nat, x: Bigit)
    requires SplitsWord(f, g) && g > 0 && carry < f
    requires Carried(u, t, k, f, carry)
    ensures ShiftOut(x, g) < f && ShiftOut(x, g) < BASE && MulAdd(1, LowWord(MulAdd(x, f, 0)), carry) < BASE
    ensures Carried(u + [MulAdd(1, LowWord(MulAdd(x, f, 0)), carry)], t + [x], k, f, ShiftOut(x, g))
  {
    ShiftBits(x, f, g, carry);
    assert 0 <= x / g <= x by { DivBelow(x, g); }
    CarryStep(u, t, k, f, carry, x, (x * f) % BASE + carry, x / g);
  }

  // ----- powers -----

  /** A power of five takes no more bigits than its exponent, plus one. */
  lemma PowerOfFiveSize(s: seq<Bigit>, x: nat)
    requires Normal(s) && Val(s, 0) == Pow(5, x)
    ensures |s| <= x + 1
  {
    ValNormal(s, 0);
    if |s| - 1 >= x + 1 {
      ShlGrows(1, x + 1, |s| - 1);
      FiveBelowBase(x);
    }
  }

  lemma {:induction false} FiveBelowBase(x: nat)
    ensures Pow(5, x) < Shl(1, x + 1)
  {
    if x > 0 { FiveBelowBase(x - 1); }
  }

  lemma PowSmall(b: nat)
    ensures Pow(b, 0) == 1 && Pow(b, 1) == b
  {
  }

  lemma PowStep(b: nat, n: nat)
    ensures Pow(b, n + 1) == Pow(b, n) * b
  {
  }

  lemma PowSquare(b: nat, n: nat)
    ensures Pow(b, n) * Pow(b, n) == Pow(b, 2 * n)
  {
    PowAdd(b, n, n);
  }

  lemma PowHalf(b: nat)
    ensures Pow(2, b) > 0
    ensures b > 0 ==> Pow(2, b) / 2 == Pow(2, b - 1) && Pow(2, b) % 2 == 0
    ensures Pow(2, b) / 2 == 0 <==> b == 0
  {
    PowPositive(2, b);
    if b > 0 { PowPositive(2, b - 1); }
  }

  /** Doubling a power of two that an exponent below 2^30 still reaches stays within int. */
  lemma PowerOfTwoCap(b: nat, exponent: nat)
    requires b > 0 && Pow(2, b - 1) <= exponent < 0x4000_0000
    ensures Pow(2, b) <= 0x4000_0000
  {
    assert Pow(2, 15) == 32768;
    PowAdd(2, 15, 15);
    if b > 30 { PowMonotone(2, 30, b - 1); } else { PowMonotone(2, b, 30); }
  }

  /** The bits of an exponent from the one masked by p upwards; the masked bit is set when this is odd. */
  function Scan(exponent: nat, p: nat): nat
    requires p > 0
  {
    exponent / p
  }

  lemma ScanTop(exponent: nat, p: nat)
    requires 0 < p <= exponent < 2 * p
    ensures Scan(exponent, p) == 1
  {
    DivModUnique(exponent, p, 1, exponent - p);
  }

  lemma ScanAll(exponent: nat)
    ensures Scan(exponent, 1) == exponent
  {
  }

  /** Moving the scanned bit one place down. */
  lemma ScanStep(exponent: nat, h: nat)
    requires h > 0
    ensures Scan(exponent, h) == 2 * Scan(exponent, 2 * h) + Scan(exponent, h) % 2
    ensures Scan(exponent, 2 * h) <= exponent / 2
  {
    ScanHalves(exponent, h, 2 * h);
  }

  lemma ScanHalves(exponent: nat, h: nat, d: nat)
    requires h > 0 && d == 2 * h
    ensures exponent / h == 2 * (exponent / d) || exponent / h == 2 * (exponent / d) + 1
    ensures exponent / d <= exponent / 2
  {
    DivParts(exponent, d);
    TwiceFactor(exponent / d, d, h);
    HalvedDivision(exponent, h, exponent / d, exponent % d);
  }

  lemma TwiceFactor(q: int, d: int, h: int)
    requires d == 2 * h
    ensures q * d == (2 * q) * h
  {
    MulAssoc(q, 2, h);
  }

  lemma HalvedDivision(exponent: int, h: int, q: int, r: int)
    requires h > 0 && exponent == (2 * q) * h + r && 0 <= r < 2 * h && q >= 0
    ensures exponent / h == 2 * q + if r < h then 0 else 1
    ensures 2 * q <= exponent
  {
    MulLe(1, h, 2 * q);
    if r < h {
      DivModUnique(exponent, h, 2 * q, r);
    } else {
      DivModUnique(exponent, h, 2 * q + 1, r - h);
    }
  }

  /** What is left of a number is at most its bound, so the count of subtractions is too. */
  lemma QuotientRoom(q: nat, d: nat, rest: nat)
    requires d > 0 && q * d + rest < (INT_MAX + 1) * d
    ensures q <= INT_MAX && rest < BASE * d
    ensures rest >= d ==> q < INT_MAX
    ensures (q + 1) * d == q * d + d
  {
    if q > INT_MAX { MulLe(INT_MAX + 1, q, d); }
    if q >= INT_MAX && rest >= d { MulLe(INT_MAX, q, d); }
    MulLe(INT_MAX + 1, BASE, d);
    MulLe(0, q, d);
  }
}
