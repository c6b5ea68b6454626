/** Little-endian digit strings in base 2^32: what the array inside a bigint denotes. */
module Bigits {
  import opened Powers

  const BASE: nat := 0x1_0000_0000
  const WORD64: nat := 0x1_0000_0000_0000_0000

  type Bigit = x: int | 0 <= x < 0x1_0000_0000
  type Word64 = x: int | 0 <= x < 0x1_0000_0000_0000_0000
  type Word128 = x: int | 0 <= x < 0x1_0000_0000_0000_0000_0000_0000_0000_0000

  // ----- word arithmetic -----

  /** The cast of a wider word to a bigit. */
  function LowWord(n: nat): Bigit {
    n % BASE
  }

  /** A right shift by one bigit. */
  function HighWord(n: nat): nat {
    n / BASE
  }

  /** A product plus a carry, before any truncation. */
  function MulAdd(x: nat, y: nat, carry: nat): nat {
    x * y + carry
  }

  // ----- numbers moved up by whole positions -----

  /** x moved up by k positions: x * BASE^k. */
  function Shl(x: int, k: nat): int {
    if k == 0 then x else 0x1_0000_0000 * Shl(x, k - 1)
  }

  lemma {:induction false} ShlAdd(x: int, y: int, k: nat)
    ensures Shl(x + y, k) == Shl(x, k) + Shl(y, k)
  {
    if k > 0 { ShlAdd(x, y, k - 1); }
  }

  lemma {:induction false} ShlSub(x: int, y: int, k: nat)
    ensures Shl(x - y, k) == Shl(x, k) - Shl(y, k)
  {
    if k > 0 { ShlSub(x, y, k - 1); }
  }

  lemma {:induction false} ShlStep(x: int, k: nat)
    ensures Shl(BASE * x, k) == Shl(x, k + 1)
  {
    if k > 0 { ShlStep(x, k - 1); }
  }

  lemma {:induction false} ShlOrder(x: int, y: int, k: nat)
    ensures x < y <==> Shl(x, k) < Shl(y, k)
    ensures x < y ==> Shl(x, k) + Shl(1, k) <= Shl(y, k)
    ensures Shl(0, k) == 0 && Shl(1, k) > 0
  {
    if k > 0 { ShlOrder(x, y, k - 1); }
  }

  lemma {:induction false} ShlShl(x: int, j: nat, k: nat)
    ensures Shl(Shl(x, j), k) == Shl(x, j + k)
  {
    if k > 0 { ShlShl(x, j, k - 1); }
  }

  lemma {:induction false} ShlTimes(x: int, f: int, k: nat)
    ensures Shl(x * f, k) == Shl(x, k) * f
  {
    if k > 0 {
      ShlTimes(x, f, k - 1);
      MulAssoc(BASE, Shl(x, k - 1), f);
    }
  }

  lemma ShlPow(x: int, k: nat)
    ensures Shl(x, k) == x * Pow(BASE, k)
  {
    ShlTimes(1, x, k);
    ShlOne(k);
    assert 1 * x == x;
  }

  lemma {:induction false} ShlOne(k: nat)
    ensures Shl(1, k) == Pow(BASE, k)
  {
    if k > 0 { ShlOne(k - 1); }
  }

  lemma {:induction false} ShlGrows(x: nat, j: nat, k: nat)
    requires j <= k
    ensures 0 <= Shl(x, j) <= Shl(x, k)
    decreases k
  {
    if k > j {
      ShlGrows(x, j, k - 1);
    } else if j > 0 {
      ShlGrows(x, j - 1, j - 1);
    }
  }

  // ----- bigit strings -----

  /** The number a bigit string stands for when its lowest bigit has weight BASE^k. */
  ghost function Val(s: seq<Bigit>, k: nat): nat
    decreases |s|
  {
    if |s| == 0 then 0
    else
      ShlOrder(s[|s| - 1], 0, k + |s| - 1);
      Val(s[..|s| - 1], k) + Shl(s[|s| - 1], k + |s| - 1)
  }

  /** No leading zero bigit. */
  predicate Normal(s: seq<Bigit>) {
    |s| > 0 && s[|s| - 1] != 0
  }

  /** What remove_leading_zeros leaves: a normal string, or the single bigit 0. */
  predicate Canonical(s: seq<Bigit>) {
    |s| > 0 && (|s| == 1 || s[|s| - 1] != 0)
  }

  lemma ValEmpty(k: nat)
    ensures Val([], k) == 0 && Shl(0, k) == 0
  {
    ShlOrder(0, 0, k);
  }

  lemma ValPush(s: seq<Bigit>, x: Bigit, k: nat)
    ensures Val(s + [x], k) == Val(s, k) + Shl(x, k + |s|)
  {
    assert (s + [x])[..|s|] == s;
  }

  lemma {:induction false} ValAppend(s: seq<Bigit>, t: seq<Bigit>, k: nat)
    ensures Val(s + t, k) == Val(s, k) + Val(t, k + |s|)
    decreases |t|
  {
    if t == [] {
      assert s + t == s;
    } else {
      ValAppend(s, t[..|t| - 1], k);
      assert (s + t)[..|s + t| - 1] == s + t[..|t| - 1];
    }
  }

  lemma ValHead(s: seq<Bigit>, k: nat)
    requires s != []
    ensures Val(s, k) == Shl(s[0], k) + Val(s[1..], k + 1)
  {
    assert s == [s[0]] + s[1..];
    ValAppend([s[0]], s[1..], k);
    ValPush([], s[0], k);
  }

  lemma {:induction false} ValBound(s: seq<Bigit>, k: nat)
    ensures Val(s, k) + Shl(1, k) <= Shl(1, k + |s|)
    decreases |s|
  {
    if s != [] {
      var n := |s| - 1;
      ValBound(s[..n], k);
      ShlOrder(s[n], BASE, k + n);
      ShlStep(1, k + n);
    }
  }

  lemma ValNormal(s: seq<Bigit>, k: nat)
    requires Normal(s)
    ensures Val(s, k) >= Shl(1, k + |s| - 1) > 0
  {
    var n := |s| - 1;
    ShlOrder(0, s[n], k + n);
  }

  lemma {:induction false} ValZeros(s: seq<Bigit>, k: nat)
    requires forall i :: 0 <= i < |s| ==> s[i] == 0
    ensures Val(s, k) == 0
    decreases |s|
  {
    if s != [] {
      ValZeros(s[..|s| - 1], k);
      ShlOrder(0, 0, k + |s| - 1);
    }
  }

  lemma DropZeros(s: seq<Bigit>, n: nat, k: nat)
    requires n <= |s| && forall i :: n <= i < |s| ==> s[i] == 0
    ensures Val(s[..n], k) == Val(s, k)
  {
    assert s == s[..n] + s[n..];
    ValAppend(s[..n], s[n..], k);
    ValZeros(s[n..], k + n);
  }

  /** A canonical string denotes zero only as the single bigit 0. */
  lemma CanonicalZero(s: seq<Bigit>, k: nat)
    requires Canonical(s)
    ensures Val(s, k) == 0 <==> s == [0]
    ensures Val(s, k) != 0 ==> Normal(s)
  {
    if Normal(s) {
      ValNormal(s, k);
    } else {
      assert s == [0];
      ValZeros(s, k);
    }
  }

  /** Raising the weight of every bigit. */
  lemma {:induction false} ValShift(s: seq<Bigit>, k: nat, m: nat)
    ensures Val(s, k + m) == Shl(Val(s, k), m)
    decreases |s|
  {
    if s == [] {
      ShlOrder(0, 0, m);
    } else {
      var n := |s| - 1;
      ValShift(s[..n], k, m);
      ShlShl(s[n], k + n, m);
      ShlAdd(Val(s[..n], k), Shl(s[n], k + n), m);
      assert k + m + n == k + n + m;
    }
  }

  /** A longer number is larger. */
  lemma LongerIsLarger(s: seq<Bigit>, m: nat, t: seq<Bigit>, n: nat)
    requires Normal(t) && |s| + m < |t| + n
    ensures Val(s, m) < Shl(1, |s| + m) <= Val(t, n)
  {
    ValBound(s, m);
    ValNormal(t, n);
    ShlOrder(0, 1, m);
    ShlGrows(1, |s| + m, |t| + n - 1);
  }

  // ----- the position-wise view -----

  /** The bigit of weight BASE^i. */
  function Digit(s: seq<Bigit>, exp: nat, i: nat): Bigit {
    if exp <= i < exp + |s| then s[i - exp] else 0
  }

  /** The number formed by the bigits of weight BASE^i and above. */
  ghost function Above(s: seq<Bigit>, exp: nat, i: nat): int
    decreases exp + |s| - i
  {
    if i >= exp + |s| then 0 else Shl(Digit(s, exp, i), i) + Above(s, exp, i + 1)
  }

  lemma {:induction false} AboveIsVal(s: seq<Bigit>, exp: nat, i: nat)
    requires exp <= i <= exp + |s|
    ensures Above(s, exp, i) == Val(s[i - exp..], i)
    decreases exp + |s| - i
  {
    if i < exp + |s| {
      AboveIsVal(s, exp, i + 1);
      ValHead(s[i - exp..], i);
      assert s[i - exp..][1..] == s[i + 1 - exp..];
    }
  }

  lemma {:induction false} AboveAll(s: seq<Bigit>, exp: nat, i: nat)
    requires i <= exp
    ensures Above(s, exp, i) == Val(s, exp)
    decreases exp - i
  {
    if i == exp {
      AboveIsVal(s, exp, i);
      assert s[0..] == s;
    } else {
      AboveAll(s, exp, i + 1);
      ShlOrder(0, 0, i);
    }
  }

  /** The bigits below weight BASE^i amount to less than one unit of it. */
  lemma AboveBounds(s: seq<Bigit>, exp: nat, i: nat)
    ensures 0 <= Above(s, exp, i) <= Val(s, exp) < Above(s, exp, i) + Shl(1, i)
  {
    ShlOrder(0, 1, i);
    ShlOrder(0, 1, exp);
    if i <= exp {
      AboveAll(s, exp, i);
      hide Val, Shl, Above;
    } else if i >= exp + |s| {
      ValBound(s, exp);
      ShlGrows(1, exp + |s|, i);
      hide Val, Shl;
    } else {
      hide Val, Shl, Above;
      var k := i - exp;
      AboveIsVal(s, exp, i);
      assert s == s[..k] + s[k..];
      ValAppend(s[..k], s[k..], exp);
      ValBound(s[..k], exp);
      ShlOrder(0, 1, exp);
    }
  }
}
