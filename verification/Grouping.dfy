/** Digit grouping: where separators go, counted from the right, and that the count is what is written. */
module Grouping {
  const INT_MAX: int := 0x7fff_ffff
  const CHAR_MAX: int := 127

  /** The iterator over group sizes and the position of the last separator. */
  datatype State = State(group: nat, pos: int)

  /** The next position; the last size repeats, and a size of zero or below or the largest ends the grouping. */
  function Next(g: seq<int>, s: State): (int, State)
    requires g != [] && s.group <= |g|
  {
    if s.group == |g| then (s.pos + g[|g| - 1], s.(pos := s.pos + g[|g| - 1]))
    else if g[s.group] <= 0 || g[s.group] == CHAR_MAX then (INT_MAX, s)
    else (s.pos + g[s.group], State(s.group + 1, s.pos + g[s.group]))
  }

  /** The sizes used so far are positive. */
  predicate Reached(g: seq<int>, s: State) {
    g != [] && s.group <= |g| && s.pos >= 0 && forall k :: 0 <= k < s.group ==> g[k] > 0
  }

  /** The separator positions below n, from a state on. */
  function Stops(g: seq<int>, s: State, n: int): seq<int>
    requires Reached(g, s) && n <= INT_MAX
    decreases n - s.pos
  {
    var (i, s') := Next(g, s);
    if i >= n then [] else [i] + Stops(g, s', n)
  }

  /** Positions above lo and below n, each further to the left than the one before. */
  predicate Increasing(p: seq<int>, lo: int, n: int) {
    (forall i :: 0 <= i < |p| ==> lo < p[i] < n) && (forall i, j :: 0 <= i < j < |p| ==> p[i] < p[j])
  }

  lemma {:induction false} StopsIncrease(g: seq<int>, s: State, n: int)
    requires Reached(g, s) && n <= INT_MAX
    ensures Increasing(Stops(g, s, n), s.pos, n)
    decreases n - s.pos
  {
    var (i, s') := Next(g, s);
    if i < n {
      StopsIncrease(g, s', n);
      var rest := Stops(g, s', n);
      assert s'.pos == i && Stops(g, s, n) == [i] + rest;
      assert forall k :: 0 < k <= |rest| ==> ([i] + rest)[k] == rest[k - 1];
    }
  }

  // ----- the sizes of the groups -----

  /** The size of the k-th group from the right; the last size repeats. */
  function SizeOf(g: seq<int>, k: nat): int
    requires g != []
  {
    if k < |g| then g[k] else g[|g| - 1]
  }

  /** The sizes end the grouping at this group. */
  predicate Ends(g: seq<int>, k: nat) { k < |g| && (g[k] <= 0 || g[k] == 127) }

  /** Positions from the k-th group on: each one group behind the one before, as far as n and the sizes allow. */
  predicate Spaced(g: seq<int>, k: nat, from: int, p: seq<int>, n: int)
    requires g != []
  {
    && (forall i :: 0 <= i < |p| ==> Placed(g, k, from, p, n, i))
    && (Ends(g, k + |p|) || Last(from, p) + SizeOf(g, k + |p|) >= n)
  }

  predicate Placed(g: seq<int>, k: nat, from: int, p: seq<int>, n: int, i: nat)
    requires g != [] && i < |p|
  {
    !Ends(g, k + i) && p[i] == (if i == 0 then from else p[i - 1]) + SizeOf(g, k + i) < n
  }

  function Last(from: int, p: seq<int>): int {
    if p == [] then from else p[|p| - 1]
  }

  lemma SpacedTail(g: seq<int>, k: nat, from: int, p: seq<int>, n: int)
    requires g != [] && p != []
    ensures Spaced(g, k, from, p, n) <==>
              !Ends(g, k) && p[0] == from + SizeOf(g, k) < n && Spaced(g, k + 1, p[0], p[1..], n)
  {
    var q, k', from' := p[1..], k + 1, p[0];
    assert Last(p[0], q) == Last(from, p) && k + 1 + |q| == k + |p|;
    assert Placed(g, k, from, p, n, 0) <==> !Ends(g, k) && p[0] == from + SizeOf(g, k) < n;
    hide Placed, Ends, SizeOf, Last;
    if Spaced(g, k, from, p, n) {
      forall i | 0 <= i < |q| ensures Placed(g, k', from', q, n, i) {
        assert Placed(g, k, from, p, n, i + 1);
        PlacedLater(g, k, from, p, n, i);
      }
    }
    if Placed(g, k, from, p, n, 0) && Spaced(g, k', from', q, n) {
      forall i | 0 <= i < |p| ensures Placed(g, k, from, p, n, i) {
        if i > 0 {
          assert Placed(g, k', from', q, n, i - 1);
          PlacedLater(g, k, from, p, n, i - 1);
        }
      }
    }
  }

  lemma PlacedLater(g: seq<int>, k: nat, from: int, p: seq<int>, n: int, i: nat)
    requires g != [] && i + 1 < |p|
    ensures Placed(g, k + 1, p[0], p[1..], n, i) <==> Placed(g, k, from, p, n, i + 1)
  {
    assert k + 1 + i == k + (i + 1);
  }

  lemma NextSize(g: seq<int>, s: State, k: nat, n: int)
    requires Reached(g, s) && n <= INT_MAX && s.group == if k < |g| then k else |g|
    ensures var (i, s') := Next(g, s);
            && (i < n <==> !Ends(g, k) && s.pos + SizeOf(g, k) < n)
            && (i < n ==> i == s'.pos == s.pos + SizeOf(g, k) && s.pos < i && Reached(g, s'))
            && (i < n ==> s'.group == if k + 1 < |g| then k + 1 else |g|)
  {
  }

  lemma StopsAre(g: seq<int>, s: State, n: int)
    requires Reached(g, s) && n <= INT_MAX
    ensures var (i, s') := Next(g, s);
            if i < n then Reached(g, s') && Stops(g, s, n) == [i] + Stops(g, s', n) else Stops(g, s, n) == []
  {
  }

  lemma NonePlaced(g: seq<int>, k: nat, from: int, n: int)
    requires g != []
    ensures Spaced(g, k, from, [], n) <==> Ends(g, k) || from + SizeOf(g, k) >= n
  {
  }

  lemma SameHead(p: seq<int>, i: int, rest: seq<int>)
    ensures p == [i] + rest <==> p != [] && p[0] == i && p[1..] == rest
  {
    if p != [] { assert p == [p[0]] + p[1..]; }
  }

  /** These positions, and no others, are the ones collected. */
  lemma {:induction false} StopsExactly(g: seq<int>, s: State, k: nat, n: int, p: seq<int>)
    requires Reached(g, s) && n <= INT_MAX && s.group == if k < |g| then k else |g|
    ensures p == Stops(g, s, n) <==> Spaced(g, k, s.pos, p, n)
    decreases n - s.pos
  {
    NextSize(g, s, k, n);
    StopsAre(g, s, n);
    assert g != [] by { NotEmpty(g, s); }
    hide *;
    var (i, s') := Next(g, s);
    NonePlaced(g, k, s.pos, n);
    if p != [] { SpacedTail(g, k, s.pos, p, n); }
    if i < n {
      SameHead(p, i, Stops(g, s', n));
      if p != [] { StopsExactly(g, s', k + 1, n, p[1..]); }
    }
  }

  lemma NotEmpty(g: seq<int>, s: State)
    requires Reached(g, s)
    ensures g != []
  {
  }

  /** Grouping of a locale: the sizes and the separator, none meaning no grouping. */
  datatype Groups = Groups(sizes: seq<int>, separator: string) {
    predicate Valid() { separator != "" ==> sizes != [] }

    /** The positions for a number of n digits. */
    function Positions(n: int): (p: seq<int>)
      requires Valid() && n <= INT_MAX
      ensures Increasing(p, 0, n)
    {
      if separator == "" then []
      else StopsIncrease(sizes, State(0, 0), n); Stops(sizes, State(0, 0), n)
    }

    /** The groups have the sizes of the locale, in order, as far as the digits go. */
    lemma PositionsExactly(n: int, p: seq<int>)
      requires Valid() && n <= INT_MAX && separator != ""
      ensures p == Positions(n) <==> Spaced(sizes, 0, 0, p, n)
    {
      StopsExactly(sizes, State(0, 0), 0, n, p);
    }

    method CountSeparators(n: int) returns (count: int)
      requires Valid() && n <= INT_MAX
      ensures count == |Positions(n)|
    {
      count := 0;
      if separator == "" { return; }
      var s := State(0, 0);
      while true
        invariant Reached(sizes, s) && count + |Stops(sizes, s, n)| == |Stops(sizes, State(0, 0), n)|
        decreases n - s.pos
      {
        var (i, s') := Next(sizes, s);
        if n <= i { break; }
        s := s';
        count := count + 1;
      }
    }

    /** The positions collected in front of the digits, after a zero that no digit is at. */
    method Separators(n: int) returns (separators: seq<int>)
      requires Valid() && n <= INT_MAX
      ensures separators == [0] + Positions(n)
    {
      separators := [0];
      if separator == "" { return; }
      var s := State(0, 0);
      while true
        invariant Reached(sizes, s) && separators + Stops(sizes, s, n) == [0] + Stops(sizes, State(0, 0), n)
        decreases n - s.pos
      {
        var (i, s') := Next(sizes, s);
        if i >= n { break; }
        assert separators + ([i] + Stops(sizes, s', n)) == separators + [i] + Stops(sizes, s', n);
        separators := separators + [i];
        s := s';
      }
      assert separators + [] == separators;
    }

    method Apply(digits: string) returns (out: string)
      requires Valid() && |digits| <= INT_MAX
      ensures out == Grouped(digits, 0, Positions(|digits|), separator)
    {
      hide Groups.Positions;
      var n := |digits|;
      var separators := Separators(n);
      ghost var p := Positions(n);
      out := "";
      var i, sepIndex := 0, |separators| - 1;
      assert "" + Grouped(digits, 0, p, separator) == Grouped(digits, 0, p, separator);
      while i < n
        invariant 0 <= i <= n && 0 <= sepIndex <= |p|
        invariant forall k :: 0 <= k < |p| ==> (p[k] <= n - i <==> k < sepIndex)
        invariant out + Grouped(digits, i, p, separator) == Grouped(digits, 0, p, separator)
      {
        GroupedStep(digits, i, p, separator, out);
        assert separators[sepIndex] == if sepIndex == 0 then 0 else p[sepIndex - 1];
        if n - i == separators[sepIndex] {
          out := out + separator;
          sepIndex := sepIndex - 1;
        }
        out := out + [digits[i]];
        i := i + 1;
      }
      assert out + "" == out;
    }
  }

  lemma GroupedStep(digits: string, i: nat, p: seq<int>, separator: string, out: string)
    requires i < |digits|
    ensures out + Grouped(digits, i, p, separator) ==
              (if |digits| - i in p then out + separator else out) + [digits[i]] + Grouped(digits, i + 1, p, separator)
  {
  }

  /** The digits from the i-th on, with the separator before each digit at one of the positions. */
  function Grouped(digits: string, i: nat, p: seq<int>, separator: string): string
    requires i <= |digits|
    decreases |digits| - i
  {
    if i == |digits| then ""
    else (if |digits| - i in p then separator else "") + [digits[i]] + Grouped(digits, i + 1, p, separator)
  }

  /** The first j positions are those still to come. */
  predicate ToCome(p: seq<int>, left: int, j: nat) {
    j <= |p| && forall k :: 0 <= k < |p| ==> (p[k] <= left <==> k < j)
  }

  lemma NextToCome(p: seq<int>, left: int, j: nat, n: int)
    requires Increasing(p, 0, n) && ToCome(p, left, j)
    ensures left in p ==> j > 0 && ToCome(p, left - 1, j - 1)
    ensures left !in p ==> ToCome(p, left - 1, j)
    ensures left <= 0 ==> j == 0
  {
    assert forall k :: 0 <= k < |p| ==> p[k] in p && p[k] > 0;
    assert j > 0 ==> p[j - 1] > 0;
    if left in p {
      var k :| 0 <= k < |p| && p[k] == left;
      assert k < j && p[j - 1] <= left;
      assert k == j - 1;
    }
  }

  /** As many separators are written as were counted. */
  lemma {:induction false} GroupedLength(digits: string, i: nat, p: seq<int>, separator: string, j: nat)
    requires i <= |digits| && Increasing(p, 0, |digits|) && ToCome(p, |digits| - i, j)
    ensures |Grouped(digits, i, p, separator)| == |digits| - i + j * |separator|
    decreases |digits| - i
  {
    hide Increasing, ToCome;
    NextToCome(p, |digits| - i, j, |digits|);
    if i < |digits| {
      if |digits| - i in p {
        GroupedLength(digits, i + 1, p, separator, j - 1);
        assert (j - 1) * |separator| + |separator| == j * |separator|;
      } else {
        GroupedLength(digits, i + 1, p, separator, j);
      }
    }
  }

  /** The size of a grouped number: its digits and the separators counted for it. */
  lemma GroupedSize(g: Groups, digits: string)
    requires g.Valid() && |digits| <= INT_MAX
    ensures var p := g.Positions(|digits|);
            |Grouped(digits, 0, p, g.separator)| == |digits| + |p| * |g.separator|
  {
    var p := g.Positions(|digits|);
    GroupedLength(digits, 0, p, g.separator, |p|);
  }

  function Without(s: string, c: char): string {
    if s == "" then "" else (if s[0] == c then "" else [s[0]]) + Without(s[1..], c)
  }

  /** Taking the separators out gives the digits back. */
  lemma {:induction false} Ungrouped(digits: string, i: nat, p: seq<int>, c: char)
    requires i <= |digits| && forall k :: 0 <= k < |digits| ==> digits[k] != c
    ensures Without(Grouped(digits, i, p, [c]), c) == digits[i..]
    decreases |digits| - i
  {
    if i < |digits| {
      var rest := Grouped(digits, i + 1, p, [c]);
      Ungrouped(digits, i + 1, p, c);
      assert digits[i..] == [digits[i]] + digits[i + 1..];
      assert ([digits[i]] + rest)[1..] == rest;
      if |digits| - i in p {
        assert ([c] + [digits[i]] + rest)[1..] == [digits[i]] + rest;
      } else {
        assert "" + [digits[i]] + rest == [digits[i]] + rest;
      }
    }
  }
}
