/** UTF-8 to UTF-16 by the walk over code points, and back through surrogate pairs. */
module Utf16 {
  import opened Outcomes
  import opened Slices
  import opened Utf8
  import opened CodePoints

  type Unit = x: int | 0 <= x < 0x1_0000
  type Units = seq<Unit>

  // ----- the units of a code point, by section 2 of RFC 2781 -----

  predicate Surrogate(u: int) { 0xd800 <= u <= 0xdfff }

  predicate HighSurrogate(u: int) { 0xd800 <= u <= 0xdbff }

  predicate LowSurrogate(u: int) { 0xdc00 <= u <= 0xdfff }

  function Pair(high: int, low: int): int { 0x1_0000 + (high - 0xd800) * 0x400 + (low - 0xdc00) }

  function UnitsOf(c: int): (us: Units)
    requires Scalar(c)
    ensures |us| == if c <= 0xffff then 1 else 2
  {
    if c <= 0xffff then [c] else [0xd800 + (c - 0x1_0000) / 0x400, 0xdc00 + (c - 0x1_0000) % 0x400]
  }

  lemma UnitsPair(c: int)
    requires Scalar(c)
    ensures c <= 0xffff ==> !Surrogate(UnitsOf(c)[0])
    ensures c > 0xffff ==>
              HighSurrogate(UnitsOf(c)[0]) && LowSurrogate(UnitsOf(c)[1]) && Pair(UnitsOf(c)[0], UnitsOf(c)[1]) == c
  {
  }

  lemma PairUnits(high: int, low: int)
    requires HighSurrogate(high) && LowSurrogate(low)
    ensures Scalar(Pair(high, low)) && UnitsOf(Pair(high, low)) == [high, low]
  {
  }

  function EncodeUnits(cps: seq<int>): Units
    requires Scalars(cps)
  {
    if cps == [] then [] else UnitsOf(cps[0]) + EncodeUnits(cps[1..])
  }

  /** The code points from a unit on; an unpaired surrogate is an error. */
  function DecodeUnits(us: Units, p: nat): Result<seq<int>>
    requires p <= |us|
    decreases |us| - p
  {
    if p == |us| then Ok([])
    else if !Surrogate(us[p]) then
      var rest :- DecodeUnits(us, p + 1); Ok([us[p]] + rest)
    else if p + 1 == |us| || !HighSurrogate(us[p]) || !LowSurrogate(us[p + 1]) then Err("failed to format time")
    else
      var rest :- DecodeUnits(us, p + 2); Ok([Pair(us[p], us[p + 1])] + rest)
  }

  lemma {:induction false} DecodesEncodedUnits(us: Units, p: nat, cps: seq<int>)
    requires p <= |us| && Scalars(cps) && us[p..] == EncodeUnits(cps)
    ensures DecodeUnits(us, p) == Ok(cps)
    decreases |cps|
  {
    hide DecodeUnits, UnitsOf;
    if cps != [] {
      var c := cps[0];
      EncodeUnitsUnfold(cps);
      hide EncodeUnits;
      Begins(us, p, UnitsOf(c), EncodeUnits(cps[1..]));
      DecodesEncodedUnits(us, p + |UnitsOf(c)|, cps[1..]);
      DecodeUnitsAt(us, p, c);
      HeadAndTail(cps);
    } else {
      assert |us[p..]| == 0;
      DecodeNone(us);
    }
  }

  lemma EncodeUnitsUnfold(cps: seq<int>)
    requires Scalars(cps) && cps != []
    ensures EncodeUnits(cps) == UnitsOf(cps[0]) + EncodeUnits(cps[1..])
  {
  }

  lemma DecodeNone(us: Units)
    ensures DecodeUnits(us, |us|) == Ok([])
  {
  }

  /** The units of a code point at a position are decoded to it. */
  lemma DecodeUnitsAt(us: Units, p: nat, c: int)
    requires Scalar(c) && p + |UnitsOf(c)| <= |us|
    requires forall i :: 0 <= i < |UnitsOf(c)| ==> us[p + i] == UnitsOf(c)[i]
    ensures var rest := DecodeUnits(us, p + |UnitsOf(c)|);
            rest.Ok? ==> DecodeUnits(us, p) == Ok([c] + rest.value)
  {
    UnitsPair(c);
    assert us[p + 0] == UnitsOf(c)[0] && (c > 0xffff ==> us[p + 1] == UnitsOf(c)[1]);
  }

  lemma {:induction false} EncodesDecodedUnits(us: Units, p: nat)
    requires p <= |us| && DecodeUnits(us, p).Ok?
    ensures Scalars(DecodeUnits(us, p).value) && us[p..] == EncodeUnits(DecodeUnits(us, p).value)
    decreases |us| - p
  {
    if p < |us| {
      var cps := DecodeUnits(us, p).value;
      if Surrogate(us[p]) {
        PairUnits(us[p], us[p + 1]);
        EncodesDecodedUnits(us, p + 2);
        assert cps[1..] == DecodeUnits(us, p + 2).value;
        assert us[p..] == [us[p], us[p + 1]] + us[p + 2..];
      } else {
        EncodesDecodedUnits(us, p + 1);
        assert cps[1..] == DecodeUnits(us, p + 1).value;
        assert us[p..] == [us[p]] + us[p + 1..];
      }
      assert forall c <- cps :: c == cps[0] || c in cps[1..];
    } else {
      assert us[p..] == [];
    }
  }

  // ----- from UTF-8 -----

  lemma {:induction false} EncodeUnitsPush(cps: seq<int>, c: int)
    requires Scalars(cps) && Scalar(c)
    ensures Scalars(cps + [c]) && EncodeUnits(cps + [c]) == EncodeUnits(cps) + UnitsOf(c)
  {
    if cps != [] {
      EncodeUnitsPush(cps[1..], c);
      assert (cps + [c])[1..] == cps[1..] + [c];
    } else {
      assert [c][1..] == [];
    }
  }

  lemma {:induction false} CodePointsPush(pieces: seq<Piece>, x: Piece)
    ensures CodePointsOf(pieces + [x]) == CodePointsOf(pieces) + [x.cp]
  {
    if pieces != [] {
      CodePointsPush(pieces[1..], x);
      assert (pieces + [x])[1..] == pieces[1..] + [x];
    }
  }

  predicate IsValid(x: Piece) { x.cp != INVALID }

  /** A walk that stops at the first invalid piece sees all of valid text, and otherwise ends with that piece. */
  lemma {:induction false} UntilInvalid(pieces: seq<Piece>)
    ensures AllValid(pieces) ==> Until(pieces, IsValid) == pieces
    ensures AllValid(pieces) ==> forall i :: 0 <= i < |pieces| ==> IsValid(pieces[i])
    ensures !AllValid(pieces) ==>
              var seen := Until(pieces, IsValid); seen != [] && !IsValid(seen[|seen| - 1])
  {
    if pieces != [] && IsValid(pieces[0]) {
      UntilInvalid(pieces[1..]);
      assert [pieces[0]] + pieces[1..] == pieces;
    }
  }

  /** What the callback pushes for the pieces it is given. */
  method PushUnits(seen: seq<Piece>) returns (r: Result<Units>)
    requires ScalarOrInvalid(seen)
    ensures r.Ok? <==> forall i :: 0 <= i < |seen| ==> IsValid(seen[i])
    ensures r.Ok? ==> Scalars(CodePointsOf(seen)) && r.value == EncodeUnits(CodePointsOf(seen))
  {
    hide CodePointsOf, EncodeUnits, UnitsOf, Scalar;
    var buffer: Units := [];
    Empty(seen[..0]);
    for i := 0 to |seen|
      invariant forall j :: 0 <= j < i ==> IsValid(seen[j])
      invariant Scalars(CodePointsOf(seen[..i])) && buffer == EncodeUnits(CodePointsOf(seen[..i]))
    {
      var cp := seen[i].cp;
      if cp == INVALID { return Err("invalid utf8"); }
      assert seen[..i + 1] == seen[..i] + [seen[i]];
      CodePointsPush(seen[..i], seen[i]);
      EncodeUnitsPush(CodePointsOf(seen[..i]), cp);
      PushedUnits(cp);
      if cp <= 0xffff {
        buffer := buffer + [cp];
      } else {
        cp := cp - 0x1_0000;
        buffer := buffer + [0xd800 + cp / 0x400] + [0xdc00 + cp % 0x400];
      }
    }
    assert seen[..|seen|] == seen;
    r := Ok(buffer);
  }

  lemma Empty(pieces: seq<Piece>)
    requires |pieces| == 0
    ensures Scalars(CodePointsOf(pieces)) && EncodeUnits(CodePointsOf(pieces)) == []
  {
  }

  lemma PushedUnits(c: int)
    requires Scalar(c)
    ensures 0 <= c <= 0x10_ffff
    ensures forall us: Units :: us + UnitsOf(c) ==
              if c <= 0xffff then us + [c]
              else us + [0xd800 + (c - 0x1_0000) / 0x400] + [0xdc00 + (c - 0x1_0000) % 0x400]
  {
  }

  /** The constructor of utf8_to_utf16: the units and a terminating zero, or an error on invalid text. */
  method Utf8ToUtf16(s: Bytes) returns (r: Result<Units>)
    ensures r.Ok? <==> exists cps :: Scalars(cps) && s == EncodeAll(cps)
    ensures forall cps :: Scalars(cps) && s == EncodeAll(cps) ==> r == Ok(EncodeUnits(cps) + [0])
  {
    hide *;
    var seen := ForEachCodepoint(s, IsValid);
    ValidIffEncoded(s);
    UntilInvalid(Pieces(s, 0));
    PiecesAreScalars(s, 0);
    UntilKeeps(Pieces(s, 0));
    var units := PushUnits(seen);
    forall cps | Scalars(cps) && s == EncodeAll(cps) ensures CodePointsOf(Pieces(s, 0)) == cps {
      assert s[0..] == s;
      WalkEncoded(s, 0, cps);
    }
    if units.Err? { return units; }
    r := Ok(units.value + [0]);
  }

  predicate ScalarOrInvalid(pieces: seq<Piece>) {
    forall i :: 0 <= i < |pieces| ==> Scalar(pieces[i].cp) || pieces[i].cp == INVALID
  }

  lemma {:induction false} PiecesAreScalars(s: Bytes, p: nat)
    requires p <= |s|
    ensures ScalarOrInvalid(Pieces(s, p))
    decreases |s| - p
  {
    if p < |s| {
      var x := PieceAt(s, p);
      hide PieceAt, Scalar, Encode;
      PiecesAreScalars(s, p + x.length);
    }
  }

  lemma {:induction false} UntilKeeps(pieces: seq<Piece>)
    requires ScalarOrInvalid(pieces)
    ensures ScalarOrInvalid(Until(pieces, IsValid))
  {
    hide Scalar;
    if pieces != [] && IsValid(pieces[0]) { UntilKeeps(pieces[1..]); }
  }

  // ----- back to UTF-8 -----

  lemma {:induction false} EncodeAllPush(cps: seq<int>, c: int)
    ensures EncodeAll(cps + [c]) == EncodeAll(cps) + Encode(c)
  {
    hide Encode;
    if cps != [] {
      EncodeAllPush(cps[1..], c);
      assert (cps + [c])[1..] == cps[1..] + [c];
    } else {
      assert [c][1..] == [];
    }
  }

  function Prepended(done: seq<int>, r: Result<seq<int>>): Result<seq<int>> {
    if r.Ok? then Ok(done + r.value) else r
  }

  lemma PrependedMore(done: seq<int>, c: int, r: Result<seq<int>>)
    ensures Prepended(done, Prepended([c], r)) == Prepended(done + [c], r)
    ensures Prepended([], r) == r
  {
    if r.Ok? {
      assert done + ([c] + r.value) == done + [c] + r.value;
      assert [] + r.value == r.value;
    }
  }

  /** One step of decoding, with the pair joined by the arithmetic of the source. */
  lemma DecodeStep(us: Units, p: nat)
    requires p < |us|
    ensures !(0xd800 <= us[p] <= 0xdfff) ==>
              Scalar(us[p]) && DecodeUnits(us, p) == Prepended([us[p]], DecodeUnits(us, p + 1))
    ensures 0xd800 <= us[p] <= 0xdfff && (p + 1 == |us| || us[p] / 0x400 != 0x36 || us[p + 1] / 0x400 != 0x37) ==>
              DecodeUnits(us, p) == Err("failed to format time")
    ensures 0xd800 <= us[p] <= 0xdfff && p + 1 < |us| && us[p] / 0x400 == 0x36 && us[p + 1] / 0x400 == 0x37 ==>
              var c: int := us[p] as int * 0x400 + us[p + 1] - 0x35fdc00;
              Scalar(c) && DecodeUnits(us, p) == Prepended([c], DecodeUnits(us, p + 2))
  {
  }

  /** The loop of the time formatter: surrogate pairs joined, each code point encoded. */
  method Utf16ToUtf8(us: Units) returns (r: Result<Bytes>)
    ensures DecodeUnits(us, 0).Err? ==> r == Err(DecodeUnits(us, 0).message)
    ensures DecodeUnits(us, 0).Ok? ==> r == Ok(EncodeAll(DecodeUnits(us, 0).value))
  {
    var buf: Bytes, p: nat := [], 0;
    ghost var done: seq<int> := [];
    ghost var goal := DecodeUnits(us, 0);
    assert EncodeAll(done) == [];
    hide Encode, DecodeUnits, EncodeAll;
    PrependedMore([], 0, goal);
    while p != |us|
      invariant p <= |us| && buf == EncodeAll(done)
      invariant goal == Prepended(done, DecodeUnits(us, p))
      decreases |us| - p
    {
      DecodeStep(us, p);
      var c: int := us[p];
      if 0xd800 <= c <= 0xdfff {
        p := p + 1;
        if p == |us| || c / 0x400 != 0x36 || us[p] / 0x400 != 0x37 { return Err("failed to format time"); }
        c := c * 0x400 + us[p] - 0x35fdc00;
      }
      p := p + 1;
      PrependedMore(done, c, DecodeUnits(us, p));
      var bytes := Encode(c);
      EncodeAllPush(done, c);
      done := done + [c];
      buf := buf + bytes;
    }
    LastStep(us, done);
    r := Ok(buf);
  }

  lemma LastStep(us: Units, done: seq<int>)
    ensures Prepended(done, DecodeUnits(us, |us|)) == Ok(done)
  {
    assert done + [] == done;
  }

  /** Valid text survives the way to UTF-16 and back. */
  method RoundTrip(s: Bytes, ghost cps: seq<int>) returns (r: Result<Bytes>)
    requires Scalars(cps) && s == EncodeAll(cps)
    ensures r == Ok(s)
  {
    var wide := Utf8ToUtf16(s);
    var us := wide.value[..|wide.value| - 1];
    assert us == EncodeUnits(cps) == us[0..];
    DecodesEncodedUnits(us, 0, cps);
    r := Utf16ToUtf8(us);
  }
}
