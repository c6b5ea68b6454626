/** Walking a byte string by code points. */
module CodePoints {
  import opened Slices
  import opened Utf8

  // ----- the pieces of a byte string -----

  /** What the callback is given: a code point or INVALID, and the bytes it is for. */
  datatype Piece = Piece(cp: int, start: nat, length: nat)

  /** The piece at a position: an invalid byte stands alone. */
  function PieceAt(s: Bytes, p: nat): (x: Piece)
    requires p < |s|
    ensures x.start == p && 1 <= x.length <= 4 && p + x.length <= |s|
    ensures Scalar(x.cp) || (x.cp == INVALID && x.length == 1)
  {
    var d := DecodeAt(s, p);
    if d.e == 0 then EncodeInvertsDecode(s, p); Piece(d.c, p, d.advance) else Piece(INVALID, p, 1)
  }

  lemma PieceIsEncoding(s: Bytes, p: nat)
    requires p < |s|
    ensures var x := PieceAt(s, p); Scalar(x.cp) ==> s[p..p + x.length] == Encode(x.cp)
  {
    if DecodeAt(s, p).e == 0 { EncodeInvertsDecode(s, p); }
  }

  function Pieces(s: Bytes, p: nat): seq<Piece>
    requires p <= |s|
    decreases |s| - p
  {
    if p == |s| then [] else [PieceAt(s, p)] + Pieces(s, p + PieceAt(s, p).length)
  }

  /** The pieces up to and including the first the callback refuses. */
  function Until(pieces: seq<Piece>, goOn: Piece -> bool): seq<Piece> {
    if pieces == [] then [] else if goOn(pieces[0]) then [pieces[0]] + Until(pieces[1..], goOn) else [pieces[0]]
  }

  /** The callback gets pieces in order, all up to the first it refuses if it refuses one. */
  lemma {:induction false} UntilExactly(pieces: seq<Piece>, goOn: Piece -> bool, given: seq<Piece>)
    ensures given == Until(pieces, goOn) <==>
              && given <= pieces && (forall i :: 0 <= i < |given| - 1 ==> goOn(given[i]))
              && (given == pieces || (given != [] && !goOn(given[|given| - 1])))
  {
    if pieces != [] && given != [] && given[0] == pieces[0] {
      UntilExactly(pieces[1..], goOn, given[1..]);
      UntilMore(pieces, goOn, given);
    }
  }

  lemma UntilMore(pieces: seq<Piece>, goOn: Piece -> bool, given: seq<Piece>)
    requires pieces != [] && given != [] && given[0] == pieces[0]
    ensures given == [pieces[0]] + given[1..] && pieces == [pieces[0]] + pieces[1..]
    ensures given <= pieces <==> given[1..] <= pieces[1..]
    ensures given == pieces <==> given[1..] == pieces[1..]
  {
    assert given == [given[0]] + given[1..];
    assert pieces == [pieces[0]] + pieces[1..];
  }

  /** The bytes of a piece. */
  function View(s: Bytes, x: Piece): Bytes
    requires x.start + x.length <= |s|
  {
    s[x.start..x.start + x.length]
  }

  /** Pieces that follow one another from one position to another, none of them empty. */
  predicate Consecutive(pieces: seq<Piece>, from: nat, to: nat) {
    if pieces == [] then from == to
    else
      pieces[0].start == from && pieces[0].length >= 1 && from + pieces[0].length <= to &&
      Consecutive(pieces[1..], from + pieces[0].length, to)
  }

  /** The bytes of the pieces put together. */
  function Joined(s: Bytes, pieces: seq<Piece>, from: nat): Bytes
    requires from <= |s| && Consecutive(pieces, from, |s|)
  {
    if pieces == [] then []
    else View(s, pieces[0]) + Joined(s, pieces[1..], from + pieces[0].length)
  }

  lemma PiecesUnfold(s: Bytes, p: nat)
    requires p < |s|
    ensures Pieces(s, p) != [] && Pieces(s, p)[0] == PieceAt(s, p)
    ensures Pieces(s, p)[1..] == Pieces(s, p + PieceAt(s, p).length)
  {
    hide PieceAt;
  }

  lemma JoinedUnfold(s: Bytes, x: Piece, rest: seq<Piece>, from: nat)
    requires x.start == from && x.length >= 1 && from + x.length <= |s| && Consecutive(rest, from + x.length, |s|)
    ensures Consecutive([x] + rest, from, |s|)
    ensures Joined(s, [x] + rest, from) == View(s, x) + Joined(s, rest, from + x.length)
  {
    assert ([x] + rest)[1..] == rest;
  }

  /** On any bytes, valid or not, the pieces follow one another and stay within the text. */
  lemma {:induction false} PiecesFollow(s: Bytes, p: nat)
    requires p <= |s|
    ensures Consecutive(Pieces(s, p), p, |s|)
    decreases |s| - p
  {
    if p < |s| {
      var x := PieceAt(s, p);
      hide PieceAt, Encode, Scalar, Consecutive;
      PiecesFollow(s, p + x.length);
      JoinedUnfold(s, x, Pieces(s, p + x.length), p);
    }
  }

  /** Put together they are the text: no gap, no overlap. */
  lemma {:induction false} PiecesPartition(s: Bytes, p: nat)
    requires p <= |s|
    ensures Consecutive(Pieces(s, p), p, |s|)
    ensures Joined(s, Pieces(s, p), p) == s[p..]
    decreases |s| - p
  {
    PiecesFollow(s, p);
    if p < |s| {
      var x := PieceAt(s, p);
      var q := p + x.length;
      PiecesFirst(s, p);
      hide *;
      PiecesPartition(s, q);
      JoinedUnfold(s, x, Pieces(s, q), p);
      ViewIs(s, x);
      Adjoin(s, p, q, View(s, x), Joined(s, Pieces(s, q), q));
    } else {
      JoinedNone(s);
    }
  }

  lemma PiecesFirst(s: Bytes, p: nat)
    requires p < |s|
    ensures var x := PieceAt(s, p);
            x.start == p && x.length >= 1 && p + x.length <= |s| && Pieces(s, p) == [x] + Pieces(s, p + x.length)
  {
    hide Encode, Scalar;
  }

  lemma ViewIs(s: Bytes, x: Piece)
    requires x.start + x.length <= |s|
    ensures View(s, x) == s[x.start..x.start + x.length]
  {
  }

  lemma JoinedNone(s: Bytes)
    ensures Consecutive(Pieces(s, |s|), |s|, |s|)
    ensures Joined(s, Pieces(s, |s|), |s|) == [] == s[|s|..]
  {
  }

  // ----- the walk -----

  method DecodePiece(b0: Byte, b1: Byte, b2: Byte, b3: Byte, ptr: nat, ghost s: Bytes) returns (x: Piece)
    requires ptr < |s| && b0 == At(s, ptr) && b1 == At(s, ptr + 1) && b2 == At(s, ptr + 2) && b3 == At(s, ptr + 3)
    ensures x == PieceAt(s, ptr)
  {
    var d := Decode(b0, b1, b2, b3);
    x := if d.e != 0 then Piece(INVALID, ptr, 1) else Piece(d.c, ptr, d.advance);
  }

  lemma Inside(s: Bytes, p: nat)
    requires p + 3 < |s|
    ensures At(s, p) == s[p] && At(s, p + 1) == s[p + 1] && At(s, p + 2) == s[p + 2] && At(s, p + 3) == s[p + 3]
  {
  }

  lemma UntilStep(s: Bytes, p: nat, goOn: Piece -> bool, seen: seq<Piece>)
    requires p < |s|
    ensures var x := PieceAt(s, p);
            seen + Until(Pieces(s, p), goOn) ==
              if goOn(x) then seen + [x] + Until(Pieces(s, p + x.length), goOn) else seen + [x]
  {
    hide PieceAt, Pieces;
    var x := PieceAt(s, p);
    PiecesUnfold(s, p);
  }

  /** The last bytes, decoded in a buffer padded with zeros. */
  method WalkTail(s: Bytes, from: nat, goOn: Piece -> bool, seen0: seq<Piece>) returns (seen: seq<Piece>)
    requires from <= |s| <= from + 3
    ensures seen == seen0 + Until(Pieces(s, from), goOn)
  {
    hide *;
    var p, left, b: nat := from, |s| - from, 0;
    var buf := CopyTail(s, from);
    seen := seen0;
    while b < left
      invariant buf.Length == 7 && forall i: nat :: i < 7 ==> buf[i] == At(s, from + i)
      invariant b <= left && p == from + b
      invariant seen + Until(Pieces(s, p), goOn) == seen0 + Until(Pieces(s, from), goOn)
      decreases left - b
    {
      var x := DecodePiece(buf[b], buf[b + 1], buf[b + 2], buf[b + 3], p, s);
      UntilStep(s, p, goOn, seen);
      seen := seen + [x];
      if !goOn(x) { return; }
      p := p + x.length;
      b := b + x.length;
    }
    PiecesEnd(s, goOn, seen);
  }

  method CopyTail(s: Bytes, from: nat) returns (buf: array<Byte>)
    requires from <= |s| <= from + 3
    ensures fresh(buf) && buf.Length == 7 && forall i: nat :: i < 7 ==> buf[i] == At(s, from + i)
  {
    buf := new Byte[7](_ => 0);
    forall i | 0 <= i < |s| - from { buf[i] := s[from + i]; }
  }

  /** Blocks of four in the text itself, then the tail. */
  method ForEachCodepoint(s: Bytes, goOn: Piece -> bool) returns (seen: seq<Piece>)
    ensures seen == Until(Pieces(s, 0), goOn)
  {
    hide *;
    var p: nat := 0;
    seen := [];
    ghost var goal := Until(Pieces(s, 0), goOn);
    if |s| >= 4 {
      var end := |s| - 3;
      while p < end
        invariant p <= |s| && seen + Until(Pieces(s, p), goOn) == goal
        decreases |s| - p
      {
        Inside(s, p);
        var x := DecodePiece(s[p], s[p + 1], s[p + 2], s[p + 3], p, s);
        UntilStep(s, p, goOn, seen);
        seen := seen + [x];
        if !goOn(x) { return; }
        p := p + x.length;
      }
    }
    if |s| - p != 0 {
      seen := WalkTail(s, p, goOn, seen);
    } else {
      PiecesEnd(s, goOn, seen);
    }
  }

  lemma PiecesEnd(s: Bytes, goOn: Piece -> bool, seen: seq<Piece>)
    ensures seen + Until(Pieces(s, |s|), goOn) == seen
  {
  }

  // ----- valid text -----

  function EncodeAll(cps: seq<int>): Bytes {
    if cps == [] then [] else Encode(cps[0]) + EncodeAll(cps[1..])
  }

  predicate Scalars(cps: seq<int>) { forall c <- cps :: Scalar(c) }

  function CodePointsOf(pieces: seq<Piece>): seq<int> {
    if pieces == [] then [] else [pieces[0].cp] + CodePointsOf(pieces[1..])
  }

  lemma Suffixes(s: Bytes, p: nat, a: Bytes, b: Bytes)
    requires p <= |s| && s[p..] == a + b
    ensures p + |a| <= |s| && s[p..p + |a|] == a && s[p + |a|..] == b
  {
    assert s[p..p + |a|] == s[p..][..|a|];
    assert s[p + |a|..] == s[p..][|a|..];
  }

  /** The first piece of text that starts with an encoded scalar value. */
  lemma FirstEncoded(s: Bytes, p: nat, c: int, rest: Bytes)
    requires p <= |s| && Scalar(c) && s[p..] == Encode(c) + rest
    ensures p < |s| && PieceAt(s, p) == Piece(c, p, |Encode(c)|)
    ensures p + |Encode(c)| <= |s| && s[p + |Encode(c)|..] == rest
  {
    EncodedLength(c);
    hide Encode, Decode;
    Suffixes(s, p, Encode(c), rest);
    DecodeInvertsEncode(c, s, p);
  }

  lemma PiecesHead(s: Bytes, p: nat)
    requires p < |s|
    ensures Pieces(s, p) == [PieceAt(s, p)] + Pieces(s, p + PieceAt(s, p).length)
  {
    hide PieceAt;
  }

  lemma EncodedHead(cps: seq<int>)
    requires cps != [] && Scalars(cps)
    ensures EncodeAll(cps) == Encode(cps[0]) + EncodeAll(cps[1..])
    ensures Scalar(cps[0]) && Scalars(cps[1..]) && cps == [cps[0]] + cps[1..]
  {
    hide Encode, Scalar;
  }

  lemma NoneEncoded(s: Bytes)
    ensures Pieces(s, |s|) == [] && CodePointsOf([]) == [] && EncodeAll([]) == []
  {
  }

  /** Walking encoded text yields the code points it was made of. */
  lemma {:induction false} WalkEncoded(s: Bytes, p: nat, cps: seq<int>)
    requires p <= |s| && Scalars(cps) && s[p..] == EncodeAll(cps)
    ensures CodePointsOf(Pieces(s, p)) == cps
    decreases |cps|
  {
    hide *;
    NoneEncoded(s);
    if cps == [] {
      assert |s[p..]| == 0;
    } else {
      var c, rest := cps[0], cps[1..];
      EncodedHead(cps);
      FirstEncoded(s, p, c, EncodeAll(rest));
      PiecesHead(s, p);
      var q := p + |Encode(c)|;
      WalkEncoded(s, q, rest);
      Unfolds(PieceAt(s, p), Pieces(s, q), rest);
    }
  }

  predicate AllValid(pieces: seq<Piece>) {
    pieces == [] || (pieces[0].cp != INVALID && AllValid(pieces[1..]))
  }

  lemma Unfolds(x: Piece, rest: seq<Piece>, cps: seq<int>)
    ensures CodePointsOf([x] + rest) == [x.cp] + CodePointsOf(rest)
    ensures EncodeAll([x.cp] + cps) == Encode(x.cp) + EncodeAll(cps)
    ensures Scalars(cps) && Scalar(x.cp) ==> Scalars([x.cp] + cps)
    ensures AllValid([x] + rest) <==> x.cp != INVALID && AllValid(rest)
  {
    hide Encode;
    assert ([x] + rest)[1..] == rest && ([x.cp] + cps)[1..] == cps;
  }

  /** Bytes without an invalid piece are the encoding of their code points. */
  lemma {:induction false} NoInvalidIsEncoded(s: Bytes, p: nat)
    requires p <= |s| && AllValid(Pieces(s, p))
    ensures Scalars(CodePointsOf(Pieces(s, p))) && s[p..] == EncodeAll(CodePointsOf(Pieces(s, p)))
    decreases |s| - p
  {
    if p < |s| {
      var x := PieceAt(s, p);
      var q := p + x.length;
      assert Pieces(s, p) == [x] + Pieces(s, q);
      PieceIsEncoding(s, p);
      hide *;
      Unfolds(x, Pieces(s, q), CodePointsOf(Pieces(s, q)));
      NoInvalidIsEncoded(s, q);
      Adjoin(s, p, q, Encode(x.cp), EncodeAll(CodePointsOf(Pieces(s, q))));
    }
  }

  /** A byte string is valid exactly if it is the encoding of some scalar values. */
  lemma ValidIffEncoded(s: Bytes)
    ensures AllValid(Pieces(s, 0)) <==> exists cps :: Scalars(cps) && s == EncodeAll(cps)
  {
    hide Pieces, PieceAt, EncodeAll;
    assert s[0..] == s;
    if AllValid(Pieces(s, 0)) {
      NoInvalidIsEncoded(s, 0);
    }
    forall cps | Scalars(cps) && s == EncodeAll(cps) ensures AllValid(Pieces(s, 0)) {
      WalkEncoded(s, 0, cps);
      ScalarsAreValid(Pieces(s, 0));
    }
  }

  lemma {:induction false} ScalarsAreValid(pieces: seq<Piece>)
    requires Scalars(CodePointsOf(pieces))
    ensures AllValid(pieces)
  {
    if pieces != [] {
      assert forall c <- CodePointsOf(pieces[1..]) :: c in CodePointsOf(pieces);
      assert pieces[0].cp in CodePointsOf(pieces);
      ScalarsAreValid(pieces[1..]);
    }
  }

  // ----- the index of a code point -----

  /** Counting from a position on, k code points having started before it. */
  function IndexFrom(s: Bytes, n: nat, i: nat, k: nat): nat
    requires i <= |s|
    decreases |s| - i
  {
    if i == |s| then |s|
    else if s[i] / 0x40 == 2 then IndexFrom(s, n, i + 1, k)
    else if k + 1 > n then i
    else IndexFrom(s, n, i + 1, k + 1)
  }

  method CodePointIndex(s: Bytes, n: nat) returns (index: nat)
    ensures index == IndexFrom(s, n, 0, 0)
  {
    var num: nat, i: nat := 0, 0;
    while i != |s|
      invariant i <= |s| && IndexFrom(s, n, i, num) == IndexFrom(s, n, 0, 0)
    {
      if s[i] / 0x40 != 2 {
        num := num + 1;
        if num > n { return i; }
      }
      i := i + 1;
    }
    index := |s|;
  }

  /** In encoded text the n-th code point starts where the first n views end. */
  lemma {:induction false} IndexInEncoded(s: Bytes, p: nat, cps: seq<int>, n: nat, k: nat)
    requires p <= |s| && Scalars(cps) && s[p..] == EncodeAll(cps) && k <= n
    ensures IndexFrom(s, n, p, k) == if n - k < |cps| then p + |EncodeAll(cps[..n - k])| else |s|
    decreases |cps|
  {
    hide IndexFrom, Encode;
    EncodeNone(cps[..0]);
    if cps == [] {
      IndexAtEnd(s, n, k);
    } else {
      var c := cps[0];
      var q := p + |Encode(c)|;
      FirstByteStarts(c);
      EncodeAllUnfold(cps);
      hide EncodeAll;
      Begins(s, p, Encode(c), EncodeAll(cps[1..]));
      assert s[p + 0] == Encode(c)[0];
      IndexStarts(s, n, p, k);
      if k < n {
        IndexSkips(s, n, p + 1, q, k + 1);
        IndexInEncoded(s, q, cps[1..], n, k + 1);
        if n - k < |cps| { EncodeAllPrefix(cps, n - k); }
      }
    }
  }

  lemma EncodeNone(cps: seq<int>)
    requires cps == []
    ensures EncodeAll(cps) == []
  {
  }

  lemma IndexAtEnd(s: Bytes, n: nat, k: nat)
    ensures IndexFrom(s, n, |s|, k) == |s|
  {
  }

  lemma EncodeAllUnfold(cps: seq<int>)
    requires Scalars(cps) && cps != []
    ensures EncodeAll(cps) == Encode(cps[0]) + EncodeAll(cps[1..])
  {
  }

  lemma EncodeAllPrefix(cps: seq<int>, k: nat)
    requires Scalars(cps) && 0 < k <= |cps|
    ensures EncodeAll(cps[..k]) == Encode(cps[0]) + EncodeAll(cps[1..][..k - 1])
  {
    assert cps[..k][1..] == cps[1..][..k - 1];
  }

  lemma IndexStarts(s: Bytes, n: nat, i: nat, k: nat)
    requires i < |s| && s[i] / 0x40 != 2
    ensures IndexFrom(s, n, i, k) == if k + 1 > n then i else IndexFrom(s, n, i + 1, k + 1)
  {
  }

  lemma {:induction false} IndexSkips(s: Bytes, n: nat, i: nat, j: nat, k: nat)
    requires i <= j <= |s| && forall t :: i <= t < j ==> s[t] / 0x40 == 2
    ensures IndexFrom(s, n, i, k) == IndexFrom(s, n, j, k)
    decreases j - i
  {
    if i < j { IndexSkips(s, n, i + 1, j, k); }
  }

  lemma FirstByteStarts(c: int)
    requires Scalar(c)
    ensures Encode(c) != [] && Encode(c)[0] / 0x40 != 2
    ensures forall i :: 0 < i < |Encode(c)| ==> Encode(c)[i] / 0x40 == 2
  {
  }
}
