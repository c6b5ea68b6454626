/**
 * What the layout of a float shows besides its value: whether there is an exponent, how many digits stand before
 * and behind the point, and on which side of the text the padding is.
 */
module FloatShape {
  import opened FormatSyntax
  import opened FloatLayout

  /** A sign, so many digits, a point with so many more digits if there is one, and a tail. */
  ghost predicate HasShape(text: string, point: char, sign: Sign, before: int, pointed: bool, behind: int, tail: string)
  {
    exists whole, fraction :: IsShape(text, point, sign, whole, before, pointed, fraction, behind, tail)
  }

  predicate IsShape(text: string, point: char, sign: Sign, whole: string, before: int, pointed: bool, fraction: string,
                    behind: int, tail: string)
  {
    && Digits(whole) && |whole| == before && Digits(fraction) && |fraction| == behind && (!pointed ==> behind == 0)
    && text == SignText(sign) + whole + (if pointed then [point] + fraction else "") + tail
  }

  function Max(a: int, b: int): int { if a < b then b else a }

  /** The format asks for an exponent, or is the general one and the number too small or too large for it. */
  predicate ShowsExponent(sig: string, exponent: int, specs: FloatSpecs) {
    var place := exponent + |sig| - 1;
    || specs.format.Exponential?
    || (specs.format.General? && (place < -4 || place >= if specs.precision > 0 then specs.precision else 16))
  }

  // ----- digits before and behind the point -----

  lemma ExponentialShape(sig: string, exponent: int, specs: FloatSpecs, point: char)
    requires Writable(sig, exponent, specs) && ShowsExponent(sig, exponent, specs)
    ensures -10000 < exponent + |sig| - 1 < 10000
    ensures var behind := Max(|sig|, if specs.showpoint then specs.precision else 0) - 1;
            HasShape(Layout(sig, exponent, specs, point).text, point, specs.sign, 1, behind > 0 || specs.showpoint,
                     behind, ExpTail(exponent + |sig| - 1, specs.upper))
  {
    var zeros := Zeros(if specs.showpoint && specs.precision > |sig| then specs.precision - |sig| else 0);
    var pointed := specs.showpoint || |sig| != 1;
    var fraction := if pointed then sig[1..] + zeros else "";
    ExpText(sig, exponent, specs, point, pointed, fraction);
    hide Zeros, ExpTail, SignText, ExpNotation;
    assert IsShape(Layout(sig, exponent, specs, point).text, point, specs.sign, sig[..1], 1, pointed, fraction,
                   |fraction|, ExpTail(exponent + |sig| - 1, specs.upper));
  }

  /** The digits behind the point where the number is one or more. */
  function Behind(sig: string, exponent: int, specs: FloatSpecs): int {
    var place := exponent + |sig|;
    var least := if exponent >= 0 && !specs.format.Fixed? then 1 else 0;
    Max(Max(0, -exponent), if specs.showpoint then Max(least, specs.precision - place) else 0)
  }

  lemma IntegerShape(sig: string, exponent: int, specs: FloatSpecs, point: char)
    requires Writable(sig, exponent, specs) && !ShowsExponent(sig, exponent, specs) && exponent + |sig| > 0
    ensures var behind := Behind(sig, exponent, specs);
            HasShape(Layout(sig, exponent, specs, point).text, point, specs.sign, exponent + |sig|,
                     behind > 0 || specs.showpoint, behind, "")
  {
    hide Zeros, SignText;
    if exponent >= 0 {
      var zeros := specs.precision - (exponent + |sig|);
      var numZeros := if specs.showpoint && zeros <= 0 && !specs.format.Fixed? then 1 else zeros;
      WholeShape(sig, exponent, specs, point, if specs.showpoint then Zeros(numZeros) else "");
    } else {
      var numZeros := if specs.showpoint then specs.precision - |sig| else 0;
      var place := exponent + |sig|;
      var fraction := sig[place..] + Zeros(numZeros);
      var text := Layout(sig, exponent, specs, point).text;
      assert text == SignText(specs.sign) + sig[..place] + ([point] + fraction) + "";
      assert IsShape(text, point, specs.sign, sig[..place], place, true, fraction, |fraction|, "");
    }
  }

  lemma WholeShape(sig: string, exponent: int, specs: FloatSpecs, point: char, fraction: string)
    requires Writable(sig, exponent, specs) && !ShowsExponent(sig, exponent, specs) && exponent >= 0
    requires var zeros := specs.precision - (exponent + |sig|);
             var numZeros := if specs.showpoint && zeros <= 0 && !specs.format.Fixed? then 1 else zeros;
             fraction == if specs.showpoint then Zeros(numZeros) else ""
    ensures HasShape(Layout(sig, exponent, specs, point).text, point, specs.sign, exponent + |sig|, specs.showpoint,
                     |fraction|, "")
  {
    hide Zeros, SignText;
    var text, whole := Layout(sig, exponent, specs, point).text, sig + Zeros(exponent);
    var q := if specs.showpoint then [point] + fraction else "";
    assert text == SignText(specs.sign) + whole + q + "" by {
      assert SignText(specs.sign) + sig + Zeros(exponent) == SignText(specs.sign) + whole;
    }
    assert IsShape(text, point, specs.sign, whole, exponent + |sig|, specs.showpoint, fraction, |fraction|, "");
  }

  lemma FractionShape(sig: string, exponent: int, specs: FloatSpecs, point: char)
    requires Writable(sig, exponent, specs) && !ShowsExponent(sig, exponent, specs) && exponent + |sig| <= 0
    requires sig != "" || exponent != 0
    ensures var behind := if sig == "" && 0 <= specs.precision < -exponent then specs.precision else -exponent;
            HasShape(Layout(sig, exponent, specs, point).text, point, specs.sign, 1, behind > 0 || specs.showpoint,
                     behind, "")
  {
    hide Zeros, SignText;
    var all := -(exponent + |sig|);
    var numZeros := if |sig| == 0 && 0 <= specs.precision < all then specs.precision else all;
    var pointy := numZeros != 0 || |sig| != 0 || specs.showpoint;
    var fraction := if pointy then Zeros(numZeros) + sig else "";
    var text := Layout(sig, exponent, specs, point).text;
    assert [point] + Zeros(numZeros) + sig == [point] + (Zeros(numZeros) + sig);
    assert text == SignText(specs.sign) + "0" + (if pointy then [point] + fraction else "") + "";
    assert IsShape(text, point, specs.sign, "0", 1, pointy, fraction, |fraction|, "");
  }

  // ----- what the formats show -----

  /** In fixed notation as many digits stand behind the point as the precision says. */
  lemma FixedShows(sig: string, exponent: int, specs: FloatSpecs, point: char)
    requires Writable(sig, exponent, specs) && specs.format.Fixed? && specs.precision >= 0
    requires exponent == -specs.precision || (sig == "" && exponent < -specs.precision)
    requires sig != "" || exponent != 0
    ensures HasShape(Layout(sig, exponent, specs, point).text, point, specs.sign, Max(1, exponent + |sig|),
                     specs.precision > 0 || specs.showpoint, specs.precision, "")
  {
    hide HasShape, Layout;
    if exponent + |sig| > 0 {
      IntegerShape(sig, exponent, specs, point);
    } else {
      FractionShape(sig, exponent, specs, point);
    }
  }

  /** In general notation, with the point asked for, as many digits are shown as the precision says, and one behind
      the point if there would be none. */
  lemma GeneralShows(sig: string, exponent: int, specs: FloatSpecs, point: char)
    requires Writable(sig, exponent, specs) && specs.format.General? && specs.showpoint && 0 < |sig| <= specs.precision
    requires -4 <= exponent + |sig| - 1
    ensures exponent + |sig| > specs.precision ==>
              HasShape(Layout(sig, exponent, specs, point).text, point, specs.sign, 1, true, specs.precision - 1,
                       ExpTail(exponent + |sig| - 1, specs.upper))
    ensures 0 < exponent + |sig| <= specs.precision ==>
              var behind := specs.precision - (exponent + |sig|);
              HasShape(Layout(sig, exponent, specs, point).text, point, specs.sign, exponent + |sig|, true,
                       Max(behind, if exponent >= 0 then 1 else 0), "")
    ensures exponent + |sig| <= 0 ==>
              HasShape(Layout(sig, exponent, specs, point).text, point, specs.sign, 1, true, -exponent, "")
  {
    hide HasShape, Layout, ExpTail;
    if exponent + |sig| > specs.precision {
      ExponentialShape(sig, exponent, specs, point);
    } else if exponent + |sig| > 0 {
      IntegerShape(sig, exponent, specs, point);
    } else {
      FractionShape(sig, exponent, specs, point);
    }
  }

  // ----- the exponent -----

  predicate Contains(text: string, c: char) { exists i :: 0 <= i < |text| && text[i] == c }

  lemma JoinedLetters(left: string, right: string, c: char)
    ensures Contains(left + right, c) <==> Contains(left, c) || Contains(right, c)
  {
    assert forall i :: 0 <= i < |left| ==> (left + right)[i] == left[i];
    assert forall i :: 0 <= i < |right| ==> (left + right)[|left| + i] == right[i];
  }

  lemma PlainLetters(text: string, point: char, sign: Sign, c: char)
    requires c == 'e' || c == 'E'
    ensures Digits(text) ==> !Contains(text, c)
    ensures !Contains(SignText(sign), c) && !Contains("", c)
    ensures PointChar(point) ==> !Contains([point], c)
  {
  }

  lemma ShapeLetters(text: string, point: char, sign: Sign, before: int, pointed: bool, behind: int, tail: string,
                     c: char)
    requires HasShape(text, point, sign, before, pointed, behind, tail) && PointChar(point) && (c == 'e' || c == 'E')
    ensures Contains(text, c) <==> Contains(tail, c)
  {
    var whole, fraction :| IsShape(text, point, sign, whole, before, pointed, fraction, behind, tail);
    var q := if pointed then [point] + fraction else "";
    assert Digits(whole) && Digits(fraction) && text == SignText(sign) + whole + q + tail;
    hide *;
    PlainLetters(whole, point, sign, c);
    PlainLetters(fraction, point, sign, c);
    JoinedLetters([point], fraction, c);
    JoinedLetters(SignText(sign), whole, c);
    JoinedLetters(SignText(sign) + whole, q, c);
    JoinedLetters(SignText(sign) + whole + q, tail, c);
  }

  /** An exponent is shown, with the letter in the case asked for, if and only if the format or the size of the
      number calls for it. */
  lemma ExponentShown(sig: string, exponent: int, specs: FloatSpecs, point: char)
    requires Writable(sig, exponent, specs) && PointChar(point) && (sig != "" || exponent != 0)
    ensures var text := Layout(sig, exponent, specs, point).text;
            && (Contains(text, 'e') <==> ShowsExponent(sig, exponent, specs) && !specs.upper)
            && (Contains(text, 'E') <==> ShowsExponent(sig, exponent, specs) && specs.upper)
  {
    hide HasShape, Layout, Contains;
    var text := Layout(sig, exponent, specs, point).text;
    if ShowsExponent(sig, exponent, specs) {
      ExponentialShape(sig, exponent, specs, point);
      var behind := Max(|sig|, if specs.showpoint then specs.precision else 0) - 1;
      var tail := ExpTail(exponent + |sig| - 1, specs.upper);
      ShapeLetters(text, point, specs.sign, 1, behind > 0 || specs.showpoint, behind, tail, 'e');
      ShapeLetters(text, point, specs.sign, 1, behind > 0 || specs.showpoint, behind, tail, 'E');
      TailLetters(exponent + |sig| - 1, specs.upper);
    } else if exponent + |sig| > 0 {
      IntegerShape(sig, exponent, specs, point);
      var behind := Behind(sig, exponent, specs);
      ShapeLetters(text, point, specs.sign, exponent + |sig|, behind > 0 || specs.showpoint, behind, "", 'e');
      ShapeLetters(text, point, specs.sign, exponent + |sig|, behind > 0 || specs.showpoint, behind, "", 'E');
      NoLetters();
    } else {
      FractionShape(sig, exponent, specs, point);
      var behind := if sig == "" && 0 <= specs.precision < -exponent then specs.precision else -exponent;
      ShapeLetters(text, point, specs.sign, 1, behind > 0 || specs.showpoint, behind, "", 'e');
      ShapeLetters(text, point, specs.sign, 1, behind > 0 || specs.showpoint, behind, "", 'E');
      NoLetters();
    }
  }

  lemma NoLetters()
    ensures !Contains("", 'e') && !Contains("", 'E')
  {
  }

  lemma TailLetters(outputExp: int, upper: bool)
    requires -10000 < outputExp < 10000
    ensures Contains(ExpTail(outputExp, upper), 'e') <==> !upper
    ensures Contains(ExpTail(outputExp, upper), 'E') <==> upper
  {
    ExponentSpells(outputExp);
    hide ExponentText;
    var tail, t := ExpTail(outputExp, upper), ExponentText(outputExp);
    assert tail[0] == if upper then 'E' else 'e';
    assert forall i :: 1 <= i < |tail| ==> tail[i] == t[i - 1];
    assert forall i :: 1 <= i < |t| ==> t[i] == t[1..][i - 1];
  }

  // ----- padding -----

  /** The text stands at the left, at the right or in the middle of the padding, on the left side of it if it
      cannot be halved. */
  lemma PaddedSides(laid: Laid, width: nat, align: Align, fill: string)
    requires laid.size == |laid.text|
    ensures var missing := if width > laid.size then width - laid.size else 0;
            exists left, right ::
              && left >= 0 && right >= 0 && left + right == missing
              && (align.Left? ==> left == 0) && (align.Center? ==> left <= right <= left + 1)
              && (!align.Left? && !align.Center? ==> right == 0)
              && Padded(laid, width, align, fill) == Repeated(fill, left) + laid.text + Repeated(fill, right)
  {
    hide Repeated;
    var missing := if width > laid.size then width - laid.size else 0;
    var left := if align.Left? then 0 else if align.Center? then missing / 2 else missing;
    assert Padded(laid, width, align, fill) == Repeated(fill, left) + laid.text + Repeated(fill, missing - left);
  }
}
