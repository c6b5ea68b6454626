/**
 * The specifier grammar from the reader's side: whatever the parser accepts is some specifier written in the
 * order of the grammar and allowed for the argument. With the writer's side this is exactly what is accepted.
 */
module SpecConverse {
  import opened Outcomes
  import opened FormatSyntax
  import opened SpecGrammar
  import opened Slices
  import FloatLayout

  // ----- the parts still to come -----

  /** Only parts after this rank are given. */
  predicate After(src: Source, rank: nat) {
    && src.fill.None? && src.align.NoAlign?
    && (rank >= 2 ==> src.sign.NoSign?)
    && (rank >= 3 ==> !src.alt)
    && (rank >= 4 ==> !src.zero)
    && (rank >= 5 ==> src.width.Absent?)
    && (rank >= 6 ==> !src.point)
    && (rank >= 7 ==> !src.localized)
  }

  /** Specifiers over which the parts of a source are laid. */
  function Applied(specs: Specs, src: Source, width: Ref, precision: Ref): Specs
    requires WritableAmount(src.width) && WritableAmount(src.precision)
  {
    var padded := src.zero && specs.align.NoAlign?;
    Specs(
      Amounted(src.width, specs.width), Amounted(src.precision, specs.precision),
      if src.presentation.Plain? then specs.presentation else src.presentation,
      if padded then Numeric else specs.align, if src.sign.NoSign? then specs.sign else src.sign,
      specs.alt || src.alt, specs.localized || src.localized, if padded then "0" else specs.fill,
      if src.width.From? then width else specs.widthRef, if src.precision.From? then precision else specs.precisionRef)
  }

  /** From the scan x to the scan r the parser has read this source. */
  ghost predicate Accounts(s: string, kind: Kind, x: Scan, r: Scan, src: Source) {
    && x.pos <= r.pos <= |s| && After(src, x.phase.Rank()) && Allowed(src, kind)
    && s[x.pos..r.pos] == Written(src, "")
    && References(src, x.next).Some?
    && var (width, precision, next) := References(src, x.next).value;
       r.next == next && r.specs == Applied(x.specs, src, width, precision)
  }

  /** Without the parts up to some rank the text is that of the rest. */
  lemma Skips(src: Source)
    ensures src.fill.None? && src.align.NoAlign? ==> Written(src, "") == SignOn(src, "")
    ensures src.sign.NoSign? ==> SignOn(src, "") == AltOn(src, "")
    ensures !src.alt ==> AltOn(src, "") == ZeroOn(src, "")
    ensures !src.zero ==> ZeroOn(src, "") == WidthOn(src, "")
    ensures src.width.Absent? ==> WidthOn(src, "") == PrecisionOn(src, "")
    ensures !src.point && src.precision.Absent? ==> PrecisionOn(src, "") == LocaleOn(src, "")
    ensures !src.localized ==> LocaleOn(src, "") == LetterOn(src, "")
    ensures LetterOn(src, "") == LetterText(src.presentation)
  {
    hide LetterText;
    assert forall t: string :: "" + t == t && t + "" == t;
  }

  lemma Cut(s: string, a: nat, m: nat, b: nat)
    requires a <= m <= b <= |s|
    ensures s[a..b] == s[a..m] + s[m..b]
  {
  }

  const NONE := Source(None, NoAlign, NoSign, false, false, Absent, false, Absent, false, Plain)

  lemma NothingRead(s: string, kind: Kind, x: Scan)
    requires x.pos <= |s|
    ensures Accounts(s, kind, x, x, NONE)
  {
    Skips(NONE);
  }

  // ----- one part read before the others -----

  /** The text from a part on depends on that part and the later ones. */
  lemma LaterParts(a: Source, b: Source)
    requires a.presentation == b.presentation
    ensures LetterOn(a, "") == LetterOn(b, "")
    ensures a.localized == b.localized ==> LocaleOn(a, "") == LocaleOn(b, "")
    ensures a.localized == b.localized && a.point == b.point && a.precision == b.precision ==>
              PrecisionOn(a, "") == PrecisionOn(b, "") && (a.width == b.width ==> WidthOn(a, "") == WidthOn(b, ""))
    ensures a.(fill := None, align := NoAlign, sign := NoSign, alt := false) ==
              b.(fill := None, align := NoAlign, sign := NoSign, alt := false) ==>
              ZeroOn(a, "") == ZeroOn(b, "") && (a.alt == b.alt ==> AltOn(a, "") == AltOn(b, ""))
    ensures a.(fill := None, align := NoAlign) == b.(fill := None, align := NoAlign) ==> SignOn(a, "") == SignOn(b, "")
  {
    hide LetterText, AmountText, SignText;
  }

  /** A piece read before a source has been accounted for. */
  lemma Prepends(s: string, kind: Kind, x: Scan, y: Scan, r: Scan, src: Source, whole: Source, piece: string)
    requires x.pos <= y.pos && Accounts(s, kind, y, r, src) && s[x.pos..y.pos] == piece
    requires Written(whole, "") == piece + Written(src, "") && After(whole, x.phase.Rank()) && Allowed(whole, kind)
    requires References(whole, x.next).Some? && References(src, y.next).Some?
    requires var (w, p, next) := References(whole, x.next).value;
             var (w', p', next') := References(src, y.next).value;
             next == next' && Applied(x.specs, whole, w, p) == Applied(y.specs, src, w', p')
    ensures Accounts(s, kind, x, r, whole)
  {
    hide Written, After, Allowed, References, Applied;
    Cut(s, x.pos, y.pos, r.pos);
  }

  lemma AccountsSays(s: string, kind: Kind, x: Scan, r: Scan, src: Source)
    requires Accounts(s, kind, x, r, src)
    ensures x.pos <= r.pos <= |s| && After(src, x.phase.Rank()) && Allowed(src, kind) && References(src, x.next).Some?
    ensures WritableAmount(src.width) && WritableAmount(src.precision)
  {
  }

  lemma SignRead(s: string, kind: Kind, x: Scan, r: Scan, src: Source)
    requires x.pos < |s| && 1 <= x.phase.Rank() < 2 && SignedOrFloat(kind)
    requires s[x.pos] == '+' || s[x.pos] == '-' || s[x.pos] == ' '
    requires Accounts(s, kind, Scan(x.pos + 1, x.specs.(sign := SignOf(s[x.pos])), Signing, x.next), r, src)
    ensures Accounts(s, kind, x, r, src.(sign := SignOf(s[x.pos])))
  {
    var sign := SignOf(s[x.pos]);
    var y, whole := Scan(x.pos + 1, x.specs.(sign := sign), Signing, x.next), src.(sign := sign);
    AccountsSays(s, kind, y, r, src);
    SignSpelled(s[x.pos]);
    WithSign(src, sign, kind, x.specs, x.next);
    hide *;
    Prepends(s, kind, x, y, r, src, whole, SignText(sign));
  }

  lemma SignSpelled(c: char)
    requires c == '+' || c == '-' || c == ' '
    ensures SignText(SignOf(c)) == [c] && !SignOf(c).NoSign?
  {
  }

  lemma WithSign(src: Source, sign: Sign, kind: Kind, specs: Specs, next: int)
    requires After(src, 2) && Allowed(src, kind) && SignedOrFloat(kind) && !sign.NoSign?
    requires References(src, next).Some?
    ensures var whole := src.(sign := sign);
            && After(whole, 1) && Allowed(whole, kind) && References(whole, next) == References(src, next)
            && Written(whole, "") == SignText(sign) + Written(src, "")
            && var (w, p, _) := References(src, next).value;
               Applied(specs, whole, w, p) == Applied(specs.(sign := sign), src, w, p)
  {
    SignedText(src, sign);
    SameReferences(src, src.(sign := sign), next);
    hide Written, SignText, References, Amounted, WritableAmount, Presents, SignedOrFloat;
  }

  lemma SignedText(src: Source, sign: Sign)
    requires After(src, 2)
    ensures Written(src.(sign := sign), "") == SignText(sign) + Written(src, "")
  {
    var whole := src.(sign := sign);
    Skips(src);
    Skips(whole);
    LaterParts(src, whole);
    SignThen(whole);
    hide Written, SignOn, AltOn, SignText;
  }

  lemma SignThen(src: Source)
    ensures SignOn(src, "") == SignText(src.sign) + AltOn(src, "")
  {
  }

  lemma SameReferences(src: Source, whole: Source, next: int)
    requires src.width == whole.width && src.precision == whole.precision
    requires WritableAmount(src.width) && WritableAmount(src.precision)
    ensures References(src, next) == References(whole, next)
  {
  }

  lemma AltRead(s: string, kind: Kind, x: Scan, r: Scan, src: Source)
    requires x.pos < |s| && 1 <= x.phase.Rank() < 3 && Arithmetic(kind) && s[x.pos] == '#'
    requires Accounts(s, kind, Scan(x.pos + 1, x.specs.(alt := true), Hash, x.next), r, src)
    ensures Accounts(s, kind, x, r, src.(alt := true))
  {
    var y, whole := Scan(x.pos + 1, x.specs.(alt := true), Hash, x.next), src.(alt := true);
    AccountsSays(s, kind, y, r, src);
    WithAlt(src, kind, x.phase.Rank(), x.specs, x.next);
    hide *;
    Prepends(s, kind, x, y, r, src, whole, "#");
  }

  lemma WithAlt(src: Source, kind: Kind, rank: nat, specs: Specs, next: int)
    requires After(src, 3) && Allowed(src, kind) && Arithmetic(kind) && 1 <= rank < 3 && References(src, next).Some?
    ensures var whole := src.(alt := true);
            && After(whole, rank) && Allowed(whole, kind) && References(whole, next) == References(src, next)
            && Written(whole, "") == "#" + Written(src, "")
            && var (w, p, _) := References(src, next).value;
               Applied(specs, whole, w, p) == Applied(specs.(alt := true), src, w, p)
  {
    var whole := src.(alt := true);
    Skips(src);
    Skips(whole);
    LaterParts(src, whole);
    SameReferences(src, whole, next);
    AltThen(whole);
    hide Written, SignOn, AltOn, ZeroOn, References, Amounted, WritableAmount, Presents, SignedOrFloat;
  }

  lemma AltThen(src: Source)
    ensures AltOn(src, "") == (if src.alt then "#" else "") + ZeroOn(src, "")
    ensures ZeroOn(src, "") == (if src.zero then "0" else "") + WidthOn(src, "")
    ensures WidthOn(src, "") == AmountText(src.width) + PrecisionOn(src, "")
    ensures PrecisionOn(src, "") == (if src.point then "." else "") + (AmountText(src.precision) + LocaleOn(src, ""))
    ensures LocaleOn(src, "") == (if src.localized then "L" else "") + LetterOn(src, "")
  {
  }

  lemma ZeroRead(s: string, kind: Kind, x: Scan, r: Scan, src: Source)
    requires x.pos < |s| && 1 <= x.phase.Rank() < 4 && Arithmetic(kind) && s[x.pos] == '0'
    requires x.specs.align.NoAlign? ==> x.specs.fill == " "
    requires Accounts(s, kind, Scan(x.pos + 1, ZeroFilled(x.specs), Zero, x.next), r, src)
    ensures Accounts(s, kind, x, r, src.(zero := true))
  {
    var y, whole := Scan(x.pos + 1, ZeroFilled(x.specs), Zero, x.next), src.(zero := true);
    AccountsSays(s, kind, y, r, src);
    WithZero(src, kind, x.phase.Rank(), x.specs, x.next);
    hide *;
    Prepends(s, kind, x, y, r, src, whole, "0");
  }

  lemma WithZero(src: Source, kind: Kind, rank: nat, specs: Specs, next: int)
    requires After(src, 4) && Allowed(src, kind) && Arithmetic(kind) && 1 <= rank < 4 && References(src, next).Some?
    requires specs.align.NoAlign? ==> specs.fill == " "
    ensures var whole := src.(zero := true);
            && After(whole, rank) && Allowed(whole, kind) && References(whole, next) == References(src, next)
            && Written(whole, "") == "0" + Written(src, "")
            && var (w, p, _) := References(src, next).value;
               Applied(specs, whole, w, p) == Applied(ZeroFilled(specs), src, w, p)
  {
    var whole := src.(zero := true);
    ZeroText(src);
    SameReferences(src, whole, next);
    var (w, p, _) := References(src, next).value;
    ZeroApplied(src, specs, w, p);
    hide Written, References, Applied, WritableAmount, Presents, SignedOrFloat, Arithmetic, FloatOrString;
  }

  lemma ZeroApplied(src: Source, specs: Specs, width: Ref, precision: Ref)
    requires WritableAmount(src.width) && WritableAmount(src.precision) && !src.zero
    requires specs.align.NoAlign? ==> specs.fill == " "
    ensures Applied(specs, src.(zero := true), width, precision) == Applied(ZeroFilled(specs), src, width, precision)
  {
    assert " "[0 := '0'] == "0";
    hide Amounted, WritableAmount;
  }

  lemma ZeroText(src: Source)
    requires After(src, 4)
    ensures Written(src.(zero := true), "") == "0" + Written(src, "")
  {
    var whole := src.(zero := true);
    Skips(src);
    Skips(whole);
    LaterParts(src, whole);
    AltThen(whole);
    hide Written, SignOn, AltOn, ZeroOn, WidthOn;
  }

  lemma LocaleRead(s: string, kind: Kind, x: Scan, r: Scan, src: Source)
    requires x.pos < |s| && 1 <= x.phase.Rank() < 7 && Arithmetic(kind) && s[x.pos] == 'L'
    requires Accounts(s, kind, Scan(x.pos + 1, x.specs.(localized := true), Locale, x.next), r, src)
    ensures Accounts(s, kind, x, r, src.(localized := true))
  {
    var y, whole := Scan(x.pos + 1, x.specs.(localized := true), Locale, x.next), src.(localized := true);
    AccountsSays(s, kind, y, r, src);
    WithLocale(src, kind, x.phase.Rank(), x.specs, x.next);
    hide *;
    Prepends(s, kind, x, y, r, src, whole, "L");
  }

  lemma WithLocale(src: Source, kind: Kind, rank: nat, specs: Specs, next: int)
    requires After(src, 7) && Allowed(src, kind) && Arithmetic(kind) && 1 <= rank < 7 && References(src, next).Some?
    ensures var whole := src.(localized := true);
            && After(whole, rank) && Allowed(whole, kind) && References(whole, next) == References(src, next)
            && Written(whole, "") == "L" + Written(src, "")
            && var (w, p, _) := References(src, next).value;
               Applied(specs, whole, w, p) == Applied(specs.(localized := true), src, w, p)
  {
    var whole := src.(localized := true);
    Skips(src);
    Skips(whole);
    LaterParts(src, whole);
    SameReferences(src, whole, next);
    AltThen(whole);
    hide Written, SignOn, AltOn, ZeroOn, WidthOn, PrecisionOn, LocaleOn, References, Amounted, WritableAmount, Presents,
         SignedOrFloat;
  }

  lemma LetterRead(s: string, kind: Kind, x: Scan, p: Presentation)
    requires x.pos < |s| && x.phase.Rank() >= 1 && LetterText(p) == [s[x.pos]] && Presents(p, kind) && !p.Plain?
    ensures Accounts(s, kind, x, x.(pos := x.pos + 1, specs := x.specs.(presentation := p)), NONE.(presentation := p))
  {
    Skips(NONE.(presentation := p));
    hide Presents, LetterText;
  }

  // ----- widths and precisions -----

  /** A width or a precision that was read is written so. */
  lemma AmountRead(s: string, d: Dynamic) returns (a: Amount)
    requires d.pos < |s| && (IsDigit(s[d.pos]) || s[d.pos] == '{') && ParseDynamicSpec(s, d).Ok?
    ensures WritableAmount(a) && !a.Absent? && (a.Given? ==> a.digits[0] == s[d.pos])
    ensures var e := ParseDynamicSpec(s, d).value;
            && d.pos < e.pos <= |s| && s[d.pos..e.pos] == AmountText(a) && e.value == Amounted(a, d.value)
            && Referred(a, d.next).Some?
            && var (ref, next) := Referred(a, d.next).value; e.next == next && e.ref == if a.From? then ref else d.ref
  {
    if IsDigit(s[d.pos]) {
      a := GivenRead(s, d);
    } else {
      var id := ReferenceRead(s, d.(pos := d.pos + 1));
      a := From(id);
      assert ParseDynamicSpec(s, d) == ParseReference(s, d.(pos := d.pos + 1));
      var e := ParseDynamicSpec(s, d).value.pos;
      FromText(id);
      hide ParseReference, ParseDynamicSpec, Taken, IdText, WritableId, AmountText;
      Cut(s, d.pos, d.pos + 1, e);
      assert s[d.pos..d.pos + 1] == "{";
    }
  }

  lemma FromText(id: Id)
    ensures AmountText(From(id)) == "{" + (IdText(id) + "}")
  {
  }

  lemma GivenRead(s: string, d: Dynamic) returns (a: Amount)
    requires d.pos < |s| && IsDigit(s[d.pos]) && ParseDynamicSpec(s, d).Ok?
    ensures WritableAmount(a) && a.Given? && a.digits[0] == s[d.pos]
    ensures var e := ParseDynamicSpec(s, d).value;
            && d.pos < e.pos <= |s| && s[d.pos..e.pos] == AmountText(a)
            && e == Dynamic(e.pos, Amounted(a, d.value), d.ref, d.next)
  {
    var e := DigitsEnd(s, d.pos);
    DigitsAreDigits(s, d.pos);
    NumberIsSpelled(s, d.pos, e);
    a := Given(s[d.pos..e]);
    hide Number, DigitsEnd, FloatLayout.NumberOf;
  }

  lemma ReferenceRead(s: string, d: Dynamic) returns (id: Id)
    requires d.pos <= |s| && ParseReference(s, d).Ok?
    ensures WritableId(id) && Taken(id, d.next).Some?
    ensures var e := ParseReference(s, d).value;
            && d.pos < e.pos <= |s| && s[d.pos..e.pos] == IdText(id) + "}" && e.value == d.value
            && Taken(id, d.next).value == (e.ref, e.next)
  {
    id := IdWritten(s, d.pos);
    TakenIsTaken(id, d.next);
    var (q, _) := ParseArgId(s, d.pos).value;
    Cut(s, d.pos, q, q + 1);
    hide ParseArgId, Taken, TakeId, IdText;
    assert s[q..q + 1] == "}";
  }

  /** An argument id that was read, from the text it was read from. */
  lemma IdWritten(s: string, p: nat) returns (id: Id)
    requires p < |s| && ParseArgId(s, p).Ok?
    requires var q := ParseArgId(s, p).value.0; q < |s| && (s[q] == '}' || s[q] == ':')
    ensures WritableId(id) && s[p..ParseArgId(s, p).value.0] == IdText(id) && ParseArgId(s, p).value.1 == IdRead(id)
  {
    var (q, read) := ParseArgId(s, p).value;
    if read.Auto? {
      id := NoId;
    } else if read.Name? {
      NameWritten(s, p + 1);
      id := Named(s[p..q]);
    } else {
      id := Digits(s[p..q]);
      DigitsWritten(s, p, q);
      hide Number, DigitsEnd, FloatLayout.NumberOf;
    }
  }

  lemma DigitsWritten(s: string, p: nat, q: nat)
    requires p < |s| && IsDigit(s[p]) && q == if s[p] == '0' then p + 1 else DigitsEnd(s, p)
    ensures p < q <= |s| && DigitString(s[p..q]) && s[p..q][0] == s[p] && (s[p] == '0' ==> s[p..q] == "0")
    ensures (if s[p] == '0' then 0 else ParseInt(s, p, INT_MAX).1) == Spelled(s[p..q], INT_MAX)
  {
    if s[p] == '0' {
      ZeroSpells(s[p..q]);
    } else {
      DigitsAreDigits(s, p);
      NumberIsSpelled(s, p, q);
      hide Number, DigitsEnd, FloatLayout.NumberOf;
    }
  }

  lemma {:induction false} NameWritten(s: string, p: nat)
    requires p <= |s|
    ensures forall i :: p <= i < NameEnd(s, p) ==> IsNameStart(s[i]) || IsDigit(s[i])
    decreases |s| - p
  {
    if p < |s| && (IsNameStart(s[p]) || IsDigit(s[p])) { NameWritten(s, p + 1); }
  }

  lemma WithWidth(src: Source, a: Amount, kind: Kind, rank: nat, specs: Specs, next: int)
    requires After(src, 5) && Allowed(src, kind) && 1 <= rank < 5 && WritableAmount(a) && !a.Absent?
    requires (a.Given? ==> a.digits[0] != '0') && Referred(a, next).Some?
    requires References(src, Referred(a, next).value.1).Some?
    ensures var whole := src.(width := a);
            var (ref, next1) := Referred(a, next).value;
            var (w', p, next2) := References(src, next1).value;
            && After(whole, rank) && Allowed(whole, kind) && References(whole, next) == Some((ref, p, next2))
            && Written(whole, "") == AmountText(a) + Written(src, "")
            && Applied(specs, whole, ref, p)
               == Applied(specs.(width := Amounted(a, specs.width),
                                 widthRef := if a.From? then ref else specs.widthRef), src, w', p)
  {
    WidthText(src, a);
    hide Written, Taken, Presents, SignedOrFloat, AmountText;
  }

  lemma WidthText(src: Source, a: Amount)
    requires After(src, 5)
    ensures Written(src.(width := a), "") == AmountText(a) + Written(src, "")
  {
    var whole := src.(width := a);
    Skips(src);
    Skips(whole);
    LaterParts(src, whole);
    AltThen(whole);
    hide Written, SignOn, AltOn, ZeroOn, WidthOn, PrecisionOn, AmountText;
  }

  lemma WidthRead(s: string, kind: Kind, x: Scan, r: Scan, a: Amount, e: Dynamic, src: Source)
    requires x.pos < e.pos <= |s| && 1 <= x.phase.Rank() < 5 && WritableAmount(a) && !a.Absent?
    requires (a.Given? ==> a.digits[0] != '0') && Referred(a, x.next).Some? && s[x.pos..e.pos] == AmountText(a)
    requires var (ref, next) := Referred(a, x.next).value;
             e == Dynamic(e.pos, Amounted(a, x.specs.width), if a.From? then ref else x.specs.widthRef, next)
    requires Accounts(s, kind, Scan(e.pos, x.specs.(width := e.value, widthRef := e.ref), Width, e.next), r, src)
    ensures Accounts(s, kind, x, r, src.(width := a))
  {
    var y := Scan(e.pos, x.specs.(width := e.value, widthRef := e.ref), Width, e.next);
    AccountsSays(s, kind, y, r, src);
    WithWidth(src, a, kind, x.phase.Rank(), x.specs, x.next);
    hide *;
    Prepends(s, kind, x, y, r, src, src.(width := a), AmountText(a));
  }

  lemma WithPrecision(src: Source, a: Amount, kind: Kind, rank: nat, specs: Specs, next: int)
    requires After(src, 6) && Allowed(src, kind) && 1 <= rank < 6 && WritableAmount(a) && FloatOrString(kind)
    requires a.Absent? ==> src != NONE
    requires Referred(a, next).Some? && References(src, Referred(a, next).value.1).Some?
    ensures var whole := src.(point := true, precision := a);
            var (ref, next1) := Referred(a, next).value;
            var (w, p', next2) := References(src, next1).value;
            && After(whole, rank) && Allowed(whole, kind) && References(whole, next) == Some((w, ref, next2))
            && Written(whole, "") == ("." + AmountText(a)) + Written(src, "")
            && Applied(specs, whole, w, ref)
               == Applied(specs.(precision := Amounted(a, specs.precision),
                                 precisionRef := if a.From? then ref else specs.precisionRef),
                          src, w, p')
  {
    PrecisionText(src, a);
    hide Written, Taken, Presents, SignedOrFloat, AmountText, FloatLayout.NumberOf, FloatLayout.Digits;
  }

  lemma PrecisionText(src: Source, a: Amount)
    requires After(src, 6) && src.precision.Absent?
    ensures Written(src.(point := true, precision := a), "") == ("." + AmountText(a)) + Written(src, "")
  {
    var whole := src.(point := true, precision := a);
    AfterSays(src);
    hide *;
    Skips(src);
    Skips(whole);
    LaterParts(src, whole);
    AltThen(whole);
    Grouped(".", AmountText(a), LocaleOn(src, ""));
  }

  lemma AfterSays(src: Source)
    requires After(src, 6)
    ensures src.fill.None? && src.align.NoAlign? && src.sign.NoSign? && !src.alt && !src.zero && src.width.Absent?
    ensures !src.point
  {
  }

  lemma Grouped(a: string, b: string, c: string)
    ensures (a + b) + c == a + (b + c)
  {
  }

  lemma PrecisionRead(s: string, kind: Kind, x: Scan, r: Scan, a: Amount, e: Dynamic, src: Source)
    requires x.pos < e.pos <= |s| && 1 <= x.phase.Rank() < 6 && WritableAmount(a) && FloatOrString(kind)
    requires Referred(a, x.next).Some? && s[x.pos..e.pos] == "." + AmountText(a) && (a.Absent? ==> src != NONE)
    requires var (ref, next) := Referred(a, x.next).value;
             e == Dynamic(e.pos, Amounted(a, x.specs.precision), if a.From? then ref else x.specs.precisionRef, next)
    requires Accounts(s, kind, Scan(e.pos, x.specs.(precision := e.value, precisionRef := e.ref), Precision, e.next),
                      r, src)
    ensures Accounts(s, kind, x, r, src.(point := true, precision := a))
  {
    var y := Scan(e.pos, x.specs.(precision := e.value, precisionRef := e.ref), Precision, e.next);
    AccountsSays(s, kind, y, r, src);
    WithPrecision(src, a, kind, x.phase.Rank(), x.specs, x.next);
    hide *;
    Prepends(s, kind, x, y, r, src, src.(point := true, precision := a), "." + AmountText(a));
  }

  /** A point and what was read after it. */
  lemma PointRead(s: string, x: Scan) returns (a: Amount)
    requires x.pos < |s| && s[x.pos] == '.'
    requires ParsePrecision(s, Dynamic(x.pos, x.specs.precision, x.specs.precisionRef, x.next)).Ok?
    ensures WritableAmount(a) && Referred(a, x.next).Some?
    ensures var e := ParsePrecision(s, Dynamic(x.pos, x.specs.precision, x.specs.precisionRef, x.next)).value;
            var (ref, next) := Referred(a, x.next).value;
            && x.pos < e.pos <= |s| && s[x.pos..e.pos] == "." + AmountText(a)
            && e == Dynamic(e.pos, Amounted(a, x.specs.precision), if a.From? then ref else x.specs.precisionRef, next)
            && (a.Absent? ==> e.pos == x.pos + 1 < |s| && s[e.pos] != '}')
  {
    var d := Dynamic(x.pos + 1, x.specs.precision, x.specs.precisionRef, x.next);
    assert s[x.pos..x.pos + 1] == ".";
    if IsDigit(s[d.pos]) || s[d.pos] == '{' {
      a := AmountRead(s, d);
      hide ParseDynamicSpec, AmountText, Referred, Amounted, WritableAmount;
      Cut(s, x.pos, x.pos + 1, ParseDynamicSpec(s, d).value.pos);
    } else {
      a := Absent;
      assert "." + "" == ".";
    }
  }

  // ----- all rounds -----

  /** What one round read, once an alignment is no longer possible. */
  predicate StepRead(s: string, kind: Kind, x: Scan, y: Scan)
    requires x.pos < |s|
  {
    var c, k := s[x.pos], x.phase.Rank();
    || ((c == '+' || c == '-' || c == ' ') && k < 2 && SignedOrFloat(kind)
        && y == Scan(x.pos + 1, x.specs.(sign := SignOf(c)), Signing, x.next))
    || (c == '#' && k < 3 && Arithmetic(kind) && y == Scan(x.pos + 1, x.specs.(alt := true), Hash, x.next))
    || (c == '0' && k < 4 && Arithmetic(kind) && y == Scan(x.pos + 1, ZeroFilled(x.specs), Zero, x.next))
    || (('1' <= c <= '9' || c == '{') && k < 5 && StepWidth(s, x) == Ok(More(y)))
    || (c == '.' && k < 6 && FloatOrString(kind) && StepPrecision(s, kind, x) == Ok(More(y)))
    || (c == 'L' && k < 7 && Arithmetic(kind) && y == Scan(x.pos + 1, x.specs.(localized := true), Locale, x.next))
  }

  /** What a round that is not refused has read, or where it ends the specifier. */
  predicate Says(s: string, kind: Kind, x: Scan, move: Move)
    requires x.pos < |s|
  {
    var c := s[x.pos];
    if move.More? then StepRead(s, kind, x, move.scan)
    else
      (c == '}' && move.scan == x) ||
      (PresentationOf(c, kind).Some? && PresentationOf(c, kind).value.1 &&
       move.scan == x.(pos := x.pos + 1, specs := x.specs.(presentation := PresentationOf(c, kind).value.0)))
  }

  lemma StepSays(s: string, kind: Kind, x: Scan)
    requires x.pos < |s| && x.phase.Rank() >= 1 && Step(s, kind, ToAscii(s[x.pos]), x).Ok?
    ensures Says(s, kind, x, Step(s, kind, ToAscii(s[x.pos]), x).value)
  {
    var c := s[x.pos];
    hide *;
    if ToAscii(c) == c && (c == '+' || c == '-' || c == ' ' || c == '#' || c == '0' || c == 'L') {
      FlagSays(s, kind, x);
    } else if ToAscii(c) == c && ('1' <= c <= '9' || c == '{' || c == '.') {
      AmountSays(s, kind, x);
    } else {
      LetterSays(s, kind, x);
    }
  }

  lemma FlagSays(s: string, kind: Kind, x: Scan)
    requires x.pos < |s| && x.phase.Rank() >= 1 && ToAscii(s[x.pos]) == s[x.pos] && Step(s, kind, s[x.pos], x).Ok?
    requires var c := s[x.pos]; c == '+' || c == '-' || c == ' ' || c == '#' || c == '0' || c == 'L'
    ensures Says(s, kind, x, Step(s, kind, s[x.pos], x).value)
  {
    KindsListed(kind);
    hide PresentationOf, StepFill, StepWidth, StepPrecision, ZeroFilled, SignedOrFloat, Arithmetic, FloatOrString;
  }

  lemma AmountSays(s: string, kind: Kind, x: Scan)
    requires x.pos < |s| && x.phase.Rank() >= 1 && ToAscii(s[x.pos]) == s[x.pos] && Step(s, kind, s[x.pos], x).Ok?
    requires var c := s[x.pos]; '1' <= c <= '9' || c == '{' || c == '.'
    ensures Says(s, kind, x, Step(s, kind, s[x.pos], x).value)
  {
    KindsListed(kind);
    hide PresentationOf, StepFill, ParseDynamicSpec, ParsePrecision, SignedOrFloat, Arithmetic, FloatOrString;
  }

  lemma LetterSays(s: string, kind: Kind, x: Scan)
    requires x.pos < |s| && x.phase.Rank() >= 1 && Step(s, kind, ToAscii(s[x.pos]), x).Ok?
    requires var c := s[x.pos];
             !(ToAscii(c) == c && (c == '+' || c == '-' || c == ' ' || c == '#' || c == '0' || c == 'L'))
    requires var c := s[x.pos]; !(ToAscii(c) == c && ('1' <= c <= '9' || c == '{' || c == '.'))
    ensures Says(s, kind, x, Step(s, kind, ToAscii(s[x.pos]), x).value)
  {
    NoLetter(kind);
    FillRefused(s, x);
    hide PresentationOf, StepFill, StepWidth, StepPrecision, ZeroFilled;
  }

  lemma FillRefused(s: string, x: Scan)
    requires x.pos < |s| && x.phase.Rank() >= 1
    ensures StepFill(s, x).Err?
  {
  }

  lemma KindsListed(kind: Kind)
    ensures SignedOrFloat(kind) == (kind.Signed() || kind.Floating()) && Arithmetic(kind) == kind.Arithmetic()
    ensures FloatOrString(kind) == (kind.Floating() || kind.Text())
  {
  }

  /** Whatever is accepted after the alignment is some source. */
  lemma RoundsRead(s: string, kind: Kind, x: Scan, r: Scan) returns (src: Source)
    requires x.pos < |s| && x.phase.Rank() >= 1 && (x.specs.align.NoAlign? ==> x.specs.fill == " ")
    requires Go(s, kind, x) == Ok(r) && r.pos < |s| && s[r.pos] == '}'
    ensures Accounts(s, kind, x, r, src)
    decreases |s| - x.pos
  {
    StepSays(s, kind, x);
    hide Step, StepRead, Accounts, PresentationOf, LetterText, Presents;
    var move := Step(s, kind, ToAscii(s[x.pos]), x).value;
    if move.Done? {
      src := EndRead(s, kind, x, r);
    } else {
      var y := move.scan;
      assert y.pos < |s| && Go(s, kind, y) == Ok(r);
      StepKeepsFill(s, kind, x, y);
      var rest := RoundsRead(s, kind, y, r);
      src := OneMore(s, kind, x, y, r, rest);
    }
  }

  lemma EndRead(s: string, kind: Kind, x: Scan, r: Scan) returns (src: Source)
    requires x.pos < |s| && x.phase.Rank() >= 1 && Step(s, kind, ToAscii(s[x.pos]), x) == Ok(Done(r))
    ensures Accounts(s, kind, x, r, src)
  {
    StepSays(s, kind, x);
    hide Step, Accounts, StepRead;
    if s[x.pos] == '}' {
      NoLetter(kind);
      hide PresentationOf;
      src := NONE;
      NothingRead(s, kind, x);
    } else {
      var p := PresentationOf(s[x.pos], kind).value.0;
      PresentationIsLetter(s[x.pos], kind);
      hide PresentationOf;
      PlainHasNoLetter();
      LetterRead(s, kind, x, p);
      src := NONE.(presentation := p);
    }
  }

  lemma PlainHasNoLetter()
    ensures LetterText(Plain) == ""
  {
  }

  lemma StepKeepsFill(s: string, kind: Kind, x: Scan, y: Scan)
    requires x.pos < |s| && StepRead(s, kind, x, y) && (x.specs.align.NoAlign? ==> x.specs.fill == " ")
    ensures y.specs.align.NoAlign? ==> y.specs.fill == " "
    ensures x.pos < y.pos && y.phase.Rank() >= 1
  {
    hide ParseDynamicSpec, ParsePrecision;
  }

  /** The part read by one round, before what the later ones read. */
  lemma OneMore(s: string, kind: Kind, x: Scan, y: Scan, r: Scan, rest: Source) returns (src: Source)
    requires x.pos < |s| && x.phase.Rank() >= 1 && (x.specs.align.NoAlign? ==> x.specs.fill == " ")
    requires StepRead(s, kind, x, y) && Accounts(s, kind, y, r, rest) && r.pos < |s| && s[r.pos] == '}'
    ensures Accounts(s, kind, x, r, src)
  {
    hide Accounts, ParseDynamicSpec, ParsePrecision, SignedOrFloat, Arithmetic, FloatOrString;
    var c := s[x.pos];
    if c == '+' || c == '-' || c == ' ' {
      src := rest.(sign := SignOf(c));
      SignRead(s, kind, x, r, rest);
    } else if c == '#' {
      src := rest.(alt := true);
      AltRead(s, kind, x, r, rest);
    } else if c == '0' {
      src := rest.(zero := true);
      ZeroRead(s, kind, x, r, rest);
    } else if c == 'L' {
      src := rest.(localized := true);
      LocaleRead(s, kind, x, r, rest);
    } else if c == '.' {
      src := PointMore(s, kind, x, y, r, rest);
    } else {
      src := WidthMore(s, kind, x, y, r, rest);
    }
  }

  lemma WidthMore(s: string, kind: Kind, x: Scan, y: Scan, r: Scan, rest: Source) returns (src: Source)
    requires x.pos < |s| && 1 <= x.phase.Rank() < 5 && ('1' <= s[x.pos] <= '9' || s[x.pos] == '{')
    requires StepWidth(s, x) == Ok(More(y)) && Accounts(s, kind, y, r, rest)
    ensures Accounts(s, kind, x, r, src)
  {
    var d := Dynamic(x.pos, x.specs.width, x.specs.widthRef, x.next);
    hide Accounts, ParseDynamicSpec, AmountText, Amounted, Referred, WritableAmount;
    var a := AmountRead(s, d);
    WidthRead(s, kind, x, r, a, ParseDynamicSpec(s, d).value, rest);
    src := rest.(width := a);
  }

  lemma PointMore(s: string, kind: Kind, x: Scan, y: Scan, r: Scan, rest: Source) returns (src: Source)
    requires x.pos < |s| && 1 <= x.phase.Rank() < 6 && s[x.pos] == '.' && FloatOrString(kind)
    requires StepPrecision(s, kind, x) == Ok(More(y)) && Accounts(s, kind, y, r, rest)
    requires r.pos < |s| && s[r.pos] == '}'
    ensures Accounts(s, kind, x, r, src)
  {
    var d := Dynamic(x.pos, x.specs.precision, x.specs.precisionRef, x.next);
    hide Accounts, ParsePrecision, AmountText, Amounted, Referred, WritableAmount;
    var a := PointRead(s, x);
    if rest == NONE { NothingMore(s, kind, y, r); }
    PrecisionRead(s, kind, x, r, a, ParsePrecision(s, d).value, rest);
    src := rest.(point := true, precision := a);
  }

  /** An empty source takes no text. */
  lemma NothingMore(s: string, kind: Kind, y: Scan, r: Scan)
    requires Accounts(s, kind, y, r, NONE)
    ensures y.pos == r.pos
  {
    Skips(NONE);
    assert |s[y.pos..r.pos]| == r.pos - y.pos;
  }

  // ----- fill and alignment -----

  /** Before the rounds of a specifier that begins with an alignment, with or without a fill. */
  lemma AlignRead(s: string, p: nat, q: nat, kind: Kind, next: int, fill: Option<Fill>, align: Align, r: Scan,
                  src: Source)
    requires p < q <= |s| && !align.NoAlign? && !align.Numeric? && (fill.Some? ==> WritableFill(fill.value))
    requires s[p..q] == (if fill.Some? then fill.value else "") + AlignText(align)
    requires var specs := DEFAULT_SPECS.(fill := if fill.Some? then fill.value else " ", align := align);
             Accounts(s, kind, Scan(q, specs, Aligning, next), r, src)
    ensures Reads(s, p, kind, next, r, src.(fill := fill, align := align))
  {
    var whole := src.(fill := fill, align := align);
    var y := Scan(q, DEFAULT_SPECS.(fill := if fill.Some? then fill.value else " ", align := align), Aligning, next);
    AccountsSays(s, kind, y, r, src);
    Cut(s, p, q, r.pos);
    OpeningText(src, fill, align);
    SameReferences(src, whole, next);
    var (width, precision, _) := References(src, next).value;
    OpeningMeant(src, fill, align, width, precision);
    OpeningAllowed(src, fill, align, kind);
    hide *;
    ReadsIf(s, p, kind, next, r, whole);
  }

  lemma ReadsIf(s: string, p: nat, kind: Kind, next: int, r: Scan, src: Source)
    requires p <= r.pos <= |s| && Allowed(src, kind) && s[p..r.pos] == Written(src, "")
    requires WritableAmount(src.width) && WritableAmount(src.precision) && References(src, next).Some?
    requires var (width, precision, next') := References(src, next).value;
             r.next == next' && r.specs == Meant(src, width, precision)
    ensures Reads(s, p, kind, next, r, src)
  {
    hide Written, References, Meant;
  }

  lemma OpeningMeant(src: Source, fill: Option<Fill>, align: Align, width: Ref, precision: Ref)
    requires !align.NoAlign? && WritableAmount(src.width) && WritableAmount(src.precision) && After(src, 1)
    requires (src.width.Absent? || src.width.Given? ==> width.NoRef?)
    requires (src.precision.Absent? || src.precision.Given? ==> precision.NoRef?)
    ensures var specs := DEFAULT_SPECS.(fill := if fill.Some? then fill.value else " ", align := align);
            Applied(specs, src, width, precision) == Meant(src.(fill := fill, align := align), width, precision)
  {
    hide Amounted, WritableAmount;
  }

  lemma OpeningAllowed(src: Source, fill: Option<Fill>, align: Align, kind: Kind)
    requires !align.NoAlign? && !align.Numeric? && (fill.Some? ==> WritableFill(fill.value)) && Allowed(src, kind)
    ensures Allowed(src.(fill := fill, align := align), kind)
  {
    hide WritableAmount, Presents, SignedOrFloat, WritableFill;
  }

  lemma OpeningText(src: Source, fill: Option<Fill>, align: Align)
    requires src.fill.None? && src.align.NoAlign?
    ensures Written(src.(fill := fill, align := align), "")
         == ((if fill.Some? then fill.value else "") + AlignText(align)) + Written(src, "")
  {
    var whole := src.(fill := fill, align := align);
    Skips(src);
    LaterParts(src, whole);
    hide SignOn, AlignText;
    var f := if fill.Some? then fill.value else "";
    Grouped(f, AlignText(align), SignOn(src, ""));
  }

  /** The parser has read this source from p on, up to the scan r. */
  ghost predicate Reads(s: string, p: nat, kind: Kind, next: int, r: Scan, src: Source) {
    && p <= r.pos <= |s| && Allowed(src, kind) && s[p..r.pos] == Written(src, "") && References(src, next).Some?
    && var (width, precision, next') := References(src, next).value;
       r.next == next' && r.specs == Meant(src, width, precision)
  }

  /** Without an alignment the rounds read all of the specifier. */
  lemma ReadsAll(s: string, p: nat, kind: Kind, next: int, r: Scan, src: Source)
    requires Accounts(s, kind, Scan(p, DEFAULT_SPECS, Aligning, next), r, src)
    ensures Reads(s, p, kind, next, r, src)
  {
    hide Written, Taken, Amounted, Presents, SignedOrFloat;
  }

  /** The first round of a specifier: an alignment, a fill with one, or what it would be after an alignment. */
  lemma FirstRound(s: string, p: nat, kind: Kind, next: int, r: Scan) returns (src: Source)
    requires p < |s| && r.pos < |s| && s[r.pos] == '}'
    requires Rounds(s, kind, FirstChar(s, p), Scan(p, DEFAULT_SPECS, Start, next)) == Ok(r)
    ensures Reads(s, p, kind, next, r, src)
  {
    hide Rounds, Reads, Accounts, Step, FirstChar, PresentationOf;
    var x, c := Scan(p, DEFAULT_SPECS, Start, next), FirstChar(s, p);
    FirstCharIs(s, p);
    RoundIs(s, kind, c, x);
    if c == '<' || c == '>' || c == '^' {
      src := AlignFirst(s, p, kind, next, r);
    } else if s[p] != '}' && PresentationOf(c, kind).None? && NoPart(c) {
      src := FillFirst(s, p, kind, next, r);
    } else {
      src := PartFirst(s, p, kind, next, r);
    }
  }

  /** Characters that no case of a round but the last is for. */
  predicate NoPart(c: char) {
    c != '<' && c != '>' && c != '^' && c != '+' && c != '-' && c != ' ' && c != '#' && c != '.' && c != 'L' && c != '{'
    && !('0' <= c <= '9')
  }

  lemma FirstCharIs(s: string, p: nat)
    requires p < |s|
    ensures FirstChar(s, p) == s[p] || FirstChar(s, p) == '\0'
    ensures FirstChar(s, p) != '\0' ==> FirstChar(s, p) == ToAscii(s[p])
  {
  }

  lemma RoundIs(s: string, kind: Kind, c: char, x: Scan)
    requires x.pos < |s| && (c == s[x.pos] || c == '\0')
    ensures Rounds(s, kind, c, x) ==
              match Step(s, kind, c, x)
              case Err(m) => Err(m)
              case Ok(Done(y)) => Ok(y)
              case Ok(More(y)) => if y.pos == |s| then Ok(y) else Go(s, kind, y)
  {
    hide Step;
  }

  lemma AlignFirst(s: string, p: nat, kind: Kind, next: int, r: Scan) returns (src: Source)
    requires p < |s| && r.pos < |s| && s[r.pos] == '}' && (s[p] == '<' || s[p] == '>' || s[p] == '^')
    requires Rounds(s, kind, s[p], Scan(p, DEFAULT_SPECS, Start, next)) == Ok(r)
    ensures Reads(s, p, kind, next, r, src)
  {
    var align := ParseAlign(s[p]);
    var x, y := Scan(p, DEFAULT_SPECS, Start, next), Scan(p + 1, DEFAULT_SPECS.(align := align), Aligning, next);
    assert Step(s, kind, s[p], x) == Ok(More(y)) by { hide PresentationOf, StepFill, StepWidth, StepPrecision; }
    RoundIs(s, kind, s[p], x);
    assert s[p..p + 1] == "" + AlignText(align);
    hide Rounds, Reads, Accounts, Step, AlignText;
    var rest := RoundsRead(s, kind, y, r);
    AlignRead(s, p, p + 1, kind, next, None, align, r, rest);
    src := rest.(fill := None, align := align);
  }

  lemma FillFirst(s: string, p: nat, kind: Kind, next: int, r: Scan) returns (src: Source)
    requires p < |s| && r.pos < |s| && s[r.pos] == '}' && s[p] != '}'
    requires PresentationOf(FirstChar(s, p), kind).None? && NoPart(FirstChar(s, p))
    requires Rounds(s, kind, FirstChar(s, p), Scan(p, DEFAULT_SPECS, Start, next)) == Ok(r)
    ensures Reads(s, p, kind, next, r, src)
  {
    var e := p + CodePointLength(s[p]);
    FillIs(s, p, next) by { StepIsFill(s, p, kind, next, r); }
    FillGoes(s, p, kind, next, r);
    var fill, align := s[p..e], ParseAlign(ToAscii(s[e]));
    var y := Scan(e + 1, DEFAULT_SPECS.(fill := fill, align := align), Aligning, next);
    assert y.phase.Rank() == 1;
    hide *;
    var rest := RoundsRead(s, kind, y, r);
    AlignRead(s, p, e + 1, kind, next, Some(fill), align, r, rest);
    src := rest.(fill := Some(fill), align := align);
  }

  lemma StepIsFill(s: string, p: nat, kind: Kind, next: int, r: Scan)
    requires p < |s| && s[p] != '}'
    requires PresentationOf(FirstChar(s, p), kind).None? && NoPart(FirstChar(s, p))
    requires Rounds(s, kind, FirstChar(s, p), Scan(p, DEFAULT_SPECS, Start, next)) == Ok(r)
    ensures StepFill(s, Scan(p, DEFAULT_SPECS, Start, next)).Ok?
    ensures Step(s, kind, FirstChar(s, p), Scan(p, DEFAULT_SPECS, Start, next))
         == StepFill(s, Scan(p, DEFAULT_SPECS, Start, next))
  {
    var x, c := Scan(p, DEFAULT_SPECS, Start, next), FirstChar(s, p);
    assert Step(s, kind, c, x) == StepFill(s, x) by { hide PresentationOf, StepFill, StepWidth, StepPrecision; }
    hide StepFill, PresentationOf, Step;
    RoundIs(s, kind, c, x);
  }

  /** The rounds go on behind the fill and its alignment. */
  lemma FillGoes(s: string, p: nat, kind: Kind, next: int, r: Scan)
    requires p < |s| && s[p] != '}' && r.pos < |s| && s[r.pos] == '}'
    requires PresentationOf(FirstChar(s, p), kind).None? && NoPart(FirstChar(s, p))
    requires Rounds(s, kind, FirstChar(s, p), Scan(p, DEFAULT_SPECS, Start, next)) == Ok(r)
    ensures var e := p + CodePointLength(s[p]);
            && e + 1 < |s|
            && Go(s, kind, Scan(e + 1, DEFAULT_SPECS.(fill := s[p..e], align := ParseAlign(ToAscii(s[e]))), Aligning,
                                next)) == Ok(r)
  {
    StepIsFill(s, p, kind, next, r);
    FillIs(s, p, next);
    RoundIs(s, kind, FirstChar(s, p), Scan(p, DEFAULT_SPECS, Start, next));
    hide *;
  }

  /** A fill that was read is one code point before an alignment. */
  lemma FillIs(s: string, p: nat, next: int)
    requires p < |s| && s[p] != '}' && StepFill(s, Scan(p, DEFAULT_SPECS, Start, next)).Ok?
    ensures var e := p + CodePointLength(s[p]);
            && p < e < |s| && WritableFill(s[p..e])
            && var align := ParseAlign(ToAscii(s[e]));
               && !align.NoAlign? && !align.Numeric? && s[p..e + 1] == s[p..e] + AlignText(align)
               && StepFill(s, Scan(p, DEFAULT_SPECS, Start, next))
                  == Ok(More(Scan(e + 1, DEFAULT_SPECS.(fill := s[p..e], align := align), Aligning, next)))
  {
    var e := p + CodePointLength(s[p]);
    Cut(s, p, e, e + 1);
    assert s[e..e + 1] == [s[e]];
  }

  /** A first round that reads no alignment goes as it would after one. */
  lemma PartFirst(s: string, p: nat, kind: Kind, next: int, r: Scan) returns (src: Source)
    requires p < |s| && r.pos < |s| && s[r.pos] == '}'
    requires var c := FirstChar(s, p);
             s[p] == '}' || PresentationOf(c, kind).Some? || (!NoPart(c) && c != '<' && c != '>' && c != '^')
    requires Rounds(s, kind, FirstChar(s, p), Scan(p, DEFAULT_SPECS, Start, next)) == Ok(r)
    ensures Reads(s, p, kind, next, r, src)
  {
    var x, c := Scan(p, DEFAULT_SPECS, Start, next), FirstChar(s, p);
    var x', r' := Scan(p, DEFAULT_SPECS, Aligning, next), Scan(r.pos, r.specs, r.phase, r.next);
    FirstCharIs(s, p);
    RoundIs(s, kind, c, x);
    RoundIs(s, kind, ToAscii(s[p]), x');
    SameAfterAlign(s, kind, c, x);
    hide Rounds, Reads, Accounts, Step, PresentationOf;
    if Step(s, kind, c, x).value.Done? { r' := r.(phase := Aligning); }
    src := RoundsRead(s, kind, x', r');
    ReadsAll(s, p, kind, next, r', src);
    PhaseAside(s, p, kind, next, r', r, src);
  }

  lemma PhaseAside(s: string, p: nat, kind: Kind, next: int, r: Scan, r': Scan, src: Source)
    requires Reads(s, p, kind, next, r, src) && r' == r.(phase := r'.phase)
    ensures Reads(s, p, kind, next, r', src)
  {
  }

  lemma LetterIs(c: char, kind: Kind)
    requires PresentationOf(c, kind).Some?
    ensures ('a' <= c <= 'z' || 'A' <= c <= 'Z' || c == '?') && c != 'L'
  {
    PresentationIsLetter(c, kind);
    var p := PresentationOf(c, kind).value.0;
    PlainHasNoLetter();
    hide PresentationOf, Presents;
    LetterFits(p, kind);
    assert LetterText(p)[0] == c;
  }

  /** The scan before it has entered a phase, and as if it had passed the alignment. */
  predicate SameRound(s: string, kind: Kind, c: char, x: Scan)
    requires x.pos < |s| && (c == s[x.pos] || c == '\0')
  {
    var move := Step(s, kind, c, x);
    move.Ok? ==>
      Step(s, kind, ToAscii(s[x.pos]), x.(phase := Aligning))
      == if move.value.More? then move else Ok(Done(move.value.scan.(phase := Aligning)))
  }

  lemma SameAfterAlign(s: string, kind: Kind, c: char, x: Scan)
    requires x.pos < |s| && (c == s[x.pos] || c == '\0') && x.phase.Start?
    requires c != '\0' ==> c == ToAscii(s[x.pos])
    requires s[x.pos] == '}' || PresentationOf(c, kind).Some? || (!NoPart(c) && c != '<' && c != '>' && c != '^')
    ensures SameRound(s, kind, c, x)
  {
    NoLetter(kind);
    hide PresentationOf, Step, SameRound;
    if s[x.pos] == '}' {
      SameBrace(s, kind, c, x);
    } else if PresentationOf(c, kind).Some? {
      LetterIs(c, kind);
      SameLetter(s, kind, c, x);
    } else if c == '{' || '1' <= c <= '9' {
      SameWidth(s, kind, c, x);
    } else if c == '.' {
      SamePrecision(s, kind, x);
    } else {
      SameFlag(s, kind, c, x);
    }
  }

  lemma SameBrace(s: string, kind: Kind, c: char, x: Scan)
    requires x.pos < |s| && (c == s[x.pos] || c == '\0') && s[x.pos] == '}'
    ensures SameRound(s, kind, c, x)
  {
    NoLetter(kind);
    hide PresentationOf, StepFill, StepWidth, StepPrecision, Enters;
  }

  lemma SameLetter(s: string, kind: Kind, c: char, x: Scan)
    requires x.pos < |s| && c == s[x.pos] == ToAscii(c) && PresentationOf(c, kind).Some?
    requires ('a' <= c <= 'z' || 'A' <= c <= 'Z' || c == '?') && c != 'L'
    ensures SameRound(s, kind, c, x)
  {
    hide PresentationOf, StepFill, StepWidth, StepPrecision, Enters;
  }

  lemma SameWidth(s: string, kind: Kind, c: char, x: Scan)
    requires x.pos < |s| && c == s[x.pos] == ToAscii(c) && x.phase.Start? && (c == '{' || '1' <= c <= '9')
    ensures SameRound(s, kind, c, x)
  {
    assert StepWidth(s, x) == StepWidth(s, x.(phase := Aligning)) by { hide ParseDynamicSpec; }
    hide PresentationOf, StepFill, StepWidth, StepPrecision, Enters;
  }

  lemma SamePrecision(s: string, kind: Kind, x: Scan)
    requires x.pos < |s| && s[x.pos] == '.' && x.phase.Start?
    ensures SameRound(s, kind, '.', x)
  {
    assert StepPrecision(s, kind, x) == StepPrecision(s, kind, x.(phase := Aligning)) by { hide ParsePrecision; }
    hide PresentationOf, StepFill, StepWidth, StepPrecision, Enters;
  }

  lemma SameFlag(s: string, kind: Kind, c: char, x: Scan)
    requires x.pos < |s| && c == s[x.pos] == ToAscii(c) && x.phase.Start?
    requires c == '+' || c == '-' || c == ' ' || c == '#' || c == '0' || c == 'L'
    ensures SameRound(s, kind, c, x)
  {
    hide PresentationOf, StepFill, StepWidth, StepPrecision, ZeroFilled;
  }

  // ----- the result -----

  /** Whatever specifier is accepted before a closing brace is one written in the order of the grammar. */
  lemma AcceptedIsWritten(s: string, p: nat, kind: Kind, next: int) returns (src: Source)
    requires p <= |s| && ParseSpecs(s, p, kind, next).Ok?
    requires var r := ParseSpecs(s, p, kind, next).value; r.pos < |s| && s[r.pos] == '}'
    ensures Reads(s, p, kind, next, ParseSpecs(s, p, kind, next).value, src)
  {
    hide Rounds, FirstChar, Reads;
    src := FirstRound(s, p, kind, next, ParseSpecs(s, p, kind, next).value);
  }

  /** A source written from p up to a closing brace, with the references it takes. */
  ghost predicate WrittenAs(s: string, p: nat, q: nat, kind: Kind, next: int, src: Source)
    requires p <= q <= |s|
  {
    && WritableAmount(src.width) && WritableAmount(src.precision) && Allowed(src, kind)
    && s[p..q] == Written(src, "") && References(src, next).Some?
  }

  /**
   * The grammar: up to a closing brace the parser accepts exactly what is a source written out, and then the
   * specifiers and the counter are what it means.
   */
  lemma SpecifierExactly(s: string, p: nat, q: nat, kind: Kind, next: int)
    requires p <= q < |s| && s[q] == '}'
    ensures ParseSpecs(s, p, kind, next).Ok? && ParseSpecs(s, p, kind, next).value.pos == q
       <==> exists src :: WrittenAs(s, p, q, kind, next, src)
    ensures forall src :: WrittenAs(s, p, q, kind, next, src) ==>
              var (width, precision, next') := References(src, next).value;
              var r := ParseSpecs(s, p, kind, next);
              r.Ok? && r.value.specs == Meant(src, width, precision) && r.value.next == next'
  {
    hide ParseSpecs, Written, Allowed, References, Meant;
    forall src | WrittenAs(s, p, q, kind, next, src)
      ensures ParseSpecs(s, p, kind, next).Ok? && ParseSpecs(s, p, kind, next).value.pos == q
      ensures var (width, precision, next') := References(src, next).value;
              var r := ParseSpecs(s, p, kind, next).value;
              r.specs == Meant(src, width, precision) && r.next == next'
    {
      WrittenBefore(src, s[q..]);
      Cut(s, p, q, |s|);
      SpecifierReadBack(s, p, kind, src, next, s[q..]);
      SameEnd(s, ParseSpecs(s, p, kind, next).value.pos, q);
    }
    if ParseSpecs(s, p, kind, next).Ok? && ParseSpecs(s, p, kind, next).value.pos == q {
      var src := AcceptedIsWritten(s, p, kind, next);
      AllowedPoint(src, kind);
      assert WrittenAs(s, p, q, kind, next, src);
    }
  }

  lemma SameEnd(s: string, a: nat, b: nat)
    requires a <= |s| && b <= |s| && s[a..] == s[b..]
    ensures a == b
  {
    assert |s[a..]| == |s| - a && |s[b..]| == |s| - b;
  }

  lemma WrittenBefore(src: Source, rest: string)
    ensures Written(src, "") + rest == Written(src, rest)
  {
    hide *;
    Ons(src, "");
    Ons(src, rest);
    var f := if src.fill.Some? then src.fill.value else "";
    assert LetterText(src.presentation) + "" == LetterText(src.presentation);
    Grouped(if src.localized then "L" else "", LetterOn(src, ""), rest);
    Grouped(AmountText(src.precision), LocaleOn(src, ""), rest);
    Grouped(if src.point then "." else "", AmountText(src.precision) + LocaleOn(src, ""), rest);
    Grouped(AmountText(src.width), PrecisionOn(src, ""), rest);
    Grouped(if src.zero then "0" else "", WidthOn(src, ""), rest);
    Grouped(if src.alt then "#" else "", ZeroOn(src, ""), rest);
    Grouped(SignText(src.sign), AltOn(src, ""), rest);
    Grouped(AlignText(src.align), SignOn(src, ""), rest);
    Grouped(f, AlignText(src.align) + SignOn(src, ""), rest);
  }

  lemma Ons(src: Source, rest: string)
    ensures Written(src, rest) ==
              (if src.fill.Some? then src.fill.value else "") + (AlignText(src.align) + SignOn(src, rest))
    ensures SignOn(src, rest) == SignText(src.sign) + AltOn(src, rest)
    ensures AltOn(src, rest) == (if src.alt then "#" else "") + ZeroOn(src, rest)
    ensures ZeroOn(src, rest) == (if src.zero then "0" else "") + WidthOn(src, rest)
    ensures WidthOn(src, rest) == AmountText(src.width) + PrecisionOn(src, rest)
    ensures PrecisionOn(src, rest) ==
              (if src.point then "." else "") + (AmountText(src.precision) + LocaleOn(src, rest))
    ensures LocaleOn(src, rest) == (if src.localized then "L" else "") + LetterOn(src, rest)
    ensures LetterOn(src, rest) == LetterText(src.presentation) + rest
  {
  }
}
