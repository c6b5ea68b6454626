/**
 * The specifier grammar from the writer's side: the parts of a specifier, how they are written in the order
 * the grammar fixes, and what they mean. What is written is what the parser reads back.
 */
module SpecGrammar {
  import opened Outcomes
  import opened FormatSyntax
  import opened DecimalDigits
  import opened Powers
  import opened Slices
  import FloatLayout

  // ----- specifiers as they are written -----

  /** An argument id as it is written: nothing, digits or a name. */
  datatype Id = NoId | Digits(digits: string) | Named(name: string)

  /** A width or a precision: none, digits, or a reference to an argument. */
  datatype Amount = Absent | Given(digits: string) | From(id: Id)

  /** The parts of a specifier in their order; a fill comes with an alignment, a precision after a point. */
  datatype Source = Source(
    fill: Option<Fill>, align: Align, sign: Sign, alt: bool, zero: bool, width: Amount, point: bool, precision: Amount,
    localized: bool, presentation: Presentation)

  predicate DigitString(d: string) { d != "" && FloatLayout.Digits(d) }

  predicate Alphabetic(c: char) { 'a' <= c <= 'z' || 'A' <= c <= 'Z' || c == '_' }

  predicate Identifier(name: string) {
    |name| > 0 && Alphabetic(name[0]) && forall i :: 0 < i < |name| ==> Alphabetic(name[i]) || '0' <= name[i] <= '9'
  }

  predicate WritableId(id: Id) {
    match id
    case NoId => true
    case Digits(d) => DigitString(d) && (d[0] == '0' ==> d == "0")
    case Named(name) => Identifier(name)
  }

  /** The number that digits are read as: too many or too large ones stand for another value. */
  function Spelled(d: string, tooLarge: int): int
    requires DigitString(d)
  {
    if |d| <= 10 && FloatLayout.NumberOf(d) <= 2147483647 then FloatLayout.NumberOf(d) else tooLarge
  }

  predicate WritableAmount(a: Amount) {
    match a
    case Absent => true
    case Given(d) => DigitString(d) && |d| <= 10 && FloatLayout.NumberOf(d) <= 2147483647
    case From(id) => WritableId(id)
  }

  /** One code point that is no brace. */
  predicate WritableFill(f: Fill) { f[0] != '{' && f[0] != '}' && |f| == CodePointLength(f[0]) }

  // The kinds of argument, listed for each use.

  predicate SignedOrFloat(kind: Kind) {
    match kind
    case IntKind | LongLongKind | Int128Kind | FloatKind | DoubleKind | LongDoubleKind => true
    case _ => false
  }

  predicate Arithmetic(kind: Kind) {
    match kind
    case CstringKind | StringKind | PointerKind => false
    case _ => true
  }

  predicate FloatOrString(kind: Kind) {
    match kind
    case FloatKind | DoubleKind | LongDoubleKind | StringKind | CstringKind => true
    case _ => false
  }

  /** The letter of a presentation type. */
  function LetterText(p: Presentation): string {
    match p
    case Plain => ""
    case Dec => "d"
    case Oct => "o"
    case HexLower => "x"
    case HexUpper => "X"
    case BinLower => "b"
    case BinUpper => "B"
    case HexfloatLower => "a"
    case HexfloatUpper => "A"
    case ExpLower => "e"
    case ExpUpper => "E"
    case FixedLower => "f"
    case FixedUpper => "F"
    case GeneralLower => "g"
    case GeneralUpper => "G"
    case Chr => "c"
    case Str => "s"
    case Ptr => "p"
    case Debug => "?"
  }

  /** The kinds of argument a presentation type is for. */
  predicate Presents(p: Presentation, kind: Kind) {
    match p
    case Plain => true
    case Dec | Oct | HexLower | HexUpper | BinLower | BinUpper | Chr =>
      (match kind
       case IntKind | UintKind | LongLongKind | UlongLongKind | Int128Kind | Uint128Kind | BoolKind | CharKind => true
       case _ => false)
    case Str => kind.BoolKind? || kind.StringKind? || kind.CstringKind?
    case Ptr => kind.PointerKind? || kind.CstringKind?
    case Debug => kind.CharKind? || kind.StringKind? || kind.CstringKind?
    case _ => kind.FloatKind? || kind.DoubleKind? || kind.LongDoubleKind?
  }

  /** What the grammar allows for an argument of this kind. */
  predicate Allowed(src: Source, kind: Kind) {
    && (src.fill.Some? ==> WritableFill(src.fill.value) && !src.align.NoAlign?)
    && !src.align.Numeric?
    && (!src.sign.NoSign? ==> SignedOrFloat(kind))
    && (src.alt || src.zero || src.localized ==> Arithmetic(kind))
    && WritableAmount(src.width) && (src.width.Given? ==> src.width.digits[0] != '0')
    && WritableAmount(src.precision) && (src.point ==> FloatOrString(kind))
    && (!src.point ==> src.precision.Absent?)
    && (src.point && src.precision.Absent? ==> src.localized || !src.presentation.Plain?)
    && Presents(src.presentation, kind)
  }

  function AlignText(a: Align): string {
    match a
    case Left => "<"
    case Right => ">"
    case Center => "^"
    case _ => ""
  }

  function IdText(id: Id): string {
    match id
    case NoId => ""
    case Digits(d) => d
    case Named(name) => name
  }

  function AmountText(a: Amount): string {
    match a
    case Absent => ""
    case Given(d) => d
    case From(id) => "{" + (IdText(id) + "}")
  }

  // The specifier from each part on, and what follows it.

  function LetterOn(src: Source, rest: string): string { LetterText(src.presentation) + rest }

  function LocaleOn(src: Source, rest: string): string { (if src.localized then "L" else "") + LetterOn(src, rest) }

  function PrecisionOn(src: Source, rest: string): string {
    (if src.point then "." else "") + (AmountText(src.precision) + LocaleOn(src, rest))
  }

  function WidthOn(src: Source, rest: string): string { AmountText(src.width) + PrecisionOn(src, rest) }

  function ZeroOn(src: Source, rest: string): string { (if src.zero then "0" else "") + WidthOn(src, rest) }

  function AltOn(src: Source, rest: string): string { (if src.alt then "#" else "") + ZeroOn(src, rest) }

  function SignOn(src: Source, rest: string): string { SignText(src.sign) + AltOn(src, rest) }

  /** The whole specifier, a fill first. */
  function Written(src: Source, rest: string): string {
    (if src.fill.Some? then src.fill.value else "") + (AlignText(src.align) + SignOn(src, rest))
  }

  // ----- what it says -----

  function Amounted(a: Amount, none: int): int
    requires WritableAmount(a)
  {
    if a.Given? then FloatLayout.NumberOf(a.digits) else none
  }

  /** The argument an id stands for, and the counter after it: automatic ids and numbers exclude each other. */
  function Taken(id: Id, next: int): Option<(Ref, int)>
    requires WritableId(id)
  {
    match id
    case NoId => if next >= 0 then Some((ByIndex(next), next + 1)) else None
    case Digits(d) => if next <= 0 then Some((ByIndex(Spelled(d, INT_MAX)), -1)) else None
    case Named(name) => Some((ByName(name), next))
  }

  /** The reference of an amount, and the counter after it. */
  function Referred(a: Amount, next: int): Option<(Ref, int)>
    requires WritableAmount(a)
  {
    if a.From? then Taken(a.id, next) else Some((NoRef, next))
  }

  /** The references of width and precision, and the counter after both. */
  function References(src: Source, next: int): Option<(Ref, Ref, int)>
    requires WritableAmount(src.width) && WritableAmount(src.precision)
  {
    match Referred(src.width, next)
    case None => None
    case Some((width, next1)) =>
      match Referred(src.precision, next1)
      case None => None
      case Some((precision, next2)) => Some((width, precision, next2))
  }

  /** The specifiers meant, for the references of width and precision. */
  function Meant(src: Source, width: Ref, precision: Ref): Specs
    requires WritableAmount(src.width) && WritableAmount(src.precision)
  {
    var padded := src.zero && src.align.NoAlign?;
    Specs(
      Amounted(src.width, 0), Amounted(src.precision, -1), src.presentation,
      if padded then Numeric else src.align, src.sign, src.alt, src.localized,
      if src.fill.Some? then src.fill.value else if padded then "0" else " ",
      width, precision)
  }

  // ----- numbers and names -----

  /** Every number is spelled by its decimal digits. */
  lemma {:induction false} DecimalSpells(n: nat)
    ensures DigitString(Decimal(n)) && FloatLayout.NumberOf(Decimal(n)) == n && (n > 0 ==> Decimal(n)[0] != '0')
  {
    if n >= 10 {
      DecimalSpells(n / 10);
      assert Decimal(n)[..|Decimal(n)| - 1] == Decimal(n / 10);
    } else {
      assert Decimal(n)[..0] == "";
    }
  }

  lemma {:induction false} NumberIsSpelled(s: string, a: nat, b: nat)
    requires a <= b <= |s| && forall i :: a <= i < b ==> IsDigit(s[i])
    ensures FloatLayout.Digits(s[a..b]) && Number(s, a, b) == FloatLayout.NumberOf(s[a..b])
  {
    if a < b {
      NumberIsSpelled(s, a, b - 1);
      assert s[a..b][..b - 1 - a] == s[a..b - 1];
    }
  }

  /** Digits followed by something else are read as what they spell. */
  lemma ReadsNumber(s: string, p: nat, d: string, rest: string, errorValue: int)
    requires p <= |s| && DigitString(d) && s[p..] == d + rest && (rest == "" || !IsDigit(rest[0]))
    ensures ParseInt(s, p, errorValue) == (p + |d|, Spelled(d, errorValue))
    ensures s[p] == d[0] && IsDigit(s[p])
  {
    var e := p + |d|;
    Begins(s, p, d, rest);
    assert forall i :: p <= i < e ==> s[i] == d[i - p];
    NumberIsSpelled(s, p, e);
    FloatLayout.DigitsEndAt(s, p, e);
  }

  lemma {:induction false} NameEndAt(s: string, a: nat, e: nat)
    requires a <= e <= |s| && forall i :: a <= i < e ==> IsNameStart(s[i]) || IsDigit(s[i])
    requires e < |s| ==> !IsNameStart(s[e]) && !IsDigit(s[e])
    ensures NameEnd(s, a) == e
    decreases e - a
  {
    if a < e { NameEndAt(s, a + 1, e); }
  }

  /** What an id is read as. */
  function IdRead(id: Id): ArgId
    requires WritableId(id)
  {
    match id
    case NoId => Auto
    case Digits(d) => Index(Spelled(d, INT_MAX))
    case Named(name) => Name(name)
  }

  /** An argument id before its closing brace or a colon. */
  lemma ReadsId(s: string, p: nat, id: Id, rest: string)
    requires p <= |s| && WritableId(id) && s[p..] == IdText(id) + rest
    requires rest != "" && (rest[0] == '}' || rest[0] == ':')
    ensures p < |s| && ParseArgId(s, p) == Ok((p + |IdText(id)|, IdRead(id)))
    ensures p + |IdText(id)| < |s| && s[p + |IdText(id)|] == rest[0]
  {
    Begins(s, p, IdText(id), rest);
    match id
    case NoId =>
    case Digits(d) =>
      ReadsNumber(s, p, d, rest, INT_MAX);
      ZeroSpells(d);
      hide Number, DigitsEnd, ParseInt, Spelled;
    case Named(name) =>
      NameEndAt(s, p + 1, p + |name|);
  }

  lemma ZeroSpells(d: string)
    requires DigitString(d)
    ensures d == "0" ==> Spelled(d, INT_MAX) == 0
  {
    if d == "0" {
      FloatLayout.OneDigitSpells(d);
      assert FloatLayout.NumberOf(d) == 0;
    }
  }

  lemma TakenIsTaken(id: Id, next: int)
    requires WritableId(id)
    ensures Taken(id, next).Some? <==> TakeId(IdRead(id), next).Ok?
    ensures Taken(id, next).Some? ==> Taken(id, next).value == TakeId(IdRead(id), next).value
  {
    hide Spelled;
  }

  /** A reference in braces. */
  lemma ReadsReference(s: string, d: Dynamic, id: Id, rest: string)
    requires d.pos <= |s| && WritableId(id) && s[d.pos..] == "{" + (IdText(id) + ("}" + rest))
    requires Taken(id, d.next).Some?
    ensures d.pos < |s| && s[d.pos] == '{'
    ensures ParseDynamicSpec(s, d) ==
              Ok(Dynamic(d.pos + |IdText(id)| + 2, d.value, Taken(id, d.next).value.0, Taken(id, d.next).value.1))
  {
    hide *;
    AfterBrace(s, d.pos, IdText(id) + ("}" + rest));
    ReadsId(s, d.pos + 1, id, "}" + rest);
    TakenIsTaken(id, d.next);
    ReferenceParsed(s, d, IdRead(id), d.pos + 1 + |IdText(id)|);
  }

  lemma AfterBrace(s: string, p: nat, rest: string)
    requires p <= |s| && s[p..] == "{" + rest
    ensures p < |s| && s[p] == '{' && s[p + 1..] == rest
  {
    Begins(s, p, "{", rest);
  }

  lemma ReferenceText(id: Id, rest: string)
    requires WritableId(id)
    ensures WritableAmount(From(id)) && |AmountText(From(id))| == |IdText(id)| + 2
    ensures AmountText(From(id)) + rest == "{" + (IdText(id) + ("}" + rest))
  {
    hide IdText, WritableId;
  }

  lemma ReferenceParsed(s: string, d: Dynamic, id: ArgId, e: nat)
    requires d.pos + 1 < |s| && s[d.pos] == '{' && ParseArgId(s, d.pos + 1) == Ok((e, id))
    requires e < |s| && s[e] == '}' && TakeId(id, d.next).Ok?
    ensures ParseDynamicSpec(s, d)
         == Ok(Dynamic(e + 1, d.value, TakeId(id, d.next).value.0, TakeId(id, d.next).value.1))
  {
    hide ParseArgId, TakeId, ParseInt;
  }

  lemma ReadsGiven(s: string, d: Dynamic, digits: string, rest: string)
    requires d.pos <= |s| && WritableAmount(Given(digits)) && s[d.pos..] == AmountText(Given(digits)) + rest
    requires rest != "" && !IsDigit(rest[0])
    ensures d.pos < |s| && IsDigit(s[d.pos]) && s[d.pos] == digits[0]
    ensures ParseDynamicSpec(s, d)
         == Ok(d.(pos := d.pos + |AmountText(Given(digits))|, value := Amounted(Given(digits), d.value)))
  {
    GivenSpelled(digits);
    hide *;
    ReadsNumber(s, d.pos, digits, rest, -1);
    GivenParsed(s, d, d.pos + |digits|, Spelled(digits, -1));
  }

  lemma GivenSpelled(digits: string)
    requires WritableAmount(Given(digits))
    ensures DigitString(digits) && digits != "" && AmountText(Given(digits)) == digits && Spelled(digits, -1) >= 0
    ensures forall none :: Amounted(Given(digits), none) == Spelled(digits, -1)
  {
    hide FloatLayout.NumberOf;
  }

  lemma GivenParsed(s: string, d: Dynamic, p: nat, v: int)
    requires d.pos < |s| && IsDigit(s[d.pos]) && ParseInt(s, d.pos, -1) == (p, v) && v >= 0
    ensures ParseDynamicSpec(s, d) == Ok(d.(pos := p, value := v))
  {
    hide ParseInt;
  }

  /** A width or precision: its value or its reference, and the counter. */
  lemma ReadsAmount(s: string, d: Dynamic, a: Amount, rest: string)
    requires d.pos <= |s| && WritableAmount(a) && !a.Absent? && s[d.pos..] == AmountText(a) + rest
    requires rest != "" && !IsDigit(rest[0]) && d.ref.NoRef? && Referred(a, d.next).Some?
    ensures d.pos < |s| && (if a.Given? then IsDigit(s[d.pos]) && s[d.pos] == a.digits[0] else s[d.pos] == '{')
    ensures d.pos + |AmountText(a)| < |s|
    ensures ParseDynamicSpec(s, d) ==
              Ok(Dynamic(d.pos + |AmountText(a)|, Amounted(a, d.value), Referred(a, d.next).value.0,
                         Referred(a, d.next).value.1))
  {
    hide ParseDynamicSpec, AmountText, IdText, Taken, Spelled, FloatLayout.NumberOf;
    Begins(s, d.pos, AmountText(a), rest);
    match a
    case Given(digits) => ReadsGiven(s, d, digits, rest);
    case From(id) =>
      ReferenceText(id, rest);
      ReadsReference(s, d, id, rest);
  }

  // ----- one part after the other -----

  /** The rounds from a scan on, nothing masked. */
  function Go(s: string, kind: Kind, x: Scan): Result<Scan>
    requires x.pos < |s|
  {
    Rounds(s, kind, ToAscii(s[x.pos]), x)
  }

  lemma GoStep(s: string, kind: Kind, x: Scan, y: Scan)
    requires x.pos < |s| && y.pos < |s| && Step(s, kind, ToAscii(s[x.pos]), x) == Ok(More(y))
    ensures Go(s, kind, x) == Go(s, kind, y)
  {
    hide Step;
  }

  /** No part from this rank on has been read. */
  predicate Before(x: Scan, rank: nat) {
    && x.phase.Rank() < rank && x.specs.presentation.Plain?
    && (rank <= 2 ==> x.specs.sign.NoSign?)
    && (rank <= 3 ==> !x.specs.alt)
    && (rank <= 5 ==> x.specs.width == 0 && x.specs.widthRef.NoRef?)
    && (rank <= 6 ==> x.specs.precision == -1 && x.specs.precisionRef.NoRef?)
    && (rank <= 7 ==> !x.specs.localized)
  }

  // The scan after each part: the part is in the specifiers, the later ones are still to come.

  function AfterSign(x: Scan, sign: Sign): (y: Scan)
    requires Before(x, 2)
    ensures Before(y, 3) && y.specs == x.specs.(sign := sign) && y.next == x.next
  {
    if sign.NoSign? then x else Scan(x.pos + 1, x.specs.(sign := sign), Signing, x.next)
  }

  function AfterAlt(x: Scan, alt: bool): (y: Scan)
    requires Before(x, 3)
    ensures Before(y, 4) && y.specs == x.specs.(alt := alt) && y.next == x.next
  {
    if !alt then x else Scan(x.pos + 1, x.specs.(alt := true), Hash, x.next)
  }

  function AfterZero(x: Scan, zero: bool): (y: Scan)
    requires Before(x, 4)
    ensures Before(y, 5) && y.specs == (if zero then ZeroFilled(x.specs) else x.specs) && y.next == x.next
  {
    if !zero then x else Scan(x.pos + 1, ZeroFilled(x.specs), Zero, x.next)
  }

  function AfterWidth(x: Scan, a: Amount): (y: Scan)
    requires Before(x, 5) && WritableAmount(a) && Referred(a, x.next).Some?
    ensures Before(y, 6) && y.next == Referred(a, x.next).value.1
    ensures y.specs == x.specs.(width := Amounted(a, 0), widthRef := Referred(a, x.next).value.0)
  {
    var (ref, next) := Referred(a, x.next).value;
    if a.Absent? then x
    else Scan(x.pos + |AmountText(a)|, x.specs.(width := Amounted(a, 0), widthRef := ref), Width, next)
  }

  function AfterPrecision(x: Scan, point: bool, a: Amount): (y: Scan)
    requires Before(x, 6) && WritableAmount(a) && Referred(a, x.next).Some? && (!point ==> a.Absent?)
    ensures Before(y, 7) && y.next == Referred(a, x.next).value.1
    ensures y.specs == x.specs.(precision := Amounted(a, -1), precisionRef := Referred(a, x.next).value.0)
  {
    var (ref, next) := Referred(a, x.next).value;
    if !point then x
    else Scan(x.pos + 1 + |AmountText(a)|, x.specs.(precision := Amounted(a, -1), precisionRef := ref), Precision, next)
  }

  function AfterLocale(x: Scan, localized: bool): (y: Scan)
    requires Before(x, 7)
    ensures Before(y, 8) && y.specs == x.specs.(localized := localized) && y.next == x.next
  {
    if !localized then x else Scan(x.pos + 1, x.specs.(localized := true), Locale, x.next)
  }

  function AfterLetter(x: Scan, p: Presentation): (y: Scan)
    requires x.specs.presentation.Plain?
    ensures y.specs == x.specs.(presentation := p) && y.next == x.next
  {
    if p.Plain? then x else x.(pos := x.pos + 1, specs := x.specs.(presentation := p))
  }

  /** From x the parser goes on as from y, where this text is left. */
  predicate Leads(s: string, kind: Kind, x: Scan, y: Scan, rest: string) {
    x.pos < |s| && y.pos < |s| && s[y.pos..] == rest && Go(s, kind, x) == Go(s, kind, y)
  }

  lemma LeadsOn(s: string, kind: Kind, x: Scan, y: Scan, z: Scan, text: string, rest: string)
    requires Leads(s, kind, x, y, text) && Leads(s, kind, y, z, rest)
    ensures Leads(s, kind, x, z, rest)
  {
    hide Go;
  }

  lemma LeadsTo(s: string, kind: Kind, x: Scan, y: Scan, rest: string)
    requires Leads(s, kind, x, y, rest)
    ensures x.pos < |s| && y.pos < |s| && s[y.pos..] == rest && Go(s, kind, x) == Go(s, kind, y)
  {
    hide Go;
  }

  lemma SignPart(s: string, kind: Kind, x: Scan, sign: Sign, rest: string)
    requires x.pos <= |s| && s[x.pos..] == SignText(sign) + rest && rest != ""
    requires Before(x, 2) && (sign.NoSign? || SignedOrFloat(kind))
    ensures Leads(s, kind, x, AfterSign(x, sign), rest)
  {
    Begins(s, x.pos, SignText(sign), rest);
    if !sign.NoSign? { GoStep(s, kind, x, AfterSign(x, sign)); }
  }

  lemma AltPart(s: string, kind: Kind, x: Scan, alt: bool, rest: string)
    requires x.pos <= |s| && s[x.pos..] == (if alt then "#" else "") + rest && rest != ""
    requires Before(x, 3) && (alt ==> Arithmetic(kind))
    ensures Leads(s, kind, x, AfterAlt(x, alt), rest)
  {
    Begins(s, x.pos, if alt then "#" else "", rest);
    if alt { GoStep(s, kind, x, AfterAlt(x, alt)); }
  }

  lemma ZeroPart(s: string, kind: Kind, x: Scan, zero: bool, rest: string)
    requires x.pos <= |s| && s[x.pos..] == (if zero then "0" else "") + rest && rest != ""
    requires Before(x, 4) && (zero ==> Arithmetic(kind))
    ensures Leads(s, kind, x, AfterZero(x, zero), rest)
  {
    Begins(s, x.pos, if zero then "0" else "", rest);
    if zero { GoStep(s, kind, x, AfterZero(x, zero)); }
  }

  lemma WidthPart(s: string, kind: Kind, x: Scan, a: Amount, rest: string)
    requires x.pos <= |s| && WritableAmount(a) && (a.Given? ==> a.digits[0] != '0')
    requires s[x.pos..] == AmountText(a) + rest
    requires rest != "" && !IsDigit(rest[0]) && Before(x, 5) && Referred(a, x.next).Some?
    ensures Leads(s, kind, x, AfterWidth(x, a), rest)
  {
    if a.Absent? {
      Begins(s, x.pos, "", rest);
    } else {
      hide *;
      WidthGiven(s, kind, x, a, rest);
    }
  }

  lemma WidthGiven(s: string, kind: Kind, x: Scan, a: Amount, rest: string)
    requires x.pos <= |s| && WritableAmount(a) && !a.Absent? && s[x.pos..] == AmountText(a) + rest
    requires a.Given? ==> a.digits[0] != '0'
    requires rest != "" && !IsDigit(rest[0]) && Before(x, 5) && Referred(a, x.next).Some?
    ensures Leads(s, kind, x, AfterWidth(x, a), rest)
  {
    hide AmountText, Referred, Amounted, Step, IsDigit, Go, WritableAmount;
    Begins(s, x.pos, AmountText(a), rest);
    ReadsAmount(s, Dynamic(x.pos, 0, NoRef, x.next), a, rest);
    var (ref, next) := Referred(a, x.next).value;
    StepAtWidth(s, kind, x, Dynamic(x.pos + |AmountText(a)|, Amounted(a, 0), ref, next));
    GoStep(s, kind, x, AfterWidth(x, a));
  }

  lemma StepAtWidth(s: string, kind: Kind, x: Scan, d: Dynamic)
    requires x.pos < |s| && (s[x.pos] == '{' || (IsDigit(s[x.pos]) && s[x.pos] != '0')) && d.pos <= |s|
    requires x.phase.Rank() < 5
    requires ParseDynamicSpec(s, Dynamic(x.pos, x.specs.width, x.specs.widthRef, x.next)) == Ok(d)
    ensures Step(s, kind, ToAscii(s[x.pos]), x) ==
              Ok(More(Scan(d.pos, x.specs.(width := d.value, widthRef := d.ref), Width, d.next)))
  {
    hide ParseDynamicSpec, PresentationOf, StepFill, StepPrecision;
  }

  lemma PrecisionPart(s: string, kind: Kind, x: Scan, point: bool, a: Amount, rest: string)
    requires x.pos <= |s| && WritableAmount(a) && s[x.pos..] == (if point then "." else "") + (AmountText(a) + rest)
    requires rest != "" && !IsDigit(rest[0]) && (point ==> FloatOrString(kind)) && (!point ==> a.Absent?)
    requires point && a.Absent? ==> rest[0] != '}' && rest[0] != '{'
    requires Before(x, 6) && Referred(a, x.next).Some?
    ensures Leads(s, kind, x, AfterPrecision(x, point, a), rest)
  {
    if !point {
      assert AmountText(a) + rest == rest && s[x.pos..] == rest;
      Begins(s, x.pos, "", rest);
    } else if a.Absent? {
      hide *;
      PointAlone(s, kind, x, a, rest);
    } else {
      hide *;
      PrecisionGiven(s, kind, x, a, rest);
    }
  }

  lemma PrecisionGiven(s: string, kind: Kind, x: Scan, a: Amount, rest: string)
    requires x.pos <= |s| && WritableAmount(a) && !a.Absent? && s[x.pos..] == "." + (AmountText(a) + rest)
    requires rest != "" && !IsDigit(rest[0]) && FloatOrString(kind)
    requires Before(x, 6) && Referred(a, x.next).Some?
    ensures Leads(s, kind, x, AfterPrecision(x, true, a), rest)
  {
    hide AmountText, Referred, Amounted, Step, IsDigit, Go, WritableAmount, ParseDynamicSpec;
    PointThen(s, x.pos, AmountText(a), rest);
    ReadsAmount(s, Dynamic(x.pos + 1, -1, NoRef, x.next), a, rest);
    var (ref, next) := Referred(a, x.next).value;
    NoBrace(s[x.pos + 1]);
    StepAtPoint(s, kind, x, Dynamic(x.pos + 1 + |AmountText(a)|, Amounted(a, -1), ref, next));
    GoStep(s, kind, x, AfterPrecision(x, true, a));
  }

  /** A point without digits or a reference leaves the precision open. */
  lemma PointAlone(s: string, kind: Kind, x: Scan, a: Amount, rest: string)
    requires x.pos <= |s| && a.Absent? && s[x.pos..] == "." + (AmountText(a) + rest)
    requires rest != "" && !IsDigit(rest[0]) && rest[0] != '}' && rest[0] != '{' && FloatOrString(kind) && Before(x, 6)
    ensures Leads(s, kind, x, AfterPrecision(x, true, a), rest)
  {
    hide Step, IsDigit, Go, ParseDynamicSpec;
    PointThen(s, x.pos, AmountText(a), rest);
    assert s[x.pos + 1] == s[x.pos + 1..][0] == rest[0] by { assert AmountText(a) + rest == rest; }
    var d := Dynamic(x.pos + 1, x.specs.precision, x.specs.precisionRef, x.next);
    NothingDynamic(s, d);
    StepAtPoint(s, kind, x, d);
    GoStep(s, kind, x, AfterPrecision(x, true, a));
  }

  lemma NothingDynamic(s: string, d: Dynamic)
    requires d.pos < |s| && !IsDigit(s[d.pos]) && s[d.pos] != '{'
    ensures ParseDynamicSpec(s, d) == Ok(d)
  {
  }

  lemma PointThen(s: string, p: nat, a: string, rest: string)
    requires p <= |s| && s[p..] == "." + (a + rest) && rest != ""
    ensures p < |s| && s[p] == '.' && s[p + 1..] == a + rest
    ensures p + 1 + |a| < |s| && s[p + 1 + |a|..] == rest
  {
    Begins(s, p, ".", a + rest);
    Begins(s, p + 1, a, rest);
  }

  lemma NoBrace(c: char)
    ensures IsDigit(c) || c == '{' ==> c != '}'
  {
  }

  lemma StepAtPoint(s: string, kind: Kind, x: Scan, d: Dynamic)
    requires x.pos + 1 < |s| && s[x.pos] == '.' && s[x.pos + 1] != '}' && d.pos <= |s|
    requires x.phase.Rank() < 6 && FloatOrString(kind)
    requires ParseDynamicSpec(s, Dynamic(x.pos + 1, x.specs.precision, x.specs.precisionRef, x.next)) == Ok(d)
    ensures Step(s, kind, ToAscii(s[x.pos]), x) ==
              Ok(More(Scan(d.pos, x.specs.(precision := d.value, precisionRef := d.ref), Precision, d.next)))
  {
    hide ParseDynamicSpec, PresentationOf, StepFill, StepWidth;
  }

  lemma LocalePart(s: string, kind: Kind, x: Scan, localized: bool, rest: string)
    requires x.pos <= |s| && s[x.pos..] == (if localized then "L" else "") + rest && rest != ""
    requires Before(x, 7) && (localized ==> Arithmetic(kind))
    ensures Leads(s, kind, x, AfterLocale(x, localized), rest)
  {
    Begins(s, x.pos, if localized then "L" else "", rest);
    if localized { GoStep(s, kind, x, AfterLocale(x, localized)); }
  }

  /** The type, if there is one, ends the specifier; otherwise its closing brace does. */
  lemma LetterPart(s: string, kind: Kind, x: Scan, p: Presentation, rest: string)
    requires x.pos <= |s| && s[x.pos..] == LetterText(p) + rest && rest != "" && rest[0] == '}'
    requires Presents(p, kind) && x.specs.presentation.Plain?
    ensures var y := AfterLetter(x, p);
            x.pos < |s| && Go(s, kind, x) == Ok(y) && y.pos < |s| && s[y.pos..] == rest
  {
    Begins(s, x.pos, LetterText(p), rest);
    if !p.Plain? {
      LetterFits(p, kind);
      hide PresentationOf, LetterText, Presents;
      assert s[x.pos + 0] == LetterText(p)[0];
      StepAtLetter(s, kind, x, p);
    } else {
      NoLetter(kind);
      hide PresentationOf, StepFill, StepWidth, StepPrecision, Enters;
      assert Step(s, kind, '}', x) == Ok(Done(x));
    }
  }

  lemma StepAtLetter(s: string, kind: Kind, x: Scan, p: Presentation)
    requires x.pos < |s| && PresentationOf(s[x.pos], kind) == Some((p, true)) && !p.Plain?
    requires 'a' <= s[x.pos] <= 'z' || 'A' <= s[x.pos] <= 'Z' || s[x.pos] == '?'
    requires s[x.pos] != 'L' && x.specs.presentation.Plain?
    ensures Step(s, kind, s[x.pos], x) == Ok(Done(AfterLetter(x, p)))
  {
    hide PresentationOf, StepFill, StepWidth, StepPrecision, Enters;
  }

  /** The letter of a type is read as it, for the kinds it is for and no others. */
  lemma LetterFits(p: Presentation, kind: Kind)
    requires !p.Plain?
    ensures |LetterText(p)| == 1
    ensures var c := LetterText(p)[0];
            && PresentationOf(c, kind) == Some((p, Presents(p, kind)))
            && ToAscii(c) == c && ('a' <= c <= 'z' || 'A' <= c <= 'Z' || c == '?') && c != 'L'
  {
    LetterOf(p, kind);
    hide LetterText, Presents;
    PresentationIsLetter(LetterText(p)[0], kind);
  }

  lemma LetterOf(p: Presentation, kind: Kind)
    requires !p.Plain?
    ensures |LetterText(p)| == 1
    ensures var c := LetterText(p)[0];
            && PresentationOf(c, kind).Some? && PresentationOf(c, kind).value.0 == p
            && ToAscii(c) == c && ('a' <= c <= 'z' || 'A' <= c <= 'Z' || c == '?') && c != 'L'
  {
  }

  /** No other character is read as a type. */
  lemma LettersOnly(c: char, kind: Kind)
    ensures PresentationOf(c, kind).Some? <==> exists p :: LetterText(p) == [c]
    ensures PresentationOf(c, kind).Some? ==>
              var (p, valid) := PresentationOf(c, kind).value; LetterText(p) == [c] && valid == Presents(p, kind)
  {
    PresentationIsLetter(c, kind);
    hide PresentationOf, Presents;
    if PresentationOf(c, kind).Some? { assert LetterText(PresentationOf(c, kind).value.0) == [c]; }
    if p :| LetterText(p) == [c] {
      LetterFits(p, kind);
      assert LetterText(p)[0] == c;
    }
  }

  lemma PresentationIsLetter(c: char, kind: Kind)
    ensures PresentationOf(c, kind).Some? ==>
              var (p, valid) := PresentationOf(c, kind).value; LetterText(p) == [c] && valid == Presents(p, kind)
  {
    if 'a' <= c <= 'z' { SmallLetter(c, kind); } else { LargeLetter(c, kind); }
    hide *;
  }

  lemma SmallLetter(c: char, kind: Kind)
    requires 'a' <= c <= 'z'
    ensures PresentationOf(c, kind).Some? ==>
              var (p, valid) := PresentationOf(c, kind).value; LetterText(p) == [c] && valid == Presents(p, kind)
  {
  }

  lemma LargeLetter(c: char, kind: Kind)
    requires !('a' <= c <= 'z')
    ensures PresentationOf(c, kind).Some? ==>
              var (p, valid) := PresentationOf(c, kind).value; LetterText(p) == [c] && valid == Presents(p, kind)
  {
  }

  lemma NoLetter(kind: Kind)
    ensures PresentationOf('}', kind).None? && PresentationOf('\0', kind).None?
  {
  }

  // ----- the first character -----

  predicate AlignChar(c: char) { !ParseAlign(ToAscii(c)).NoAlign? }

  predicate AlignFree(s: string) { forall i :: 0 <= i < |s| ==> !AlignChar(s[i]) }

  /** Nothing at the start of this text is taken for a fill. */
  predicate Tame(w: string) {
    w != "" && !AlignChar(w[0]) && (w[0] == '}' || (|w| >= 2 && !AlignChar(w[1])))
  }

  lemma TamePrefix(a: string, r: string)
    requires AlignFree(a) && Tame(r)
    ensures Tame(a + r)
  {
    hide AlignChar;
    if |a| == 0 { assert a + r == r; }
  }

  lemma AmountAlignFree(a: Amount)
    requires WritableAmount(a)
    ensures AlignFree(AmountText(a))
  {
  }

  /** The text from each part on. */
  lemma OnIs(src: Source, rest: string)
    ensures SignOn(src, rest) == SignText(src.sign) + AltOn(src, rest)
    ensures AltOn(src, rest) == (if src.alt then "#" else "") + ZeroOn(src, rest)
    ensures ZeroOn(src, rest) == (if src.zero then "0" else "") + WidthOn(src, rest)
    ensures WidthOn(src, rest) == AmountText(src.width) + PrecisionOn(src, rest)
    ensures PrecisionOn(src, rest) ==
              (if src.point then "." else "") + (AmountText(src.precision) + LocaleOn(src, rest))
    ensures LocaleOn(src, rest) == (if src.localized then "L" else "") + LetterOn(src, rest)
    ensures LetterOn(src, rest) == LetterText(src.presentation) + rest
  {
    hide SignText, AmountText, LetterText;
  }

  lemma PiecesAlignFree(src: Source)
    requires WritableAmount(src.width) && WritableAmount(src.precision)
    ensures AlignFree(SignText(src.sign)) && AlignFree(if src.alt then "#" else "")
    ensures AlignFree(if src.zero then "0" else "") && AlignFree(AmountText(src.width))
    ensures AlignFree(if src.point then "." else "") && AlignFree(AmountText(src.precision))
    ensures AlignFree(if src.localized then "L" else "")
  {
    hide AmountText, WritableAmount;
    AmountAlignFree(src.width);
    AmountAlignFree(src.precision);
  }

  lemma SpecifierIsTame(src: Source, kind: Kind, rest: string)
    requires Allowed(src, kind) && rest != "" && rest[0] == '}'
    ensures WritableAmount(src.width) && WritableAmount(src.precision)
    ensures Tame(WidthOn(src, rest)) && Tame(ZeroOn(src, rest)) && Tame(AltOn(src, rest)) && Tame(SignOn(src, rest))
    ensures Tame(LetterOn(src, rest)) && Tame(LocaleOn(src, rest)) && Tame(PrecisionOn(src, rest))
  {
    TameLetter(src, kind, rest);
    hide *;
    OnIs(src, rest);
    PiecesAlignFree(src);
    TamePrefix(if src.localized then "L" else "", LetterOn(src, rest));
    TamePrefix(AmountText(src.precision), LocaleOn(src, rest));
    TamePrefix(if src.point then "." else "", AmountText(src.precision) + LocaleOn(src, rest));
    TamePrefix(AmountText(src.width), PrecisionOn(src, rest));
    TamePrefix(if src.zero then "0" else "", WidthOn(src, rest));
    TamePrefix(if src.alt then "#" else "", ZeroOn(src, rest));
    TamePrefix(SignText(src.sign), AltOn(src, rest));
  }

  /** No number goes on after a width or a precision, and a point alone is followed by a letter. */
  lemma AmountsEnd(src: Source, kind: Kind, rest: string)
    requires Allowed(src, kind) && rest != "" && rest[0] == '}'
    ensures LocaleOn(src, rest) != "" && !IsDigit(LocaleOn(src, rest)[0])
    ensures PrecisionOn(src, rest) != "" && !IsDigit(PrecisionOn(src, rest)[0])
    ensures src.point && src.precision.Absent? ==> LocaleOn(src, rest)[0] != '}' && LocaleOn(src, rest)[0] != '{'
  {
    TameLetter(src, kind, rest);
    if !src.presentation.Plain? { LetterFits(src.presentation, kind); }
    hide AmountText, WritableAmount, LetterText, Presents;
    NoAmount(src.precision, LocaleOn(src, rest));
  }

  lemma NoAmount(a: Amount, r: string)
    ensures a.Absent? ==> AmountText(a) + r == r && "" + (AmountText(a) + r) == r
  {
  }

  lemma TameLetter(src: Source, kind: Kind, rest: string)
    requires Allowed(src, kind) && rest != "" && rest[0] == '}'
    ensures WritableAmount(src.width) && WritableAmount(src.precision)
    ensures Tame(LetterOn(src, rest)) && !IsDigit(LetterOn(src, rest)[0])
    ensures src.presentation.Plain? ==> LetterOn(src, rest) == rest
  {
    if !src.presentation.Plain? { LetterFits(src.presentation, kind); }
    hide Presents, PresentationOf;
    assert src.presentation.Plain? ==> "" + rest == rest;
  }

  /** The scan after fill and alignment. */
  function Opened(p: nat, src: Source, next: int): Scan {
    if src.align.NoAlign? then Scan(p, DEFAULT_SPECS, Start, next)
    else
      var fill := if src.fill.Some? then src.fill.value else " ";
      Scan(p + (if src.fill.Some? then |fill| else 0) + 1, DEFAULT_SPECS.(fill := fill, align := src.align), Aligning,
           next)
  }

  lemma NothingOpens(s: string, p: nat, kind: Kind, next: int, w: string)
    requires p <= |s| && s[p..] == w && Tame(w)
    ensures p < |s|
    ensures var x := Scan(p, DEFAULT_SPECS, Start, next); Rounds(s, kind, FirstChar(s, p), x) == Go(s, kind, x)
  {
    Begins(s, p, w, "");
    assert s[p] == w[0] && (|w| >= 2 ==> s[p + 1] == w[1]);
    var x := Scan(p, DEFAULT_SPECS, Start, next);
    if FirstChar(s, p) == '\0' && s[p] == '}' {
      NoLetter(kind);
      hide PresentationOf;
      assert Step(s, kind, '\0', x) == Ok(Done(x)) == Step(s, kind, '}', x);
    }
  }

  lemma AlignOpens(s: string, p: nat, kind: Kind, align: Align, next: int, w: string)
    requires p <= |s| && s[p..] == AlignText(align) + w && Tame(w) && !align.NoAlign? && !align.Numeric?
    ensures p < |s| && p + 1 < |s| && s[p + 1..] == w
    ensures Rounds(s, kind, FirstChar(s, p), Scan(p, DEFAULT_SPECS, Start, next)) ==
              Go(s, kind, Scan(p + 1, DEFAULT_SPECS.(align := align), Aligning, next))
  {
    Begins(s, p, AlignText(align), w);
    var x, y := Scan(p, DEFAULT_SPECS, Start, next), Scan(p + 1, DEFAULT_SPECS.(align := align), Aligning, next);
    assert s[p] == AlignText(align)[0] && FirstChar(s, p) == s[p];
    hide PresentationOf, StepFill, StepWidth, StepPrecision;
    assert Step(s, kind, s[p], x) == Ok(More(y));
    GoStep(s, kind, x, y);
  }

  lemma FillOpens(s: string, p: nat, kind: Kind, fill: Fill, align: Align, next: int, w: string)
    requires p <= |s| && s[p..] == fill + (AlignText(align) + w) && w != "" && WritableFill(fill)
    requires !align.NoAlign? && !align.Numeric?
    ensures var q := p + |fill| + 1; p < |s| && q < |s| && s[q..] == w
    ensures Rounds(s, kind, FirstChar(s, p), Scan(p, DEFAULT_SPECS, Start, next)) ==
              Go(s, kind, Scan(p + |fill| + 1, DEFAULT_SPECS.(fill := fill, align := align), Aligning, next))
  {
    FillSteps(s, p, fill, align, next, w);
    var x := Scan(p, DEFAULT_SPECS, Start, next);
    var y := Scan(p + |fill| + 1, DEFAULT_SPECS.(fill := fill, align := align), Aligning, next);
    FillChar(s, p, kind, fill, align);
    hide PresentationOf, StepFill, StepWidth, StepPrecision, WritableFill, AlignText;
    assert Step(s, kind, FirstChar(s, p), x) == Ok(More(y));
    MaskedStep(s, kind, FirstChar(s, p), x, y);
  }

  lemma FillSteps(s: string, p: nat, fill: Fill, align: Align, next: int, w: string)
    requires p <= |s| && s[p..] == fill + (AlignText(align) + w) && w != "" && WritableFill(fill)
    requires !align.NoAlign? && !align.Numeric?
    ensures p + |fill| + 1 < |s| && s[p + |fill| + 1..] == w
    ensures AlignText(align) != "" && s[p] == fill[0] && s[p + |fill|] == AlignText(align)[0]
    ensures (|fill| > 1 ==> s[p + 1] == fill[1]) && s[p] != '}'
    ensures StepFill(s, Scan(p, DEFAULT_SPECS, Start, next)) ==
              Ok(More(Scan(p + |fill| + 1, DEFAULT_SPECS.(fill := fill, align := align), Aligning, next)))
  {
    Begins(s, p, fill, AlignText(align) + w);
    Begins(s, p + |fill|, AlignText(align), w);
  }

  lemma MaskedStep(s: string, kind: Kind, c: char, x: Scan, y: Scan)
    requires x.pos < |s| && y.pos < |s| && (c == s[x.pos] || c == '\0') && Step(s, kind, c, x) == Ok(More(y))
    ensures Rounds(s, kind, c, x) == Go(s, kind, y)
  {
    hide Step;
  }

  /** A fill reaches the default case: masked by the alignment after it, or a byte above ASCII. */
  lemma FillChar(s: string, p: nat, kind: Kind, fill: Fill, align: Align)
    requires p + |fill| < |s| && WritableFill(fill) && s[p] == fill[0]
    requires AlignText(align) != "" && s[p + |fill|] == AlignText(align)[0] && (|fill| > 1 ==> s[p + 1] == fill[1])
    ensures FirstChar(s, p) == '\0' || FirstChar(s, p) as int >= 0xc0
    ensures PresentationOf(FirstChar(s, p), kind).None?
  {
  }

  /** Fill and alignment are told apart from the rest by the character after the first. */
  lemma Opening(s: string, p: nat, kind: Kind, src: Source, next: int, rest: string)
    requires p <= |s| && Allowed(src, kind) && rest != "" && rest[0] == '}' && s[p..] == Written(src, rest)
    ensures p < |s|
    ensures var y := Opened(p, src, next);
            y.pos < |s| && s[y.pos..] == SignOn(src, rest) &&
            Rounds(s, kind, FirstChar(s, p), Scan(p, DEFAULT_SPECS, Start, next)) == Go(s, kind, y)
  {
    hide *;
    WrittenIs(src, kind, rest);
    SpecifierIsTame(src, kind, rest);
    OpenedIs(p, src, next);
    var w := SignOn(src, rest);
    TameNonempty(w);
    if src.fill.Some? {
      FillOpens(s, p, kind, src.fill.value, src.align, next, w);
    } else if !src.align.NoAlign? {
      AlignOpens(s, p, kind, src.align, next, w);
    } else {
      NothingOpens(s, p, kind, next, w);
    }
  }

  lemma TameNonempty(w: string)
    requires Tame(w)
    ensures w != ""
  {
  }

  lemma WrittenIs(src: Source, kind: Kind, rest: string)
    requires Allowed(src, kind)
    ensures WritableAmount(src.width) && WritableAmount(src.precision)
    ensures !src.align.Numeric? && (src.fill.Some? ==> WritableFill(src.fill.value) && !src.align.NoAlign?)
    ensures src.fill.Some? ==> Written(src, rest) == src.fill.value + (AlignText(src.align) + SignOn(src, rest))
    ensures src.fill.None? ==> Written(src, rest) == AlignText(src.align) + SignOn(src, rest)
    ensures src.fill.None? && src.align.NoAlign? ==> Written(src, rest) == SignOn(src, rest)
  {
    hide SignOn, WritableAmount, WritableFill;
    assert "" + (AlignText(src.align) + SignOn(src, rest)) == AlignText(src.align) + SignOn(src, rest);
    assert src.align.NoAlign? ==> "" + SignOn(src, rest) == SignOn(src, rest);
  }

  lemma OpenedIs(p: nat, src: Source, next: int)
    ensures src.align.NoAlign? ==> Opened(p, src, next) == Scan(p, DEFAULT_SPECS, Start, next)
    ensures !src.align.NoAlign? && src.fill.None? ==>
              Opened(p, src, next) == Scan(p + 1, DEFAULT_SPECS.(align := src.align), Aligning, next)
    ensures !src.align.NoAlign? && src.fill.Some? ==>
              Opened(p, src, next) ==
                Scan(p + |src.fill.value| + 1, DEFAULT_SPECS.(fill := src.fill.value, align := src.align), Aligning,
                     next)
  {
  }

  // ----- the round trip -----

  /** What the parts ask of each other and of the argument. */
  lemma AllowedSays(src: Source, kind: Kind, rest: string)
    requires Allowed(src, kind) && rest != "" && rest[0] == '}'
    ensures src.sign.NoSign? || SignedOrFloat(kind)
    ensures src.alt || src.zero || src.localized ==> Arithmetic(kind)
    ensures (src.point ==> FloatOrString(kind)) && (!src.point ==> src.precision.Absent?)
    ensures src.point && src.precision.Absent? ==> LocaleOn(src, rest)[0] != '}' && LocaleOn(src, rest)[0] != '{'
    ensures Presents(src.presentation, kind)
    ensures WritableAmount(src.width) && (src.width.Given? ==> src.width.digits[0] != '0')
    ensures WritableAmount(src.precision)
    ensures AltOn(src, rest) != "" && ZeroOn(src, rest) != "" && WidthOn(src, rest) != "" && LetterOn(src, rest) != ""
    ensures PrecisionOn(src, rest) != "" && !IsDigit(PrecisionOn(src, rest)[0])
    ensures LocaleOn(src, rest) != "" && !IsDigit(LocaleOn(src, rest)[0])
  {
    SpecifierIsTame(src, kind, rest);
    AmountsEnd(src, kind, rest);
    hide Presents, WritableAmount, AmountText, IsDigit, AlignChar;
  }

  /** The scan after sign, form and zero. */
  function Flagged(x: Scan, src: Source): (y: Scan)
    requires Before(x, 2)
    ensures Before(y, 5) && y.next == x.next
  {
    AfterZero(AfterAlt(AfterSign(x, src.sign), src.alt), src.zero)
  }

  /** The scan after width, precision and locale. */
  function Measured(x: Scan, src: Source): (y: Scan)
    requires Before(x, 5) && WritableAmount(src.width) && WritableAmount(src.precision)
    requires References(src, x.next).Some? && (!src.point ==> src.precision.Absent?)
    ensures Before(y, 8) && y.next == References(src, x.next).value.2
  {
    AfterLocale(AfterPrecision(AfterWidth(x, src.width), src.point, src.precision), src.localized)
  }

  lemma ReadsFlags(s: string, kind: Kind, src: Source, x: Scan, rest: string)
    requires x.pos <= |s| && Allowed(src, kind) && s[x.pos..] == SignOn(src, rest) && Before(x, 2)
    requires rest != "" && rest[0] == '}'
    ensures Leads(s, kind, x, Flagged(x, src), WidthOn(src, rest))
  {
    hide Allowed, SignOn, AltOn, ZeroOn, WidthOn, AmountText, SignText, WritableAmount, Before, Leads, PresentationOf,
         AfterSign, AfterAlt, AfterZero;
    AllowedSays(src, kind, rest);
    OnIs(src, rest);
    var x1 := AfterSign(x, src.sign);
    var x2 := AfterAlt(x1, src.alt);
    SignPart(s, kind, x, src.sign, AltOn(src, rest));
    LeadsTo(s, kind, x, x1, AltOn(src, rest));
    AltPart(s, kind, x1, src.alt, ZeroOn(src, rest));
    LeadsTo(s, kind, x1, x2, ZeroOn(src, rest));
    ZeroPart(s, kind, x2, src.zero, WidthOn(src, rest));
    LeadsOn(s, kind, x, x1, x2, AltOn(src, rest), ZeroOn(src, rest));
    LeadsOn(s, kind, x, x2, Flagged(x, src), ZeroOn(src, rest), WidthOn(src, rest));
  }

  lemma ReadsAmounts(s: string, kind: Kind, src: Source, x: Scan, rest: string)
    requires x.pos <= |s| && Allowed(src, kind) && s[x.pos..] == WidthOn(src, rest) && Before(x, 5)
    requires rest != "" && rest[0] == '}'
    requires References(src, x.next).Some? && (!src.point ==> src.precision.Absent?)
    ensures Leads(s, kind, x, Measured(x, src), LetterOn(src, rest))
  {
    hide Allowed, WidthOn, PrecisionOn, LocaleOn, LetterOn, AmountText, WritableAmount, Before, Leads, PresentationOf,
         Referred, AfterWidth, AfterPrecision, AfterLocale, IsDigit;
    AllowedSays(src, kind, rest);
    OnIs(src, rest);
    var x1 := AfterWidth(x, src.width);
    var x2 := AfterPrecision(x1, src.point, src.precision);
    WidthPart(s, kind, x, src.width, PrecisionOn(src, rest));
    LeadsTo(s, kind, x, x1, PrecisionOn(src, rest));
    PrecisionPart(s, kind, x1, src.point, src.precision, LocaleOn(src, rest));
    LeadsTo(s, kind, x1, x2, LocaleOn(src, rest));
    LocalePart(s, kind, x2, src.localized, LetterOn(src, rest));
    LeadsOn(s, kind, x, x1, x2, PrecisionOn(src, rest), LocaleOn(src, rest));
    LeadsOn(s, kind, x, x2, Measured(x, src), LocaleOn(src, rest), LetterOn(src, rest));
  }

  /** The scan at the end, part after part. */
  function AtEnd(x: Scan, src: Source): Scan
    requires Before(x, 2) && WritableAmount(src.width) && WritableAmount(src.precision)
    requires References(src, x.next).Some? && (!src.point ==> src.precision.Absent?)
  {
    AfterLetter(Measured(Flagged(x, src), src), src.presentation)
  }

  lemma ReadsParts(s: string, kind: Kind, src: Source, x: Scan, rest: string)
    requires x.pos <= |s| && Allowed(src, kind) && s[x.pos..] == SignOn(src, rest) && Before(x, 2)
    requires rest != "" && rest[0] == '}'
    requires References(src, x.next).Some? && (!src.point ==> src.precision.Absent?)
    ensures x.pos < |s| && Go(s, kind, x) == Ok(AtEnd(x, src))
    ensures var p := AtEnd(x, src).pos; p < |s| && s[p..] == rest
  {
    AllowedSays(src, kind, rest);
    hide Allowed, SignOn, WidthOn, LetterOn, AmountText, WritableAmount, Leads, Go, PresentationOf, References,
         Flagged, Measured, AfterLetter, PrecisionOn, LocaleOn, IsDigit, AltOn, ZeroOn, LetterText, Presents;
    OnIs(src, rest);
    var x1 := Flagged(x, src);
    var x2 := Measured(x1, src);
    ReadsFlags(s, kind, src, x, rest);
    LeadsTo(s, kind, x, x1, WidthOn(src, rest));
    ReadsAmounts(s, kind, src, x1, rest);
    LeadsTo(s, kind, x1, x2, LetterOn(src, rest));
    LetterPart(s, kind, x2, src.presentation, rest);
  }

  /** At the end the specifiers are those meant, and the counter has been through width and precision. */
  lemma EndMeans(p: nat, kind: Kind, src: Source, next: int)
    requires Allowed(src, kind) && References(src, next).Some?
    ensures Before(Opened(p, src, next), 2) && Opened(p, src, next).next == next
    ensures var (width, precision, next2) := References(src, next).value;
            var r := AtEnd(Opened(p, src, next), src);
            r.specs == Meant(src, width, precision) && r.next == next2
  {
    hide Presents, AmountText, Referred, Amounted, WritableAmount, WritableFill, AfterSign, AfterAlt, AfterZero,
         AfterWidth, AfterPrecision, AfterLocale, AfterLetter;
  }

  /** What is written of a specifier is read back: its parts, where it ends and the counter after it. */
  lemma SpecifierReadBack(s: string, p: nat, kind: Kind, src: Source, next: int, rest: string)
    requires p <= |s| && Allowed(src, kind) && rest != "" && rest[0] == '}' && s[p..] == Written(src, rest)
    requires References(src, next).Some?
    ensures ParseSpecs(s, p, kind, next).Ok?
    ensures var (width, precision, next2) := References(src, next).value;
            var r := ParseSpecs(s, p, kind, next).value;
            r.specs == Meant(src, width, precision) && r.next == next2 && r.pos < |s| && s[r.pos..] == rest
  {
    AllowedPoint(src, kind);
    hide Written, SignOn, Go, Rounds, FirstChar, Allowed, References, AtEnd, Meant, Opened, Before;
    Opening(s, p, kind, src, next, rest);
    EndMeans(p, kind, src, next);
    ReadsParts(s, kind, src, Opened(p, src, next), rest);
  }

  lemma AllowedPoint(src: Source, kind: Kind)
    requires Allowed(src, kind)
    ensures WritableAmount(src.width) && WritableAmount(src.precision) && (!src.point ==> src.precision.Absent?)
  {
  }
}
