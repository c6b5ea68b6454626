/**
 * The grammar of replacement fields: what each parser of core.h reads from a position of the
 * format string, as functions of the string, the position and the argument counter.
 */
module FormatSyntax {
  import opened Outcomes
  import Utf8

  const INT_MAX: int := 0x7fff_ffff

  // ----- argument kinds and specifiers -----

  datatype Kind =
    | IntKind | UintKind | LongLongKind | UlongLongKind | Int128Kind | Uint128Kind | BoolKind | CharKind
    | FloatKind | DoubleKind | LongDoubleKind | CstringKind | StringKind | PointerKind
  {
    predicate Signed() { IntKind? || LongLongKind? || Int128Kind? }
    predicate Unsigned() { UintKind? || UlongLongKind? || Uint128Kind? }
    predicate Integer() { Signed() || Unsigned() }
    predicate Integral() { Integer() || BoolKind? || CharKind? }
    predicate Floating() { FloatKind? || DoubleKind? || LongDoubleKind? }
    predicate Arithmetic() { Integral() || Floating() }
    predicate Text() { CstringKind? || StringKind? }
  }

  datatype Align = NoAlign | Left | Right | Center | Numeric
  datatype Sign = NoSign | Minus | Plus | Space
  datatype Presentation =
    | Plain | Dec | Oct | HexLower | HexUpper | BinLower | BinUpper | HexfloatLower | HexfloatUpper
    | ExpLower | ExpUpper | FixedLower | FixedUpper | GeneralLower | GeneralUpper | Chr | Str | Ptr | Debug

  /** A reference to the argument that holds a width or a precision. */
  datatype Ref = NoRef | ByIndex(index: int) | ByName(name: string)

  type Fill = f: string | |f| >= 1 witness " "

  datatype Specs = Specs(
    width: int, precision: int, presentation: Presentation, align: Align, sign: Sign,
    alt: bool, localized: bool, fill: Fill, widthRef: Ref, precisionRef: Ref)

  const DEFAULT_SPECS := Specs(0, -1, Plain, NoAlign, NoSign, false, false, " ", NoRef, NoRef)

  function SignText(sign: Sign): string {
    match sign
    case NoSign => ""
    case Minus => "-"
    case Plus => "+"
    case Space => " "
  }

  // ----- the argument counter -----

  /** A reference as written: nothing, a number or a name. */
  datatype ArgId = Auto | Index(i: int) | Name(name: string)

  /** The counter is negative after a numeric reference and positive after an automatic one. */
  function NextArgId(next: int): Result<int> {
    if next < 0 then Err("cannot switch from manual to automatic argument indexing") else Ok(next)
  }

  function CheckArgId(next: int): Result<int> {
    if next > 0 then Err("cannot switch from automatic to manual argument indexing") else Ok(-1)
  }

  /** What a reference refers to, and the counter after it. */
  function TakeId(id: ArgId, next: int): Result<(Ref, int)> {
    match id
    case Auto => var n :- NextArgId(next); Ok((ByIndex(n), n + 1))
    case Index(i) => var n :- CheckArgId(next); Ok((ByIndex(i), n))
    case Name(name) => Ok((ByName(name), next))
  }

  // ----- numbers and names -----

  predicate IsDigit(c: char) { '0' <= c <= '9' }

  predicate IsNameStart(c: char) { 'a' <= c <= 'z' || 'A' <= c <= 'Z' || c == '_' }

  function DigitsEnd(s: string, pos: nat): (e: nat)
    requires pos <= |s|
    ensures pos <= e <= |s|
    ensures pos < |s| && IsDigit(s[pos]) ==> pos < e
    decreases |s| - pos
  {
    if pos < |s| && IsDigit(s[pos]) then DigitsEnd(s, pos + 1) else pos
  }

  function NameEnd(s: string, pos: nat): (e: nat)
    requires pos <= |s|
    ensures pos <= e <= |s|
    decreases |s| - pos
  {
    if pos < |s| && (IsNameStart(s[pos]) || IsDigit(s[pos])) then NameEnd(s, pos + 1) else pos
  }

  /** The decimal number written in s[a..b]. */
  function Number(s: string, a: nat, b: nat): nat
    requires a <= b <= |s| && forall i :: a <= i < b ==> IsDigit(s[i])
    decreases b
  {
    if a == b then 0 else 10 * Number(s, a, b - 1) + DigitOf(s[b - 1])
  }

  function DigitOf(c: char): (d: nat)
    requires IsDigit(c)
    ensures d <= 9
  {
    c as int - '0' as int
  }

  lemma {:induction false} DigitsAreDigits(s: string, pos: nat)
    requires pos <= |s|
    ensures forall i :: pos <= i < DigitsEnd(s, pos) ==> IsDigit(s[i])
    ensures DigitsEnd(s, pos) < |s| ==> !IsDigit(s[DigitsEnd(s, pos)])
    decreases |s| - pos
  {
    if pos < |s| && IsDigit(s[pos]) { DigitsAreDigits(s, pos + 1); }
  }

  /** A number that fits an int in at most ten digits, or the caller's error value. */
  function ParseInt(s: string, pos: nat, errorValue: int): (nat, int)
    requires pos <= |s|
  {
    DigitsAreDigits(s, pos);
    var e := DigitsEnd(s, pos);
    (e, if e - pos <= 10 && Number(s, pos, e) <= INT_MAX then Number(s, pos, e) else errorValue)
  }

  function ParseArgId(s: string, pos: nat): (r: Result<(nat, ArgId)>)
    requires pos < |s|
    ensures r.Ok? ==> pos <= r.value.0 <= |s| && (r.value.1.Auto? || pos < r.value.0)
  {
    if s[pos] == '}' || s[pos] == ':' then Ok((pos, Auto)) else DoParseArgId(s, pos)
  }

  function DoParseArgId(s: string, pos: nat): (r: Result<(nat, ArgId)>)
    requires pos < |s|
    ensures r.Ok? ==> pos < r.value.0 <= |s| && !r.value.1.Auto?
  {
    if IsDigit(s[pos]) then
      var (p, i) := if s[pos] == '0' then (pos + 1, 0) else ParseInt(s, pos, INT_MAX);
      if p == |s| || (s[p] != '}' && s[p] != ':') then Err("invalid format string") else Ok((p, Index(i)))
    else if !IsNameStart(s[pos]) then
      Err("invalid format string")
    else
      Ok((NameEnd(s, pos + 1), Name(s[pos..NameEnd(s, pos + 1)])))
  }

  // ----- width and precision -----

  /** A position, a value with the reference that overrides it, and the counter. */
  datatype Dynamic = Dynamic(pos: nat, value: int, ref: Ref, next: int)

  function ParseDynamicSpec(s: string, d: Dynamic): (r: Result<Dynamic>)
    requires d.pos < |s|
    ensures r.Ok? ==> d.pos <= r.value.pos <= |s|
    ensures r.Ok? && (IsDigit(s[d.pos]) || s[d.pos] == '{') ==> d.pos < r.value.pos
  {
    if IsDigit(s[d.pos]) then
      var (p, v) := ParseInt(s, d.pos, -1);
      if v != -1 then Ok(d.(pos := p, value := v)) else Err("number is too big")
    else if s[d.pos] == '{' then
      ParseReference(s, d.(pos := d.pos + 1))
    else
      Ok(d)
  }

  /** After the brace: an optional argument id and the closing brace. */
  function ParseReference(s: string, d: Dynamic): (r: Result<Dynamic>)
    requires d.pos <= |s|
    ensures r.Ok? ==> d.pos < r.value.pos <= |s|
  {
    if d.pos == |s| then Err("invalid format string") else
    var (p, id) :- ParseArgId(s, d.pos);
    var (ref, next) :- TakeId(id, d.next);
    if p < |s| && s[p] == '}' then Ok(d.(pos := p + 1, ref := ref, next := next))
    else Err("invalid format string")
  }

  function ParsePrecision(s: string, d: Dynamic): (r: Result<Dynamic>)
    requires d.pos < |s|
    ensures r.Ok? ==> d.pos < r.value.pos <= |s|
  {
    if d.pos + 1 == |s| || s[d.pos + 1] == '}' then Err("invalid precision")
    else ParseDynamicSpec(s, d.(pos := d.pos + 1))
  }

  // ----- specifiers -----

  function ToAscii(c: char): char { if c as int <= 0xff then c else '\0' }

  function ParseAlign(c: char): Align {
    match c
    case '<' => Left
    case '>' => Right
    case '^' => Center
    case _ => NoAlign
  }

  /** The length of a code point from its first byte; continuation and invalid bytes count one. */
  function CodePointLength(c: char): nat {
    var n := if c as int <= 0xff then Utf8.LeadLength(c as int) else 0;
    if n == 0 then 1 else n
  }

  /** The presentation types, each with the kinds of argument it is for. */
  function PresentationOf(c: char, kind: Kind): Option<(Presentation, bool)> {
    match c
    case 'd' => Some((Dec, kind.Integral()))
    case 'o' => Some((Oct, kind.Integral()))
    case 'x' => Some((HexLower, kind.Integral()))
    case 'X' => Some((HexUpper, kind.Integral()))
    case 'b' => Some((BinLower, kind.Integral()))
    case 'B' => Some((BinUpper, kind.Integral()))
    case 'a' => Some((HexfloatLower, kind.Floating()))
    case 'A' => Some((HexfloatUpper, kind.Floating()))
    case 'e' => Some((ExpLower, kind.Floating()))
    case 'E' => Some((ExpUpper, kind.Floating()))
    case 'f' => Some((FixedLower, kind.Floating()))
    case 'F' => Some((FixedUpper, kind.Floating()))
    case 'g' => Some((GeneralLower, kind.Floating()))
    case 'G' => Some((GeneralUpper, kind.Floating()))
    case 'c' => Some((Chr, kind.Integral()))
    case 's' => Some((Str, kind.BoolKind? || kind.Text()))
    case 'p' => Some((Ptr, kind.PointerKind? || kind.CstringKind?))
    case '?' => Some((Debug, kind.CharKind? || kind.Text()))
    case _ => None
  }

  /** The phases of a specifier in the order they may come. */
  datatype Phase = Start | Aligning | Signing | Hash | Zero | Width | Precision | Locale {
    function Rank(): nat {
      match this
      case Start => 0
      case Aligning => 1
      case Signing => 2
      case Hash => 3
      case Zero => 4
      case Width => 5
      case Precision => 6
      case Locale => 7
    }
  }

  datatype Scan = Scan(pos: nat, specs: Specs, phase: Phase, next: int)

  /** Entering a phase: only forwards, and only where the argument allows it. */
  predicate Enters(from: Phase, to: Phase, valid: bool) { from.Rank() < to.Rank() && valid }

  /** Done means that the parser returns to its caller at this position. */
  datatype Move = More(scan: Scan) | Done(scan: Scan)

  /** What one round of the parser does on the (possibly masked) character c. */
  function Step(s: string, kind: Kind, c: char, x: Scan): (r: Result<Move>)
    requires x.pos < |s| && (c == s[x.pos] || c == '\0')
    ensures r.Ok? && r.value.More? ==> x.pos < r.value.scan.pos <= |s|
    ensures r.Ok? ==> x.pos <= r.value.scan.pos <= |s|
  {
    if c == '<' || c == '>' || c == '^' then
      if Enters(x.phase, Aligning, true)
      then Ok(More(Scan(x.pos + 1, x.specs.(align := ParseAlign(c)), Aligning, x.next)))
      else Err("invalid format specifier")
    else if c == '+' || c == '-' || c == ' ' then
      if Enters(x.phase, Signing, kind.Signed() || kind.Floating())
      then Ok(More(Scan(x.pos + 1, x.specs.(sign := SignOf(c)), Signing, x.next)))
      else Err("invalid format specifier")
    else if c == '#' then
      if Enters(x.phase, Hash, kind.Arithmetic())
      then Ok(More(Scan(x.pos + 1, x.specs.(alt := true), Hash, x.next)))
      else Err("invalid format specifier")
    else if c == '0' then
      if !Enters(x.phase, Zero, true) then Err("invalid format specifier")
      else if !kind.Arithmetic() then Err("format specifier requires numeric argument")
      else Ok(More(Scan(x.pos + 1, ZeroFilled(x.specs), Zero, x.next)))
    else if '1' <= c <= '9' || c == '{' then
      StepWidth(s, x)
    else if c == '.' then
      StepPrecision(s, kind, x)
    else if c == 'L' then
      if Enters(x.phase, Locale, kind.Arithmetic())
      then Ok(More(Scan(x.pos + 1, x.specs.(localized := true), Locale, x.next)))
      else Err("invalid format specifier")
    else
      match PresentationOf(c, kind)
      case Some((p, valid)) =>
        if valid then Ok(Done(x.(pos := x.pos + 1, specs := x.specs.(presentation := p))))
        else Err("invalid format specifier")
      case None =>
        if s[x.pos] == '}' then Ok(Done(x)) else StepFill(s, x)
  }

  function SignOf(c: char): Sign { if c == '+' then Plus else if c == '-' then Minus else Space }

  /** A zero is ignored when an alignment is given. */
  function ZeroFilled(specs: Specs): Specs {
    if specs.align.NoAlign? then specs.(align := Numeric, fill := specs.fill[0 := '0']) else specs
  }

  function StepWidth(s: string, x: Scan): (r: Result<Move>)
    requires x.pos < |s| && (IsDigit(s[x.pos]) || s[x.pos] == '{')
    ensures r.Ok? ==> r.value.More? && x.pos < r.value.scan.pos <= |s|
  {
    if !Enters(x.phase, Width, true) then Err("invalid format specifier") else
    var d :- ParseDynamicSpec(s, Dynamic(x.pos, x.specs.width, x.specs.widthRef, x.next));
    Ok(More(Scan(d.pos, x.specs.(width := d.value, widthRef := d.ref), Width, d.next)))
  }

  function StepPrecision(s: string, kind: Kind, x: Scan): (r: Result<Move>)
    requires x.pos < |s|
    ensures r.Ok? ==> r.value.More? && x.pos < r.value.scan.pos <= |s|
  {
    if !Enters(x.phase, Precision, kind.Floating() || kind.Text()) then Err("invalid format specifier") else
    var d :- ParsePrecision(s, Dynamic(x.pos, x.specs.precision, x.specs.precisionRef, x.next));
    Ok(More(Scan(d.pos, x.specs.(precision := d.value, precisionRef := d.ref), Precision, d.next)))
  }

  /** A fill of one code point followed by an alignment. */
  function StepFill(s: string, x: Scan): (r: Result<Move>)
    requires x.pos < |s|
    ensures r.Ok? ==> r.value.More? && x.pos < r.value.scan.pos <= |s|
  {
    var fillEnd := x.pos + CodePointLength(s[x.pos]);
    if fillEnd >= |s| then Err("invalid format specifier")
    else if s[x.pos] == '{' then Err("invalid fill character '{'")
    else
      var align := ParseAlign(ToAscii(s[fillEnd]));
      if !Enters(x.phase, Aligning, !align.NoAlign?) then Err("invalid format specifier")
      else Ok(More(Scan(fillEnd + 1, x.specs.(fill := s[x.pos..fillEnd], align := align), Aligning, x.next)))
  }

  /** The rounds from c on, until one returns or the string ends. */
  function Rounds(s: string, kind: Kind, c: char, x: Scan): (r: Result<Scan>)
    requires x.pos < |s| && (c == s[x.pos] || c == '\0')
    ensures r.Ok? ==> x.pos <= r.value.pos <= |s|
    decreases |s| - x.pos
  {
    match Step(s, kind, c, x)
    case Err(m) => Err(m)
    case Ok(Done(y)) => Ok(y)
    case Ok(More(y)) => if y.pos == |s| then Ok(y) else Rounds(s, kind, ToAscii(s[y.pos]), y)
  }

  /** The first character, masked when the next one is an alignment so that it is read as a fill. */
  function FirstChar(s: string, pos: nat): char
    requires pos < |s|
  {
    if pos + 1 < |s| && !ParseAlign(ToAscii(s[pos + 1])).NoAlign? then '\0' else ToAscii(s[pos])
  }

  /** The specifiers from a position on: where they end, what they are, the counter after them. */
  function ParseSpecs(s: string, pos: nat, kind: Kind, next: int): (r: Result<Scan>)
    requires pos <= |s|
    ensures r.Ok? ==> pos <= r.value.pos <= |s|
  {
    var x := Scan(pos, DEFAULT_SPECS, Start, next);
    if pos == |s| then Ok(x) else Rounds(s, kind, FirstChar(s, pos), x)
  }

  /** Specifiers that a character argument cannot be written with. */
  predicate CharSpecsRejected(specs: Specs) {
    && (specs.presentation.Plain? || specs.presentation.Chr? || specs.presentation.Debug?)
    && (specs.align.Numeric? || !specs.sign.NoSign? || specs.alt)
  }
}
