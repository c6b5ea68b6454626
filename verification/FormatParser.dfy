/**
 * The parsers of core.h as they run: cursors that advance over the format string and a context
 * whose counter changes in place. Each is proved equal to its function in FormatSyntax or FormatRun,
 * and the two strategies for short and for long format strings to the one meaning Run.
 */
module FormatParser {
  import opened Outcomes
  import opened Powers
  import opened FormatSyntax
  import opened FormatRun

  const WORD: int := 0x1_0000_0000

  // ----- numbers and names -----

  lemma {:induction false} NumberBelow(s: string, a: nat, b: nat)
    requires a <= b <= |s| && forall i :: a <= i < b ==> IsDigit(s[i])
    ensures Number(s, a, b) < Pow(10, b - a)
  {
    if a < b { NumberBelow(s, a, b - 1); }
  }

  lemma {:induction false} NumberAbove(s: string, a: nat, b: nat)
    requires a < b <= |s| && s[a] != '0' && forall i :: a <= i < b ==> IsDigit(s[i])
    ensures Number(s, a, b) >= Pow(10, b - a - 1)
  {
    if a < b - 1 { NumberAbove(s, a, b - 1); }
  }

  lemma TenDigits()
    ensures Pow(10, 9) == 1000000000 && Pow(10, 10) == 10000000000
  {
  }

  /** A number without a leading zero is read exactly when it fits an int. */
  lemma ParseIntExact(s: string, pos: nat, errorValue: int)
    requires pos < |s| && IsDigit(s[pos]) && s[pos] != '0'
    ensures var e := DigitsEnd(s, pos);
            (forall i :: pos <= i < e ==> IsDigit(s[i])) &&
            ParseInt(s, pos, errorValue) == (e, if Number(s, pos, e) <= INT_MAX then Number(s, pos, e) else errorValue)
  {
    DigitsAreDigits(s, pos);
    var e := DigitsEnd(s, pos);
    if e - pos > 10 {
      NumberAbove(s, pos, e);
      PowMonotone(10, 10, e - pos - 1);
      TenDigits();
    }
  }

  lemma InsideDigits(s: string, a: nat, b: nat)
    requires a <= |s| && a <= b <= DigitsEnd(s, a)
    ensures forall i :: a <= i < b ==> IsDigit(s[i])
    ensures b < |s| ==> (b < DigitsEnd(s, a) <==> IsDigit(s[b]))
  {
    DigitsAreDigits(s, a);
  }

  /** What the accumulated word and the word before the last digit say about the number. */
  lemma WrappedNumber(s: string, a: nat, b: nat, value: int, prev: int)
    requires a < b <= |s| && forall i :: a <= i < b ==> IsDigit(s[i])
    requires value == Number(s, a, b) % WORD && prev == Number(s, a, b - 1) % WORD
    ensures b - a <= 9 ==> value == Number(s, a, b) <= INT_MAX
    ensures b - a == 10 ==> prev * 10 + DigitOf(s[b - 1]) == Number(s, a, b)
    ensures Number(s, a, b) <= INT_MAX ==> value == Number(s, a, b)
  {
    TenDigits();
    if b - a <= 9 {
      NumberBelow(s, a, b);
      PowMonotone(10, b - a, 9);
    } else if b - a == 10 {
      NumberBelow(s, a, b - 1);
    }
  }

  /** One more digit in the word. */
  lemma WordStep(s: string, a: nat, b: nat)
    requires a <= b < |s| && forall i :: a <= i < b + 1 ==> IsDigit(s[i])
    ensures (Number(s, a, b) % WORD * 10 + DigitOf(s[b])) % WORD == Number(s, a, b + 1) % WORD
  {
    WordStepOf(Number(s, a, b), DigitOf(s[b]));
  }

  lemma WordStepOf(n: nat, d: nat)
    ensures (n % WORD * 10 + d) % WORD == (10 * n + d) % WORD
  {
    var q := n / WORD;
    assert 10 * n + d == (10 * q) * WORD + (n % WORD * 10 + d);
  }

  lemma NoDigitsYet(s: string, a: nat)
    requires a <= |s|
    ensures Number(s, a, a) == 0
  {
  }

  lemma Decided(s: string, a: nat, b: nat, errorValue: int)
    requires a < |s| && a < b == DigitsEnd(s, a)
    requires forall i :: a <= i < b ==> IsDigit(s[i])
    ensures ParseInt(s, a, errorValue) ==
              (b, if b - a <= 10 && Number(s, a, b) <= INT_MAX then Number(s, a, b) else errorValue)
  {
    DigitsAreDigits(s, a);
  }

  /** Accumulating with wrap-around, and deciding by the number of digits and the last step. */
  method ParseNonnegativeInt(s: string, begin: nat, errorValue: int) returns (p: nat, r: int)
    requires begin < |s| && IsDigit(s[begin])
    ensures (p, r) == ParseInt(s, begin, errorValue)
  {
    hide Number, DigitsEnd, IsDigit, ParseInt, DigitOf;
    var value, prev := 0, 0;
    p := begin;
    ghost var e := DigitsEnd(s, begin);
    InsideDigits(s, begin, begin);
    NoDigitsYet(s, begin);
    while true
      invariant begin <= p < e && forall i :: begin <= i < p ==> IsDigit(s[i])
      invariant value == Number(s, begin, p) % WORD
      decreases e - p
    {
      prev := value;
      InsideDigits(s, begin, p);
      InsideDigits(s, begin, p + 1);
      WordStep(s, begin, p);
      value := (value * 10 + DigitOf(s[p])) % WORD;
      p := p + 1;
      if p == |s| || !IsDigit(s[p]) { break; }
    }
    InsideDigits(s, begin, p);
    Decided(s, begin, p, errorValue);
    WrappedNumber(s, begin, p, value, prev);
    var numDigits := p - begin;
    if numDigits <= 9 { return p, value; }
    r := if numDigits == 10 && prev * 10 + DigitOf(s[p - 1]) <= INT_MAX then value else errorValue;
  }

  // ----- the context -----

  class ParseContext {
    var nextArgId: int

    constructor ()
      ensures nextArgId == 0
    {
      nextArgId := 0;
    }

    method TakeNext() returns (r: Result<int>)
      modifies this
      ensures r == NextArgId(old(nextArgId))
      ensures nextArgId == if r.Ok? then old(nextArgId) + 1 else old(nextArgId)
    {
      if nextArgId < 0 { return Err("cannot switch from manual to automatic argument indexing"); }
      r := Ok(nextArgId);
      nextArgId := nextArgId + 1;
    }

    method Check(id: int) returns (r: Result<int>)
      modifies this
      ensures r.Ok? ==> r.value == id
      ensures match CheckArgId(old(nextArgId))
              case Ok(n) => r.Ok? && nextArgId == n
              case Err(m) => r == Err(m) && nextArgId == old(nextArgId)
    {
      if nextArgId > 0 { return Err("cannot switch from automatic to manual argument indexing"); }
      nextArgId := -1;
      r := Ok(id);
    }
  }

  // ----- argument ids -----

  method DoParseId(s: string, begin: nat) returns (r: Result<(nat, ArgId)>)
    requires begin < |s|
    ensures r == DoParseArgId(s, begin)
  {
    var c := s[begin];
    if IsDigit(c) {
      var p, index := begin, 0;
      if c != '0' {
        p, index := ParseNonnegativeInt(s, begin, INT_MAX);
      } else {
        p := p + 1;
      }
      if p == |s| || (s[p] != '}' && s[p] != ':') { return Err("invalid format string"); }
      return Ok((p, Index(index)));
    }
    if !IsNameStart(c) { return Err("invalid format string"); }
    var it := begin + 1;
    while it != |s| && (IsNameStart(s[it]) || IsDigit(s[it]))
      invariant begin < it <= |s| && NameEnd(s, it) == NameEnd(s, begin + 1)
    {
      it := it + 1;
    }
    r := Ok((it, Name(s[begin..it])));
  }

  method ParseId(s: string, begin: nat) returns (r: Result<(nat, ArgId)>)
    requires begin < |s|
    ensures r == ParseArgId(s, begin)
  {
    var c := s[begin];
    if c != '}' && c != ':' {
      r := DoParseId(s, begin);
    } else {
      r := Ok((begin, Auto));
    }
  }

  // ----- width and precision -----

  /** What a parser that changes the context agrees with. */
  predicate Same(r: Result<(nat, int, Ref)>, next: int, f: Result<Dynamic>) {
    match f
    case Err(m) => r == Err(m)
    case Ok(d) => r == Ok((d.pos, d.value, d.ref)) && next == d.next
  }

  method ParseWidthOrPrecision(ctx: ParseContext, s: string, begin: nat, value: int, ref: Ref)
    returns (r: Result<(nat, int, Ref)>)
    requires begin < |s|
    modifies ctx
    ensures Same(r, ctx.nextArgId, ParseDynamicSpec(s, Dynamic(begin, value, ref, old(ctx.nextArgId))))
  {
    if IsDigit(s[begin]) {
      var p, v := ParseNonnegativeInt(s, begin, -1);
      if v != -1 { return Ok((p, v, ref)); }
      return Err("number is too big");
    } else if s[begin] == '{' {
      var p, ref' := begin + 1, ref;
      if p != |s| {
        var id := ParseId(s, p);
        if id.Err? { return Err(id.message); }
        p := id.value.0;
        match id.value.1
        case Auto =>
          var n := ctx.TakeNext();
          if n.Err? { return Err(n.message); }
          ref' := ByIndex(n.value);
        case Index(i) =>
          var n := ctx.Check(i);
          if n.Err? { return Err(n.message); }
          ref' := ByIndex(i);
        case Name(name) =>
          ref' := ByName(name);
      }
      if p != |s| && s[p] == '}' { return Ok((p + 1, value, ref')); }
      return Err("invalid format string");
    }
    r := Ok((begin, value, ref));
  }

  method ParsePrecisionAt(ctx: ParseContext, s: string, begin: nat, value: int, ref: Ref)
    returns (r: Result<(nat, int, Ref)>)
    requires begin < |s|
    modifies ctx
    ensures Same(r, ctx.nextArgId, ParsePrecision(s, Dynamic(begin, value, ref, old(ctx.nextArgId))))
  {
    var p := begin + 1;
    if p == |s| || s[p] == '}' { return Err("invalid precision"); }
    r := ParseWidthOrPrecision(ctx, s, p, value, ref);
  }

  // ----- specifiers -----

  predicate SameScan(r: Result<(nat, Specs)>, next: int, f: Result<Scan>) {
    match f
    case Err(m) => r == Err(m)
    case Ok(x) => r == Ok((x.pos, x.specs)) && next == x.next
  }

  method ParseFormatSpecs(ctx: ParseContext, s: string, begin: nat, kind: Kind) returns (r: Result<(nat, Specs)>)
    requires begin <= |s|
    modifies ctx
    ensures SameScan(r, ctx.nextArgId, ParseSpecs(s, begin, kind, old(ctx.nextArgId)))
  {
    hide Rounds, Step;
    var pos, specs, phase, c := begin, DEFAULT_SPECS, Start, '\0';
    if |s| - pos > 1 {
      var next := ToAscii(s[pos + 1]);
      c := if ParseAlign(next).NoAlign? then ToAscii(s[pos]) else '\0';
    } else {
      if pos == |s| { return Ok((pos, specs)); }
      c := ToAscii(s[pos]);
    }
    ghost var goal := ParseSpecs(s, begin, kind, ctx.nextArgId);
    while true
      invariant pos < |s| && (c == s[pos] || c == '\0')
      invariant Rounds(s, kind, c, Scan(pos, specs, phase, ctx.nextArgId)) == goal
      decreases |s| - pos
    {
      ghost var x := Scan(pos, specs, phase, ctx.nextArgId);
      var round := Round(ctx, s, kind, c, pos, specs, phase);
      RoundsStep(s, kind, c, x);
      match round
      case Err(m) => return Err(m);
      case Ok((pos', specs', phase', done)) =>
        pos, specs, phase := pos', specs', phase';
        if done || pos == |s| { return Ok((pos, specs)); }
        c := ToAscii(s[pos]);
    }
  }

  lemma RoundsStep(s: string, kind: Kind, c: char, x: Scan)
    requires x.pos < |s| && (c == s[x.pos] || c == '\0')
    ensures match Step(s, kind, c, x)
            case Err(m) => Rounds(s, kind, c, x) == Err(m)
            case Ok(Done(y)) => Rounds(s, kind, c, x) == Ok(y)
            case Ok(More(y)) =>
              Rounds(s, kind, c, x) == if y.pos == |s| then Ok(y) else Rounds(s, kind, ToAscii(s[y.pos]), y)
  {
    hide Step;
  }

  predicate SameMove(r: Result<(nat, Specs, Phase, bool)>, next: int, f: Result<Move>) {
    match f
    case Err(m) => r == Err(m)
    case Ok(Done(y)) => r == Ok((y.pos, y.specs, y.phase, true)) && next == y.next
    case Ok(More(y)) => r == Ok((y.pos, y.specs, y.phase, false)) && next == y.next
  }

  method RoundWidth(ctx: ParseContext, s: string, pos: nat, specs: Specs, phase: Phase)
    returns (r: Result<(nat, Specs, Phase, bool)>)
    requires pos < |s| && (IsDigit(s[pos]) || s[pos] == '{')
    modifies ctx
    ensures SameMove(r, ctx.nextArgId, StepWidth(s, Scan(pos, specs, phase, old(ctx.nextArgId))))
  {
    hide ParseDynamicSpec;
    if !Enters(phase, Width, true) { return Err("invalid format specifier"); }
    var d := ParseWidthOrPrecision(ctx, s, pos, specs.width, specs.widthRef);
    if d.Err? { return Err(d.message); }
    r := Ok((d.value.0, specs.(width := d.value.1, widthRef := d.value.2), Width, false));
  }

  method RoundPrecision(ctx: ParseContext, s: string, kind: Kind, pos: nat, specs: Specs, phase: Phase)
    returns (r: Result<(nat, Specs, Phase, bool)>)
    requires pos < |s|
    modifies ctx
    ensures SameMove(r, ctx.nextArgId, StepPrecision(s, kind, Scan(pos, specs, phase, old(ctx.nextArgId))))
  {
    hide ParsePrecision;
    if !Enters(phase, Precision, kind.Floating() || kind.Text()) { return Err("invalid format specifier"); }
    var d := ParsePrecisionAt(ctx, s, pos, specs.precision, specs.precisionRef);
    if d.Err? { return Err(d.message); }
    r := Ok((d.value.0, specs.(precision := d.value.1, precisionRef := d.value.2), Precision, false));
  }

  method RoundFill(s: string, pos: nat, specs: Specs, phase: Phase, ghost next: int)
    returns (r: Result<(nat, Specs, Phase, bool)>)
    requires pos < |s|
    ensures SameMove(r, next, StepFill(s, Scan(pos, specs, phase, next)))
  {
    var fillEnd := pos + CodePointLength(s[pos]);
    if fillEnd >= |s| { return Err("invalid format specifier"); }
    if s[pos] == '{' { return Err("invalid fill character '{'"); }
    var align := ParseAlign(ToAscii(s[fillEnd]));
    if !Enters(phase, Aligning, !align.NoAlign?) { return Err("invalid format specifier"); }
    r := Ok((fillEnd + 1, specs.(fill := s[pos..fillEnd], align := align), Aligning, false));
  }

  /** The body of the loop: one character, or one width, precision or fill. */
  method Round(ctx: ParseContext, s: string, kind: Kind, c: char, begin: nat, specs0: Specs, phase0: Phase)
    returns (r: Result<(nat, Specs, Phase, bool)>)
    requires begin < |s| && (c == s[begin] || c == '\0')
    modifies ctx
    ensures SameMove(r, ctx.nextArgId, Step(s, kind, c, Scan(begin, specs0, phase0, old(ctx.nextArgId))))
  {
    hide PresentationOf, Enters, StepWidth, StepPrecision, StepFill, ParseAlign;
    var pos, specs, phase := begin, specs0, phase0;
    if c == '<' || c == '>' || c == '^' {
      if !Enters(phase, Aligning, true) { return Err("invalid format specifier"); }
      phase, specs, pos := Aligning, specs.(align := ParseAlign(c)), pos + 1;
    } else if c == '+' || c == '-' || c == ' ' {
      if !Enters(phase, Signing, kind.Signed() || kind.Floating()) { return Err("invalid format specifier"); }
      phase, specs, pos := Signing, specs.(sign := SignOf(c)), pos + 1;
    } else if c == '#' {
      if !Enters(phase, Hash, kind.Arithmetic()) { return Err("invalid format specifier"); }
      phase, specs, pos := Hash, specs.(alt := true), pos + 1;
    } else if c == '0' {
      if !Enters(phase, Zero, true) { return Err("invalid format specifier"); }
      if !kind.Arithmetic() { return Err("format specifier requires numeric argument"); }
      phase := Zero;
      if specs.align.NoAlign? {
        specs := specs.(align := Numeric);
        specs := specs.(fill := specs.fill[0 := '0']);
      }
      pos := pos + 1;
    } else if '1' <= c <= '9' || c == '{' {
      r := RoundWidth(ctx, s, pos, specs, phase);
      return;
    } else if c == '.' {
      r := RoundPrecision(ctx, s, kind, pos, specs, phase);
      return;
    } else if c == 'L' {
      if !Enters(phase, Locale, kind.Arithmetic()) { return Err("invalid format specifier"); }
      phase, specs, pos := Locale, specs.(localized := true), pos + 1;
    } else {
      match PresentationOf(c, kind)
      case Some((p, valid)) =>
        if !valid { return Err("invalid format specifier"); }
        return Ok((pos + 1, specs.(presentation := p), phase, true));
      case None =>
        if s[pos] == '}' { return Ok((pos, specs, phase, true)); }
        r := RoundFill(s, pos, specs, phase, ctx.nextArgId);
        return;
    }
    r := Ok((pos, specs, phase, false));
  }
}
