/**
 * The formatting handler and the two ways parse_format_string walks a format string: one loop for
 * short strings, two searches for long ones. Both are proved to compute Run on every string.
 */
module FormatStrategies {
  import opened Outcomes
  import opened FormatSyntax
  import opened FormatRun
  import opened FormatParser

  class FormatHandler {
    const world: World
    const context: ParseContext
    var text: string

    constructor (world: World)
      ensures this.world == world && fresh(context) && State() == Output("", 0)
    {
      this.world := world;
      context := new ParseContext();
      text := "";
    }

    ghost function State(): Output
      reads this, context
    {
      Output(text, context.nextArgId)
    }

    method OnText(s: string, from: nat, to: nat)
      requires from <= to <= |s|
      modifies this`text
      ensures text == old(text) + s[from..to]
    {
      text := text + s[from..to];
    }

    method OnArgId(id: ArgId) returns (r: Result<int>)
      modifies context
      ensures match TakeArg(world, id, old(context.nextArgId))
              case Err(m) => r == Err(m)
              case Ok((i, next)) => r == Ok(i) && context.nextArgId == next
    {
      match id
      case Auto => r := context.TakeNext();
      case Index(i) => r := context.Check(i);
      case Name(name) => r := IdByName(world, name);
    }

    method OnReplacementField(id: int) returns (r: Result<()>)
      modifies this`text
      ensures SameRun(r, State(), PlainField(world, id, old(State())))
    {
      var arg := GetArg(world, id);
      if arg.Err? { return Err(arg.message); }
      var written := world.write(arg.value);
      if written.Err? { return Err(written.message); }
      text := text + written.value;
      r := Ok(());
    }

    method OnFormatSpecs(id: int, s: string, begin: nat) returns (r: Result<nat>)
      requires begin <= |s|
      modifies this`text, context
      ensures SameField(r, State(), SpecField(world, s, begin, id, old(State())))
    {
      hide ParseSpecs;
      var arg := GetArg(world, id);
      if arg.Err? { return Err(arg.message); }
      var parsed := ParseFormatSpecs(context, s, begin, arg.value.kind);
      if parsed.Err? { return Err(parsed.message); }
      var (end, specs) := parsed.value;
      var resolved := Resolve(world, specs);
      if resolved.Err? { return Err(resolved.message); }
      if end == |s| || s[end] != '}' { return Err("missing '}' in format string"); }
      var written := WriteSpecs(world, arg.value, resolved.value);
      if written.Err? { return Err(written.message); }
      text := text + written.value;
      r := Ok(end);
    }
  }

  // ----- agreement of a run with its meaning -----

  predicate SameRun(r: Result<()>, state: Output, f: Result<Output>) {
    match f
    case Err(m) => r == Err(m)
    case Ok(o) => r == Ok(()) && state == o
  }

  predicate SameField(r: Result<nat>, state: Output, f: Result<(nat, Output)>) {
    match f
    case Err(m) => r == Err(m)
    case Ok((end, o)) => r == Ok(end) && state == o
  }

  method ParseReplacementField(h: FormatHandler, s: string, begin0: nat) returns (r: Result<nat>)
    requires begin0 < |s| && s[begin0] == '{'
    modifies h`text, h.context
    ensures SameField(r, h.State(), ReplacementField(h.world, s, begin0, old(h.State())))
  {
    hide SpecField, PlainField, TakeArg, DoParseArgId;
    var begin := begin0 + 1;
    if begin == |s| { return Err("invalid format string"); }
    if s[begin] == '}' {
      var id := h.OnArgId(Auto);
      if id.Err? { return Err(id.message); }
      var field := h.OnReplacementField(id.value);
      if field.Err? { return Err(field.message); }
    } else if s[begin] == '{' {
      h.OnText(s, begin, begin + 1);
    } else {
      var parsed := ParseId(s, begin);
      if parsed.Err? { return Err(parsed.message); }
      begin := parsed.value.0;
      var id := h.OnArgId(parsed.value.1);
      if id.Err? { return Err(id.message); }
      var c := if begin != |s| then s[begin] else '\0';
      if c == '}' {
        var field := h.OnReplacementField(id.value);
        if field.Err? { return Err(field.message); }
      } else if c == ':' {
        var end := h.OnFormatSpecs(id.value, s, begin + 1);
        if end.Err? { return Err(end.message); }
        begin := end.value;
        if begin == |s| || s[begin] != '}' { return Err("unknown format specifier"); }
      } else {
        return Err("missing '}' in format string");
      }
    }
    r := Ok(begin + 1);
  }

  // ----- the loop for short strings -----

  method ParseShort(h: FormatHandler, s: string) returns (r: Result<()>)
    modifies h`text, h.context
    ensures SameRun(r, h.State(), Run(h.world, s, 0, old(h.State())))
  {
    hide ReplacementField;
    var begin, p := 0, 0;
    ghost var goal := Run(h.world, s, 0, h.State());
    assert h.text + s[0..0] == h.text;
    while p != |s|
      invariant begin <= p <= |s|
      invariant Run(h.world, s, p, Output(h.text + s[begin..p], h.context.nextArgId)) == goal
      decreases |s| - p
    {
      var c := s[p];
      p := p + 1;
      if c == '{' {
        h.OnText(s, begin, p - 1);
        var end := ParseReplacementField(h, s, p - 1);
        if end.Err? { return Err(end.message); }
        begin, p := end.value, end.value;
        assert h.text + s[begin..p] == h.text;
      } else if c == '}' {
        if p == |s| || s[p] != '}' { return Err("unmatched '}' in format string"); }
        assert h.text + s[begin..p - 1] + "}" == h.text + s[begin..p];
        h.OnText(s, begin, p);
        p := p + 1;
        begin := p;
        assert h.text + s[begin..p] == h.text;
      } else {
        assert h.text + s[begin..p - 1] + [c] == h.text + s[begin..p];
      }
    }
    h.OnText(s, begin, |s|);
    r := Ok(());
  }

  // ----- two searches for long strings -----

  method Find(s: string, first: nat, last: nat, value: char) returns (out: Option<nat>)
    requires first <= last <= |s|
    ensures out.Some? ==> first <= out.value < last && s[out.value] == value
    ensures forall i :: first <= i < (if out.Some? then out.value else last) ==> s[i] != value
  {
    var i := first;
    while i != last
      invariant first <= i <= last
      invariant forall j :: first <= j < i ==> s[j] != value
    {
      if s[i] == value { return Some(i); }
      i := i + 1;
    }
    out := None;
  }

  /** The text of s[from..to], a piece without opening braces, or its unmatched closing brace. */
  function Literal(s: string, from: nat, to: nat): Result<string>
    requires from <= to <= |s|
    decreases |s| - from
  {
    if from == to then Ok("")
    else if s[from] != '}' then var rest :- Literal(s, from + 1, to); Ok([s[from]] + rest)
    else if from + 1 == to || s[from + 1] != '}' then Err("unmatched '}' in format string")
    else var rest :- Literal(s, from + 2, to); Ok("}" + rest)
  }

  function Prefixed(text: string, r: Result<string>): Result<string> {
    if r.Ok? then Ok(text + r.value) else r
  }

  lemma {:induction false} LiteralSkip(s: string, from: nat, p: nat, to: nat)
    requires from <= p <= to <= |s| && forall i :: from <= i < p ==> s[i] != '}'
    ensures Literal(s, from, to) == Prefixed(s[from..p], Literal(s, p, to))
    decreases p - from
  {
    if from < p {
      LiteralSkip(s, from + 1, p, to);
      if Literal(s, p, to).Ok? {
        var rest := Literal(s, p, to).value;
        assert [s[from]] + (s[from + 1..p] + rest) == s[from..p] + rest;
      }
    } else if Literal(s, p, to).Ok? {
      assert s[from..p] + Literal(s, p, to).value == Literal(s, p, to).value;
    }
  }

  /** A piece that ends before an opening brace or at the end of the string is run as literal text. */
  lemma {:induction false} LiteralRun(w: World, s: string, from: nat, to: nat, o: Output)
    requires from <= to <= |s| && (to < |s| ==> s[to] == '{') && forall i :: from <= i < to ==> s[i] != '{'
    ensures Literal(s, from, to).Err? ==> Run(w, s, from, o) == Err(Literal(s, from, to).message)
    ensures Literal(s, from, to).Ok? ==>
              Run(w, s, from, o) == Run(w, s, to, o.(text := o.text + Literal(s, from, to).value))
    decreases |s| - from
  {
    hide ReplacementField;
    if from == to {
      assert o.text + "" == o.text;
    } else if s[from] != '}' {
      LiteralRun(w, s, from + 1, to, o.(text := o.text + [s[from]]));
      if Literal(s, from + 1, to).Ok? {
        var rest := Literal(s, from + 1, to).value;
        assert o.text + [s[from]] + rest == o.text + ([s[from]] + rest);
      }
    } else if from + 1 < to && s[from + 1] == '}' {
      LiteralRun(w, s, from + 2, to, o.(text := o.text + "}"));
      if Literal(s, from + 2, to).Ok? {
        var rest := Literal(s, from + 2, to).value;
        assert o.text + "}" + rest == o.text + ("}" + rest);
      }
    }
  }

  lemma PrefixedTwice(a: string, b: string, r: Result<string>)
    ensures Prefixed(a, Prefixed(b, r)) == Prefixed(a + b, r)
    ensures Prefixed("", r) == r
  {
    if r.Ok? {
      assert a + (b + r.value) == a + b + r.value;
      assert "" + r.value == r.value;
    }
  }

  /** Up to the first of two closing braces, and past the second. */
  lemma LiteralPair(s: string, from: nat, p: nat, to: nat)
    requires from <= p && p + 1 < to <= |s| && s[p] == '}' && s[p + 1] == '}'
    requires forall i :: from <= i < p ==> s[i] != '}'
    ensures Literal(s, from, to) == Prefixed(s[from..p + 1], Literal(s, p + 2, to))
  {
    LiteralSkip(s, from, p, to);
    assert Literal(s, p, to) == Prefixed("}", Literal(s, p + 2, to));
    PrefixedTwice(s[from..p], "}", Literal(s, p + 2, to));
    assert s[from..p] + "}" == s[from..p + 1];
  }

  lemma LiteralRest(s: string, from: nat, to: nat)
    requires from <= to <= |s| && forall i :: from <= i < to ==> s[i] != '}'
    ensures Literal(s, from, to) == Ok(s[from..to])
  {
    LiteralSkip(s, from, to, to);
    assert s[from..to] + "" == s[from..to];
  }

  lemma LiteralUnmatched(s: string, from: nat, p: nat, to: nat)
    requires from <= p < to <= |s| && s[p] == '}' && (p + 1 == to || s[p + 1] != '}')
    requires forall i :: from <= i < p ==> s[i] != '}'
    ensures Literal(s, from, to) == Err("unmatched '}' in format string")
  {
    LiteralSkip(s, from, p, to);
  }

  lemma TextGrows(text: string, done: string, more: string, rest: Result<string>)
    ensures text + done + more == text + (done + more) && text + "" == text
    ensures Prefixed(done, Ok(more)) == Ok(done + more)
    ensures Prefixed(done, rest).Err? ==> rest.Err? && Prefixed(done, rest) == rest
    ensures rest.Err? ==> Prefixed(done, rest) == rest
  {
  }

  /** Text without opening braces, in pieces up to each doubled closing brace. */
  method Write(h: FormatHandler, s: string, from0: nat, to: nat) returns (r: Result<()>)
    requires from0 <= to <= |s|
    modifies h`text
    ensures Literal(s, from0, to).Err? ==> r == Err(Literal(s, from0, to).message)
    ensures Literal(s, from0, to).Ok? ==> r == Ok(()) && h.text == old(h.text) + Literal(s, from0, to).value
  {
    hide *;
    ghost var t0, done := h.text, "";
    TextGrows(t0, done, "", Ok(""));
    if from0 == to {
      LiteralRest(s, from0, to);
      assert s[from0..to] == "";
      return Ok(());
    }
    var from := from0;
    PrefixedTwice("", "", Literal(s, from, to));
    while true
      invariant from0 <= from <= to && h.text == t0 + done
      invariant Literal(s, from0, to) == Prefixed(done, Literal(s, from, to))
      decreases |s| - from
    {
      var found := Find(s, from, to, '}');
      if found.None? {
        LiteralRest(s, from, to);
        TextGrows(t0, done, s[from..to], Literal(s, from, to));
        h.OnText(s, from, to);
        return Ok(());
      }
      var p := found.value + 1;
      TextGrows(t0, done, s[from..p], Literal(s, from, to));
      if p == to || s[p] != '}' {
        LiteralUnmatched(s, from, p - 1, to);
        return Err("unmatched '}' in format string");
      }
      h.OnText(s, from, p);
      LiteralPair(s, from, p - 1, to);
      PrefixedTwice(done, s[from..p], Literal(s, p + 1, to));
      done := done + s[from..p];
      from := p + 1;
    }
  }

  method ParseLong(h: FormatHandler, s: string) returns (r: Result<()>)
    modifies h`text, h.context
    ensures SameRun(r, h.State(), Run(h.world, s, 0, old(h.State())))
  {
    hide ReplacementField, Literal;
    var begin := 0;
    ghost var goal := Run(h.world, s, 0, h.State());
    while begin != |s|
      invariant begin <= |s| && Run(h.world, s, begin, h.State()) == goal
      decreases |s| - begin
    {
      ghost var o := h.State();
      var p := begin;
      if s[begin] != '{' {
        var found := Find(s, begin + 1, |s|, '{');
        if found.None? {
          LiteralRun(h.world, s, begin, |s|, o);
          r := Write(h, s, begin, |s|);
          return;
        }
        p := found.value;
      }
      LiteralRun(h.world, s, begin, p, o);
      var written := Write(h, s, begin, p);
      if written.Err? { return Err(written.message); }
      var end := ParseReplacementField(h, s, p);
      if end.Err? { return Err(end.message); }
      begin := end.value;
    }
    r := Ok(());
  }

  // ----- the parser and the formatter -----

  method ParseFormatString(h: FormatHandler, s: string) returns (r: Result<()>)
    modifies h`text, h.context
    ensures SameRun(r, h.State(), Run(h.world, s, 0, old(h.State())))
  {
    if |s| < 32 {
      r := ParseShort(h, s);
    } else {
      r := ParseLong(h, s);
    }
  }

  /** Formatting a string: the output or the error that Format gives it. */
  method VformatTo(w: World, s: string) returns (r: Result<string>)
    ensures r == Format(w, s)
  {
    if |s| == 2 && s[0] == '{' && s[1] == '}' {
      assert s == "{}";
      var arg := GetArg(w, 0);
      if arg.Err? { return Err(arg.message); }
      return w.write(arg.value);
    }
    var h := new FormatHandler(w);
    var parsed := ParseFormatString(h, s);
    r := if parsed.Err? then Err(parsed.message) else Ok(h.text);
  }
}
