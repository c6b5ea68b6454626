/**
 * What a format string means: the output and the argument counter after each replacement field,
 * read from left to right, with the error that stops it.
 */
module FormatRun {
  import opened Outcomes
  import opened FormatSyntax

  /** An argument: its name if it has one, its kind, and its number if it is an integer. */
  datatype Arg = Arg(name: Option<string>, kind: Kind, number: int)

  /** The arguments, and how one value is written without and with specifiers. */
  datatype World = World(args: seq<Arg>, write: Arg -> Result<string>, writeWith: (Arg, Specs) -> Result<string>)

  datatype Output = Output(text: string, next: int)

  // ----- arguments -----

  function GetArg(w: World, id: int): Result<Arg> {
    if 0 <= id < |w.args| then Ok(w.args[id]) else Err("argument not found")
  }

  /** The table of names, in the order of the arguments, each with the position it stands for. */
  function NamedArgs(args: seq<Arg>, from: nat): seq<(string, nat)>
    requires from <= |args|
    decreases |args| - from
  {
    if from == |args| then []
    else if args[from].name.Some? then [(args[from].name.value, from)] + NamedArgs(args, from + 1)
    else NamedArgs(args, from + 1)
  }

  /** The position of the first entry with this name. */
  function GetId(named: seq<(string, nat)>, name: string): Result<int> {
    if named == [] then Err("argument not found")
    else if named[0].0 == name then Ok(named[0].1)
    else GetId(named[1..], name)
  }

  function IdByName(w: World, name: string): Result<int> { GetId(NamedArgs(w.args, 0), name) }

  const WORD64: int := 0x1_0000_0000_0000_0000

  /** A width or a precision taken from an argument, which is first cut to 64 bits. */
  function DynamicValue(arg: Arg, negative: string, notInteger: string): Result<int> {
    if !arg.kind.Integer() then Err(notInteger)
    else if arg.number < 0 then Err(negative)
    else if arg.number % WORD64 > INT_MAX then Err("number is too big")
    else Ok(arg.number % WORD64)
  }

  function HandleDynamic(w: World, value: int, ref: Ref, negative: string, notInteger: string): Result<int> {
    match ref
    case NoRef => Ok(value)
    case ByIndex(i) => var arg :- GetArg(w, i); DynamicValue(arg, negative, notInteger)
    case ByName(name) =>
      var id :- IdByName(w, name);
      var arg :- GetArg(w, id);
      DynamicValue(arg, negative, notInteger)
  }

  function Resolve(w: World, specs: Specs): Result<Specs> {
    var width :- HandleDynamic(w, specs.width, specs.widthRef, "negative width", "width is not integer");
    var precision :-
      HandleDynamic(w, specs.precision, specs.precisionRef, "negative precision", "precision is not integer");
    Ok(specs.(width := width, precision := precision))
  }

  // ----- fields -----

  function WriteSpecs(w: World, arg: Arg, specs: Specs): Result<string> {
    if arg.kind.CharKind? && CharSpecsRejected(specs) then Err("invalid format specifier for char")
    else w.writeWith(arg, specs)
  }

  function PlainField(w: World, id: int, o: Output): Result<Output> {
    var arg :- GetArg(w, id);
    var text :- w.write(arg);
    Ok(o.(text := o.text + text))
  }

  /** A field with specifiers from pos on: where they end, and the output with the field. */
  function SpecField(w: World, s: string, pos: nat, id: int, o: Output): (r: Result<(nat, Output)>)
    requires pos <= |s|
    ensures r.Ok? ==> pos <= r.value.0 < |s| && s[r.value.0] == '}'
  {
    var arg :- GetArg(w, id);
    var scan :- ParseSpecs(s, pos, arg.kind, o.next);
    var specs :- Resolve(w, scan.specs);
    if scan.pos == |s| || s[scan.pos] != '}' then Err("missing '}' in format string") else
    var text :- WriteSpecs(w, arg, specs);
    Ok((scan.pos, Output(o.text + text, scan.next)))
  }

  /** The position an argument id stands for, and the counter after it. */
  function TakeArg(w: World, id: ArgId, next: int): Result<(int, int)> {
    match id
    case Auto => var n :- NextArgId(next); Ok((n, n + 1))
    case Index(i) => var n :- CheckArgId(next); Ok((i, n))
    case Name(name) => var i :- IdByName(w, name); Ok((i, next))
  }

  /** One replacement field or escaped brace, from its opening brace on. */
  function ReplacementField(w: World, s: string, pos: nat, o: Output): (r: Result<(nat, Output)>)
    requires pos < |s| && s[pos] == '{'
    ensures r.Ok? ==> pos < r.value.0 <= |s|
  {
    if pos + 1 == |s| then Err("invalid format string")
    else if s[pos + 1] == '{' then Ok((pos + 2, o.(text := o.text + "{")))
    else FieldBody(w, s, pos + 1, o)
  }

  function FieldBody(w: World, s: string, pos: nat, o: Output): (r: Result<(nat, Output)>)
    requires pos < |s|
    ensures r.Ok? ==> pos < r.value.0 <= |s|
  {
    var (end, argId) :- ParseArgId(s, pos);
    var (id, next) :- TakeArg(w, argId, o.next);
    if end < |s| && s[end] == '}' then
      var o' :- PlainField(w, id, o.(next := next)); Ok((end + 1, o'))
    else if end < |s| && s[end] == ':' then
      var (specsEnd, o') :- SpecField(w, s, end + 1, id, o.(next := next)); Ok((specsEnd + 1, o'))
    else
      Err("missing '}' in format string")
  }

  /** The rest of the format string from pos on. */
  function Run(w: World, s: string, pos: nat, o: Output): Result<Output>
    requires pos <= |s|
    decreases |s| - pos
  {
    if pos == |s| then Ok(o)
    else if s[pos] == '{' then
      var (end, o') :- ReplacementField(w, s, pos, o);
      Run(w, s, end, o')
    else if s[pos] == '}' then
      if pos + 1 == |s| || s[pos + 1] != '}' then Err("unmatched '}' in format string")
      else Run(w, s, pos + 2, o.(text := o.text + "}"))
    else Run(w, s, pos + 1, o.(text := o.text + [s[pos]]))
  }

  /** Formatting, with its shortcut for a single plain field. */
  function Format(w: World, s: string): Result<string> {
    if s == "{}" then
      var arg :- GetArg(w, 0);
      w.write(arg)
    else
      var o :- Run(w, s, 0, Output("", 0));
      Ok(o.text)
  }

  /** The shortcut does what the general path does. */
  lemma ShortcutAgrees(w: World)
    ensures Run(w, "{}", 0, Output("", 0)).Ok? <==> Format(w, "{}").Ok?
    ensures Format(w, "{}").Ok? ==> Run(w, "{}", 0, Output("", 0)).value.text == Format(w, "{}").value
    ensures Format(w, "{}").Err? ==> Run(w, "{}", 0, Output("", 0)) == Err(Format(w, "{}").message)
  {
    var s, o := "{}", Output("", 1);
    assert ParseArgId(s, 1) == Ok((1, Auto)) && TakeArg(w, Auto, 0) == Ok((0, 1));
    var field := PlainField(w, 0, o);
    assert ReplacementField(w, s, 0, Output("", 0)) == if field.Ok? then Ok((2, field.value)) else Err(field.message);
    if field.Ok? {
      var text := w.write(w.args[0]).value;
      assert "" + text == text;
    }
  }

  // ----- text -----

  predicate IsText(c: char) { c != '{' && c != '}' }

  /** A run of plain text goes to the output as it stands. */
  lemma {:induction false} PlainRun(w: World, s: string, pos: nat, end: nat, o: Output)
    requires pos <= end <= |s| && forall i :: pos <= i < end ==> IsText(s[i])
    ensures Run(w, s, pos, o) == Run(w, s, end, o.(text := o.text + s[pos..end]))
    decreases end - pos
  {
    if pos < end {
      PlainRun(w, s, pos + 1, end, o.(text := o.text + [s[pos]]));
      assert o.text + [s[pos]] + s[pos + 1..end] == o.text + s[pos..end];
    } else {
      assert o.text + s[pos..end] == o.text;
    }
  }

  function Doubled(t: string): string {
    if t == [] then [] else if IsText(t[0]) then [t[0]] + Doubled(t[1..]) else [t[0], t[0]] + Doubled(t[1..])
  }

  /** Text with its braces doubled is formatted to itself, whatever the arguments. */
  lemma DoubledIsLiteral(w: World, t: string)
    ensures Format(w, Doubled(t)) == Ok(t)
  {
    DoubledRun(w, [], t, Output("", 0));
    assert [] + Doubled(t) == Doubled(t) && "" + t == t;
    if t != [] && !IsText(t[0]) { assert Doubled(t)[1] == t[0]; }
    assert Doubled(t) != "{}" by {
      if t != [] { assert Doubled(t)[0] == t[0]; }
    }
  }

  lemma {:induction false} DoubledRun(w: World, before: string, t: string, o: Output)
    ensures Run(w, before + Doubled(t), |before|, o) == Ok(o.(text := o.text + t))
    decreases |t|
  {
    var s := before + Doubled(t);
    if t != [] {
      var c := if IsText(t[0]) then [t[0]] else [t[0], t[0]];
      var o' := o.(text := o.text + [t[0]]);
      DoubledRun(w, before + c, t[1..], o');
      assert before + c + Doubled(t[1..]) == s;
      assert s[|before|] == t[0] && (|c| == 2 ==> s[|before| + 1] == t[0]);
      assert o.text + [t[0]] + t[1..] == o.text + t;
      assert "{" == ['{'] && "}" == ['}'];
      assert Run(w, s, |before|, o) == Run(w, s, |before + c|, o');
    } else {
      assert s == before;
      assert o.text + t == o.text;
    }
  }
}
