/** Every format string the interpreter accepts is compiled to a tree with the same output. */
module CompiledAgrees {
  import opened Outcomes
  import opened FormatSyntax
  import opened FormatRun
  import opened CompiledFormat

  // ----- the argument counter within specifiers -----

  /** A counter that is manual in one parse and not yet automatic in the other. */
  predicate Frees(strict: int, loose: int) { strict == -1 && -1 <= loose <= 0 }

  lemma ReferenceCounter(s: string, d: Dynamic, next: int)
    requires d.pos <= |s| && ParseReference(s, d).Ok?
    ensures d.next > 0 ==> ParseReference(s, d).value.next >= d.next
    ensures Frees(d.next, next) ==>
              var r := ParseReference(s, d.(next := next));
              r.Ok? && Frees(ParseReference(s, d).value.next, r.value.next) &&
              r.value == ParseReference(s, d).value.(next := r.value.next)
  {
    hide ParseArgId;
  }

  lemma DynamicCounter(s: string, d: Dynamic, next: int)
    requires d.pos < |s| && ParseDynamicSpec(s, d).Ok?
    ensures d.next > 0 ==> ParseDynamicSpec(s, d).value.next >= d.next
    ensures Frees(d.next, next) ==>
              var r := ParseDynamicSpec(s, d.(next := next));
              r.Ok? && Frees(ParseDynamicSpec(s, d).value.next, r.value.next) &&
              r.value == ParseDynamicSpec(s, d).value.(next := r.value.next)
  {
    hide ParseReference, ParseInt;
    if s[d.pos] == '{' { ReferenceCounter(s, d.(pos := d.pos + 1), next); }
  }

  /** An automatic counter only grows. */
  lemma StepGrows(s: string, kind: Kind, c: char, x: Scan)
    requires x.pos < |s| && (c == s[x.pos] || c == '\0') && Step(s, kind, c, x).Ok? && x.next > 0
    ensures Step(s, kind, c, x).value.scan.next >= x.next
  {
    hide StepWidth, StepPrecision, StepFill, PresentationOf, Enters, ZeroFilled, ParseAlign;
    if '1' <= c <= '9' || c == '{' {
      WidthGrows(s, x);
    } else if c == '.' {
      PrecisionGrows(s, kind, x);
    } else {
      FillKeepsCounter(s, x, x.next);
    }
  }

  /** A fill is read the same whatever the counter is. */
  lemma FillKeepsCounter(s: string, x: Scan, next: int)
    requires x.pos < |s|
    ensures var r, r' := StepFill(s, x), StepFill(s, x.(next := next));
            if r.Ok? then r' == Ok(More(r.value.scan.(next := next))) && r.value.scan.next == x.next else r' == r
  {
  }

  lemma WidthGrows(s: string, x: Scan)
    requires x.pos < |s| && (IsDigit(s[x.pos]) || s[x.pos] == '{') && StepWidth(s, x).Ok? && x.next > 0
    ensures StepWidth(s, x).value.scan.next >= x.next
  {
    hide ParseDynamicSpec;
    DynamicCounter(s, Dynamic(x.pos, x.specs.width, x.specs.widthRef, x.next), 0);
  }

  lemma PrecisionGrows(s: string, kind: Kind, x: Scan)
    requires x.pos < |s| && StepPrecision(s, kind, x).Ok? && x.next > 0
    ensures StepPrecision(s, kind, x).value.scan.next >= x.next
  {
    hide ParseDynamicSpec;
    DynamicCounter(s, Dynamic(x.pos + 1, x.specs.precision, x.specs.precisionRef, x.next), 0);
  }

  lemma {:induction false} RoundsGrow(s: string, kind: Kind, c: char, x: Scan)
    requires x.pos < |s| && (c == s[x.pos] || c == '\0') && Rounds(s, kind, c, x).Ok? && x.next > 0
    ensures Rounds(s, kind, c, x).value.next >= x.next
    decreases |s| - x.pos
  {
    hide Step;
    StepGrows(s, kind, c, x);
    match Step(s, kind, c, x)
    case Ok(More(y)) => if y.pos < |s| { RoundsGrow(s, kind, ToAscii(s[y.pos]), y); }
    case _ =>
  }

  /** Two scans that differ at most in such a counter. */
  predicate Looser(x: Scan, y: Scan) { Frees(x.next, y.next) && y == x.(next := y.next) }

  predicate LooserMove(a: Result<Move>, b: Result<Move>) {
    && a.Ok? && b.Ok? && a.value.More? == b.value.More?
    && Looser(a.value.scan, b.value.scan)
  }

  lemma StepLooser(s: string, kind: Kind, c: char, x: Scan, y: Scan)
    requires x.pos < |s| && (c == s[x.pos] || c == '\0') && Step(s, kind, c, x).Ok? && Looser(x, y)
    ensures LooserMove(Step(s, kind, c, x), Step(s, kind, c, y))
  {
    hide StepWidth, StepPrecision, StepFill, PresentationOf, Enters, ZeroFilled, ParseAlign;
    if '1' <= c <= '9' || c == '{' {
      WidthLooser(s, x, y);
    } else if c == '.' {
      PrecisionLooser(s, kind, x, y);
    } else {
      FillKeepsCounter(s, x, y.next);
    }
  }

  lemma WidthLooser(s: string, x: Scan, y: Scan)
    requires x.pos < |s| && (IsDigit(s[x.pos]) || s[x.pos] == '{') && StepWidth(s, x).Ok? && Looser(x, y)
    ensures LooserMove(StepWidth(s, x), StepWidth(s, y))
  {
    hide ParseDynamicSpec;
    DynamicCounter(s, Dynamic(x.pos, x.specs.width, x.specs.widthRef, x.next), y.next);
  }

  lemma PrecisionLooser(s: string, kind: Kind, x: Scan, y: Scan)
    requires x.pos < |s| && StepPrecision(s, kind, x).Ok? && Looser(x, y)
    ensures LooserMove(StepPrecision(s, kind, x), StepPrecision(s, kind, y))
  {
    hide ParseDynamicSpec;
    DynamicCounter(s, Dynamic(x.pos + 1, x.specs.precision, x.specs.precisionRef, x.next), y.next);
  }

  lemma {:induction false} RoundsLooser(s: string, kind: Kind, c: char, x: Scan, y: Scan)
    requires x.pos < |s| && (c == s[x.pos] || c == '\0') && Rounds(s, kind, c, x).Ok? && Looser(x, y)
    ensures Rounds(s, kind, c, y).Ok? && Looser(Rounds(s, kind, c, x).value, Rounds(s, kind, c, y).value)
    decreases |s| - x.pos
  {
    hide Step;
    StepLooser(s, kind, c, x, y);
    match Step(s, kind, c, x)
    case Ok(More(x')) =>
      if x'.pos < |s| { RoundsLooser(s, kind, ToAscii(s[x'.pos]), x', Step(s, kind, c, y).value.scan); }
    case _ =>
  }

  /** The specifiers the interpreter reads are those the compiler reads, with the same counter after them. */
  lemma SpecsAgree(s: string, pos: nat, kind: Kind, next: int)
    requires pos <= |s| && (next > 0 || next == MANUAL) && ParseSpecs(s, pos, kind, next).Ok?
    ensures var scan := ParseSpecs(s, pos, kind, next).value;
            ParseSpecsOf(s, pos, kind, if next == MANUAL then 0 else next) ==
              if kind.CharKind? && CharSpecsRejected(scan.specs) then Err("invalid format specifier for char")
              else Ok(scan)
    ensures var scan := ParseSpecs(s, pos, kind, next).value; scan.next > 0 || scan.next == MANUAL
  {
    hide Rounds;
    var x := Scan(pos, DEFAULT_SPECS, Start, next);
    if pos < |s| {
      if next > 0 {
        RoundsGrow(s, kind, FirstChar(s, pos), x);
      } else {
        RoundsLooser(s, kind, FirstChar(s, pos), x, x.(next := 0));
      }
    }
  }

  // ----- the induction along the format string -----

  /** A compiled rest that is left to the interpreter or writes what follows before. */
  ghost predicate Writes(w: World, c: Compiled, before: string, after: string) {
    c.Unknown? || (c.Unit? && Execute(w, c.tree).Ok? && before + Execute(w, c.tree).value == after)
  }

  lemma {:induction false} TailAgrees(w: World, s: string, pos: nat, o: Output, head: Tree, before: string,
                                      text: string)
    requires pos <= |s| && o.next >= -1 && Run(w, s, pos, o).Ok?
    requires Execute(w, head) == Ok(text) && o.text == before + text
    ensures Writes(w, ParseTail(Kinds(w.args), s, pos, o.next, head), before, Run(w, s, pos, o).value.text)
    decreases |s| - pos, 1
  {
    if pos < |s| {
      CompileAgrees(w, s, pos, o);
      var c := Compile(Kinds(w.args), s, pos, o.next);
      if c.Unit? {
        var rest := Execute(w, c.tree).value;
        assert before + text + rest == before + (text + rest);
        assert Execute(w, Concat(head, c.tree)) == Ok(text + rest);
      }
    }
  }

  /** What the compiler makes of the rest of an accepted format string writes the interpreter's output. */
  lemma {:induction false} CompileAgrees(w: World, s: string, pos: nat, o: Output)
    requires pos < |s| && o.next >= -1 && Run(w, s, pos, o).Ok?
    ensures Writes(w, Compile(Kinds(w.args), s, pos, o.next), o.text, Run(w, s, pos, o).value.text)
    decreases |s| - pos, 0
  {
    hide ParseTail, FieldThenTail, CompileExplicit, FieldBody, TextEnd, Execute, Writes;
    if s[pos] == '{' {
      if s[pos + 1] == '{' {
        TextWrites(w, "{");
        TailAgrees(w, s, pos + 2, o.(text := o.text + "{"), Text("{"), o.text, "{");
      } else {
        var (end, o') := FieldBody(w, s, pos + 1, o).value;
        FieldAgrees(w, s, pos, o, end, o');
      }
    } else if s[pos] == '}' {
      TextWrites(w, "}");
      TailAgrees(w, s, pos + 2, o.(text := o.text + "}"), Text("}"), o.text, "}");
    } else {
      var end := TextEnd(s, pos + 1);
      PlainRun(w, s, pos, end, o);
      var head := if end - pos > 1 then Text(s[pos..end]) else CodeUnit(s[pos]);
      assert end == pos + 1 ==> s[pos..end] == [s[pos]];
      TextWrites(w, s[pos..end]);
      TailAgrees(w, s, end, o.(text := o.text + s[pos..end]), head, o.text, s[pos..end]);
    }
  }

  /** What the compiler makes of a field whose argument the interpreter finds. */
  lemma CompiledField(w: World, s: string, pos: nat, next: int, q: nat, argId: ArgId, taken: (int, int))
    requires pos + 1 < |s| && s[pos] == '{' && s[pos + 1] != '{' && next >= -1
    requires ParseArgId(s, pos + 1) == Ok((q, argId)) && TakeArg(w, argId, next) == Ok(taken)
    requires q < |s| && (s[q] == '}' || s[q] == ':')
    requires 0 <= taken.0 < |w.args|
    ensures Compile(Kinds(w.args), s, pos, next) ==
              if !argId.Name? then FieldThenTail(Kinds(w.args), s, q, taken.0, taken.1)
              else if s[q] == '}' then ParseTail(Kinds(w.args), s, q + 1, next, NamedField(argId.name))
              else Unknown
    ensures !argId.Name? ==> taken.1 > 0 || taken.1 == MANUAL
    ensures argId.Name? ==> taken.1 == next
  {
    hide FieldThenTail, ParseTail, IdByName, NameEnd, ParseInt;
  }

  lemma {:induction false} FieldAgrees(w: World, s: string, pos: nat, o: Output, end: nat, o': Output)
    requires pos + 1 < |s| && s[pos] == '{' && s[pos + 1] != '{' && o.next >= -1
    requires FieldBody(w, s, pos + 1, o) == Ok((end, o')) && pos + 1 < end <= |s| && Run(w, s, end, o').Ok?
    ensures Writes(w, Compile(Kinds(w.args), s, pos, o.next), o.text, Run(w, s, end, o').value.text)
    decreases |s| - pos - 1, 4
  {
    hide ParseTail, FieldThenTail, Run, Execute, Writes, PlainField, SpecField, Compile, ParseArgId, IdByName;
    var (q, argId) := ParseArgId(s, pos + 1).value;
    var (id, next) := TakeArg(w, argId, o.next).value;
    FieldFound(w, s, q, id, o.(next := next));
    CompiledField(w, s, pos, o.next, q, argId, (id, next));
    if argId.Name? && s[q] == '}' {
      NamedWrites(w, argId.name, id, o, o');
      TailAgrees(w, s, end, o', NamedField(argId.name), o.text, Execute(w, NamedField(argId.name)).value);
    } else if argId.Name? {
      UnknownWrites(w, o.text, Run(w, s, end, o').value.text);
    } else {
      IndexedAgrees(w, s, q, o, id, next, end, o');
    }
  }

  /** A written field has an argument. */
  lemma FieldFound(w: World, s: string, q: nat, id: int, o: Output)
    requires q < |s|
    ensures PlainField(w, id, o).Ok? || SpecField(w, s, q + 1, id, o).Ok? ==> 0 <= id < |w.args|
  {
    hide ParseSpecs, Resolve;
  }

  /** A field whose argument is known by its position. */
  lemma {:induction false} IndexedAgrees(
      w: World, s: string, q: nat, o: Output, id: int, next: int, end: nat, o': Output)
    requires q < end <= |s| && (next > 0 || next == MANUAL)
    requires s[q] == '}' ==> PlainField(w, id, o.(next := next)) == Ok(o') && end == q + 1
    requires s[q] != '}' ==> s[q] == ':' && SpecField(w, s, q + 1, id, o.(next := next)) == Ok((end - 1, o'))
    requires Run(w, s, end, o').Ok?
    ensures 0 <= id < |w.args|
    ensures Writes(w, FieldThenTail(Kinds(w.args), s, q, id, next), o.text, Run(w, s, end, o').value.text)
    decreases |s| - q, 3
  {
    hide ParseTail, Run, Execute, Writes, ParseSpecs, ParseSpecsOf, Resolve;
    if s[q] == '}' {
      var text := w.write(w.args[id]).value;
      FieldWrites(w, id);
      TailAgrees(w, s, end, o', Field(id), o.text, text);
    } else {
      var arg := w.args[id];
      SpecsAgree(s, q + 1, arg.kind, next);
      var scan := ParseSpecs(s, q + 1, arg.kind, next).value;
      var text := WriteSpecs(w, arg, Resolve(w, scan.specs).value).value;
      ResolvedWrites(w, id, scan.specs);
      TailAgrees(w, s, end, o', SpecsField(id, scan.specs), o.text, text);
    }
  }

  /** Resolving changes neither what a character argument rejects nor specifiers without references. */
  lemma ResolvedWrites(w: World, id: nat, specs: Specs)
    requires Resolve(w, specs).Ok? && id < |w.args|
    ensures CharSpecsRejected(Resolve(w, specs).value) == CharSpecsRejected(specs)
    ensures Execute(w, SpecsField(id, specs)) == WriteSpecs(w, w.args[id], Resolve(w, specs).value)
  {
  }

  // ----- names -----

  /** Searching the table of names and trying the arguments in turn find the same argument. */
  lemma NamedAgrees(w: World, name: string)
    requires IdByName(w, name).Ok?
    ensures 0 <= IdByName(w, name).value < |w.args|
    ensures TryNamed(w, name, 0) == w.write(w.args[IdByName(w, name).value])
  {
    NamedFrom(w, name, 0);
  }

  lemma {:induction false} NamedFrom(w: World, name: string, from: nat)
    requires from <= |w.args| && GetId(NamedArgs(w.args, from), name).Ok?
    ensures 0 <= GetId(NamedArgs(w.args, from), name).value < |w.args|
    ensures TryNamed(w, name, from) == w.write(w.args[GetId(NamedArgs(w.args, from), name).value])
    decreases |w.args| - from
  {
    if from < |w.args| && w.args[from].name != Some(name) {
      NamedFrom(w, name, from + 1);
      assert w.args[from].name.Some? ==> NamedArgs(w.args, from)[1..] == NamedArgs(w.args, from + 1);
    }
  }

  lemma TextWrites(w: World, data: string)
    ensures Execute(w, Text(data)) == Ok(data)
    ensures |data| == 1 ==> Execute(w, CodeUnit(data[0])) == Ok(data)
  {
    assert |data| == 1 ==> [data[0]] == data;
  }

  lemma FieldWrites(w: World, id: nat)
    requires id < |w.args|
    ensures Execute(w, Field(id)) == w.write(w.args[id])
  {
  }

  lemma UnknownWrites(w: World, before: string, after: string)
    ensures Writes(w, Unknown, before, after)
  {
  }

  lemma EmptyRun(w: World, o: Output)
    ensures Run(w, "", 0, o) == Ok(o)
  {
  }

  lemma NamedWrites(w: World, name: string, id: int, o: Output, o': Output)
    requires IdByName(w, name) == Ok(id) && PlainField(w, id, o) == Ok(o')
    ensures Execute(w, NamedField(name)).Ok?
    ensures o' == o.(text := o.text + Execute(w, NamedField(name)).value)
  {
    hide IdByName, TryNamed;
    NamedAgrees(w, name);
  }

  // ----- the results -----

  /** Compiled formatting agrees with the interpreter on every format string the interpreter accepts. */
  lemma CompiledFormatAgrees(w: World, s: string)
    requires Format(w, s).Ok?
    ensures FormatCompiled(w, s) == Format(w, s)
  {
    hide Compile, Run;
    if s == "" {
      EmptyRun(w, Output("", 0));
    } else if s != "{}" {
      CompileAgrees(w, s, 0, Output("", 0));
      var c := Compile(Kinds(w.args), s, 0, 0);
      if c.Unit? {
        assert "" + Execute(w, c.tree).value == Execute(w, c.tree).value;
      }
    }
  }

  // ----- what the compiler accepts beyond the interpreter -----

  /** The compiler does not look at what follows a closing brace: the character after it is lost. */
  lemma CompilerDropsAfterBrace(w: World)
    ensures Format(w, "}x") == Err("unmatched '}' in format string")
    ensures FormatCompiled(w, "}x") == Ok("}")
  {
  }

  /** A numeric field may hold an automatic width when compiled, which the interpreter refuses. */
  lemma CompilerMixesIndexing(w: World)
    requires |w.args| == 1 && w.args[0].kind.IntKind? && w.args[0].number == 5
    ensures Format(w, "{0:{}}") == Err("cannot switch from manual to automatic argument indexing")
    ensures FormatCompiled(w, "{0:{}}") == w.writeWith(w.args[0], DEFAULT_SPECS.(width := 5, widthRef := ByIndex(0)))
  {
    MixedRun(w);
    MixedTree(w);
    hide Run, Compile, Resolve;
    FiveResolved(w);
  }

  lemma FiveResolved(w: World)
    requires |w.args| == 1 && w.args[0].kind.IntKind? && w.args[0].number == 5
    ensures var specs := DEFAULT_SPECS.(widthRef := ByIndex(0)); Resolve(w, specs) == Ok(specs.(width := 5))
  {
  }

  lemma MixedRun(w: World)
    requires |w.args| == 1 && w.args[0].kind.IntKind?
    ensures Run(w, "{0:{}}", 0, Output("", 0)) == Err("cannot switch from manual to automatic argument indexing")
  {
    hide Rounds, ParseSpecs;
    var s := "{0:{}}";
    MixedSpecs(s);
    assert ParseArgId(s, 1) == Ok((2, Index(0)));
  }

  lemma MixedTree(w: World)
    requires |w.args| == 1 && w.args[0].kind.IntKind?
    ensures Compile(Kinds(w.args), "{0:{}}", 0, 0) == Unit(SpecsField(0, DEFAULT_SPECS.(widthRef := ByIndex(0))))
  {
    hide Rounds, ParseSpecs;
    var s := "{0:{}}";
    MixedSpecs(s);
    assert ParseArgId(s, 1) == Ok((2, Index(0)));
  }

  lemma MixedSpecs(s: string)
    requires s == "{0:{}}"
    ensures ParseSpecs(s, 3, IntKind, -1) == Err("cannot switch from manual to automatic argument indexing")
    ensures ParseSpecs(s, 3, IntKind, 0) == Ok(Scan(5, DEFAULT_SPECS.(widthRef := ByIndex(0)), Width, 1))
  {
    assert FirstChar(s, 3) == '{';
    var x := Scan(5, DEFAULT_SPECS.(widthRef := ByIndex(0)), Width, 1);
    assert Rounds(s, IntKind, '}', x) == Ok(x);
    assert Step(s, IntKind, '{', Scan(3, DEFAULT_SPECS, Start, 0)) == Ok(More(x));
  }
}
