/** Which of the format strings that the compiler accepts the interpreter accepts too. */
module CompiledStrict {
  import opened Outcomes
  import opened FormatSyntax
  import opened FormatRun
  import opened CompiledFormat
  import opened CompiledAgrees

  // ----- the condition on the format string -----

  /** A field as the compiler reads it: where it ends, the counter after it, and whether an automatic width or
      precision stands in a numeric field. */
  datatype FieldRead = FieldRead(end: nat, next: int, mixes: bool)

  /** Nothing for what is left to the interpreter or rejected. */
  function ReadField(kinds: seq<Kind>, s: string, pos: nat, id: int): (r: Option<FieldRead>)
    requires pos < |s|
    ensures r.Some? ==> pos < r.value.end <= |s|
  {
    match ParseArgId(s, pos)
    case Err(_) => None
    case Ok((q, argId)) =>
      if q == |s| then None
      else if argId.Name? then
        if s[q] == '}' then Some(FieldRead(q + 1, id, false)) else None
      else
        var (index, next) := if argId.Auto? then (id, id + 1) else (argId.i, MANUAL);
        if s[q] == '}' then Some(FieldRead(q + 1, next, false))
        else if s[q] != ':' || !(0 <= index < |kinds|) then None
        else ReadSpecs(s, q + 1, kinds[index], next)
  }

  function ReadSpecs(s: string, pos: nat, kind: Kind, next: int): (r: Option<FieldRead>)
    requires pos <= |s|
    ensures r.Some? ==> pos < r.value.end <= |s|
  {
    match ParseSpecs(s, pos, kind, if next == MANUAL then 0 else next)
    case Err(_) => None
    case Ok(scan) =>
      if scan.pos == |s| then None
      else Some(FieldRead(scan.pos + 1, if next == MANUAL then MANUAL else scan.next, next == MANUAL && scan.next > 0))
  }

  /** Every closing brace in the text is doubled, and no field with a numeric id takes an automatic width or
      precision. */
  predicate Strict(kinds: seq<Kind>, s: string, pos: nat, id: int)
    requires pos <= |s|
    decreases |s| - pos
  {
    if pos == |s| then true
    else if IsText(s[pos]) then Strict(kinds, s, TextEnd(s, pos + 1), id)
    else if s[pos] == '}' then pos + 1 < |s| && s[pos + 1] == '}' && Strict(kinds, s, pos + 2, id)
    else if pos + 1 == |s| then true
    else if s[pos + 1] == '{' then Strict(kinds, s, pos + 2, id)
    else
      match ReadField(kinds, s, pos + 1, id)
      case None => true
      case Some(field) => !field.mixes && Strict(kinds, s, field.end, field.next)
  }

  // ----- a counter that stayed free of automatic references -----

  lemma ReferenceTighter(s: string, d: Dynamic, next: int)
    requires d.pos <= |s| && Frees(d.next, next) && ParseReference(s, d.(next := next)).Ok?
    requires ParseReference(s, d.(next := next)).value.next <= 0
    ensures ParseReference(s, d).Ok?
  {
    hide ParseArgId;
  }

  lemma DynamicTighter(s: string, d: Dynamic, next: int)
    requires d.pos < |s| && Frees(d.next, next) && ParseDynamicSpec(s, d.(next := next)).Ok?
    requires ParseDynamicSpec(s, d.(next := next)).value.next <= 0
    ensures ParseDynamicSpec(s, d).Ok?
  {
    hide ParseReference, ParseInt;
    if s[d.pos] == '{' { ReferenceTighter(s, d.(pos := d.pos + 1), next); }
  }

  lemma WidthTighter(s: string, x: Scan, y: Scan)
    requires x.pos < |s| && (IsDigit(s[x.pos]) || s[x.pos] == '{') && Looser(x, y) && StepWidth(s, y).Ok?
    requires StepWidth(s, y).value.scan.next <= 0
    ensures StepWidth(s, x).Ok?
  {
    hide ParseDynamicSpec;
    DynamicTighter(s, Dynamic(x.pos, x.specs.width, x.specs.widthRef, x.next), y.next);
  }

  lemma PrecisionTighter(s: string, kind: Kind, x: Scan, y: Scan)
    requires x.pos < |s| && Looser(x, y) && StepPrecision(s, kind, y).Ok?
    requires StepPrecision(s, kind, y).value.scan.next <= 0
    ensures StepPrecision(s, kind, x).Ok?
  {
    hide ParseDynamicSpec;
    DynamicTighter(s, Dynamic(x.pos + 1, x.specs.precision, x.specs.precisionRef, x.next), y.next);
  }

  lemma StepTighter(s: string, kind: Kind, c: char, x: Scan, y: Scan)
    requires x.pos < |s| && (c == s[x.pos] || c == '\0') && Looser(x, y) && Step(s, kind, c, y).Ok?
    requires Step(s, kind, c, y).value.scan.next <= 0
    ensures LooserMove(Step(s, kind, c, x), Step(s, kind, c, y))
  {
    hide StepWidth, StepPrecision, StepFill, PresentationOf, Enters, ZeroFilled, ParseAlign, LooserMove;
    if '1' <= c <= '9' || c == '{' {
      WidthTighter(s, x, y);
    } else if c == '.' {
      PrecisionTighter(s, kind, x, y);
    } else {
      FillKeepsCounter(s, x, y.next);
    }
    assert Step(s, kind, c, x).Ok?;
    StepLooser(s, kind, c, x, y);
  }

  /** Specifiers without an automatic reference are read alike by a manual and by a fresh counter. */
  lemma {:induction false} RoundsTighter(s: string, kind: Kind, c: char, x: Scan, y: Scan)
    requires x.pos < |s| && (c == s[x.pos] || c == '\0') && Looser(x, y) && Rounds(s, kind, c, y).Ok?
    requires Rounds(s, kind, c, y).value.next <= 0
    ensures Rounds(s, kind, c, x).Ok?
    decreases |s| - x.pos
  {
    hide Step, StepWidth, StepPrecision, StepFill;
    var move := Step(s, kind, c, y).value;
    if move.scan.next > 0 {
      if move.More? && move.scan.pos < |s| { RoundsGrow(s, kind, ToAscii(s[move.scan.pos]), move.scan); }
    } else {
      StepTighter(s, kind, c, x, y);
      var x' := Step(s, kind, c, x).value.scan;
      if move.More? && move.scan.pos < |s| { RoundsTighter(s, kind, ToAscii(s[x'.pos]), x', move.scan); }
    }
  }

  /** What a manual counter accepts is what a fresh one reads without an automatic reference. */
  lemma ManualSpecs(s: string, pos: nat, kind: Kind)
    requires pos <= |s|
    ensures ParseSpecs(s, pos, kind, MANUAL).Ok? <==>
              ParseSpecs(s, pos, kind, 0).Ok? && ParseSpecs(s, pos, kind, 0).value.next <= 0
    ensures ParseSpecs(s, pos, kind, MANUAL).Ok? ==>
              ParseSpecs(s, pos, kind, MANUAL) == Ok(ParseSpecs(s, pos, kind, 0).value.(next := MANUAL))
  {
    hide Rounds;
    var x := Scan(pos, DEFAULT_SPECS, Start, MANUAL);
    if pos < |s| {
      var c := FirstChar(s, pos);
      var loose := Rounds(s, kind, c, x.(next := 0));
      if loose.Ok? && loose.value.next <= 0 { RoundsTighter(s, kind, c, x, x.(next := 0)); }
      if Rounds(s, kind, c, x).Ok? { RoundsLooser(s, kind, c, x, x.(next := 0)); }
    }
  }

  lemma AutomaticSpecs(s: string, pos: nat, kind: Kind, next: int)
    requires pos <= |s| && next > 0 && ParseSpecs(s, pos, kind, next).Ok?
    ensures ParseSpecs(s, pos, kind, next).value.next > 0
  {
    hide Rounds;
    if pos < |s| { RoundsGrow(s, kind, FirstChar(s, pos), Scan(pos, DEFAULT_SPECS, Start, next)); }
  }

  // ----- the interpreter accepts only such strings -----

  lemma SpecsAreRead(w: World, s: string, pos: nat, id: int, o: Output)
    requires pos <= |s| && (o.next > 0 || o.next == MANUAL) && SpecField(w, s, pos, id, o).Ok?
    ensures 0 <= id < |w.args|
    ensures var (end, o') := SpecField(w, s, pos, id, o).value;
            ReadSpecs(s, pos, w.args[id].kind, o.next) == Some(FieldRead(end + 1, o'.next, false)) &&
            (o'.next > 0 || o'.next == MANUAL)
  {
    hide ParseSpecs, Resolve, WriteSpecs;
    if o.next == MANUAL {
      ManualSpecs(s, pos, w.args[id].kind);
    } else {
      AutomaticSpecs(s, pos, w.args[id].kind, o.next);
    }
  }

  /** A field that the interpreter writes is one the condition allows. */
  lemma FieldIsRead(w: World, s: string, pos: nat, o: Output)
    requires pos < |s| && o.next >= -1 && FieldBody(w, s, pos, o).Ok?
    ensures var (end, o') := FieldBody(w, s, pos, o).value;
            o'.next >= -1 &&
            (ReadField(Kinds(w.args), s, pos, o.next).Some? ==>
               ReadField(Kinds(w.args), s, pos, o.next).value == FieldRead(end, o'.next, false))
  {
    hide ReadSpecs, SpecField, ParseArgId, IdByName;
    var (q, argId) := ParseArgId(s, pos).value;
    var (id, next) := TakeArg(w, argId, o.next).value;
    if s[q] == ':' {
      if argId.Name? {
        NamedCounter(w, s, q + 1, id, o.(next := next));
      } else {
        SpecsAreRead(w, s, q + 1, id, o.(next := next));
      }
    }
  }

  /** Specifiers leave a counter a counter. */
  lemma NamedCounter(w: World, s: string, pos: nat, id: int, o: Output)
    requires pos <= |s| && o.next >= -1 && SpecField(w, s, pos, id, o).Ok?
    ensures SpecField(w, s, pos, id, o).value.1.next >= -1
  {
    hide Rounds, Resolve, WriteSpecs;
    if pos < |s| {
      RoundsCount(s, w.args[id].kind, FirstChar(s, pos), Scan(pos, DEFAULT_SPECS, Start, o.next));
    }
  }

  lemma {:induction false} RoundsCount(s: string, kind: Kind, c: char, x: Scan)
    requires x.pos < |s| && (c == s[x.pos] || c == '\0') && Rounds(s, kind, c, x).Ok? && x.next >= -1
    ensures Rounds(s, kind, c, x).value.next >= -1
    decreases |s| - x.pos
  {
    hide Step;
    StepCount(s, kind, c, x);
    match Step(s, kind, c, x)
    case Ok(More(y)) => if y.pos < |s| { RoundsCount(s, kind, ToAscii(s[y.pos]), y); }
    case _ =>
  }

  lemma StepCount(s: string, kind: Kind, c: char, x: Scan)
    requires x.pos < |s| && (c == s[x.pos] || c == '\0') && Step(s, kind, c, x).Ok? && x.next >= -1
    ensures Step(s, kind, c, x).value.scan.next >= -1
  {
    hide StepFill, PresentationOf, Enters, ZeroFilled, ParseAlign, ParseDynamicSpec;
    if '1' <= c <= '9' || c == '{' {
      DynamicCount(s, Dynamic(x.pos, x.specs.width, x.specs.widthRef, x.next));
    } else if c == '.' {
      if x.pos + 1 < |s| { DynamicCount(s, Dynamic(x.pos + 1, x.specs.precision, x.specs.precisionRef, x.next)); }
    } else {
      FillKeepsCounter(s, x, x.next);
    }
  }

  lemma DynamicCount(s: string, d: Dynamic)
    requires d.pos < |s| && d.next >= -1
    ensures ParseDynamicSpec(s, d).Ok? ==> ParseDynamicSpec(s, d).value.next >= -1
  {
    hide ParseArgId, ParseInt;
  }

  lemma {:induction false} RunIsStrict(w: World, s: string, pos: nat, o: Output)
    requires pos <= |s| && o.next >= -1 && Run(w, s, pos, o).Ok?
    ensures Strict(Kinds(w.args), s, pos, o.next)
    decreases |s| - pos
  {
    hide ReadField, FieldBody, TextEnd;
    if pos < |s| {
      if IsText(s[pos]) {
        var end := TextEnd(s, pos + 1);
        PlainRun(w, s, pos, end, o);
        RunIsStrict(w, s, end, o.(text := o.text + s[pos..end]));
      } else if s[pos] == '}' {
        RunIsStrict(w, s, pos + 2, o.(text := o.text + "}"));
      } else if s[pos + 1] == '{' {
        RunIsStrict(w, s, pos + 2, o.(text := o.text + "{"));
      } else {
        FieldIsRead(w, s, pos + 1, o);
        var (end, o') := FieldBody(w, s, pos + 1, o).value;
        RunIsStrict(w, s, end, o');
      }
    }
  }

  // ----- and all of those that compile and write -----

  /** What is compiled before a tail is executed before it. */
  lemma HeadExecutes(w: World, s: string, pos: nat, id: int, head: Tree)
    requires pos <= |s|
    requires var c := ParseTail(Kinds(w.args), s, pos, id, head); c.Unit? && Execute(w, c.tree).Ok?
    ensures Execute(w, head).Ok?
  {
    hide Compile;
    if pos < |s| {
      assert Execute(w, Concat(head, Compile(Kinds(w.args), s, pos, id).tree)).Ok?;
    }
  }

  lemma {:induction false} TailRuns(w: World, s: string, pos: nat, o: Output, head: Tree)
    requires pos <= |s| && o.next >= -1 && Strict(Kinds(w.args), s, pos, o.next)
    requires var c := ParseTail(Kinds(w.args), s, pos, o.next, head); c.Unit? && Execute(w, c.tree).Ok?
    ensures Run(w, s, pos, o).Ok?
    decreases |s| - pos, 1
  {
    hide Strict, Compile;
    if pos < |s| {
      var c := Compile(Kinds(w.args), s, pos, o.next);
      assert Execute(w, Concat(head, c.tree)).Ok?;
      CompiledRuns(w, s, pos, o);
    }
  }

  /** A string that meets the condition, compiles and writes is accepted by the interpreter. */
  lemma {:induction false} CompiledRuns(w: World, s: string, pos: nat, o: Output)
    requires pos < |s| && o.next >= -1 && Strict(Kinds(w.args), s, pos, o.next)
    requires var c := Compile(Kinds(w.args), s, pos, o.next); c.Unit? && Execute(w, c.tree).Ok?
    ensures Run(w, s, pos, o).Ok?
    decreases |s| - pos, 0
  {
    hide ParseTail, FieldThenTail, CompileExplicit, FieldBody, TextEnd, Execute, ReadField;
    if s[pos] == '{' {
      if s[pos + 1] == '{' {
        TailRuns(w, s, pos + 2, o.(text := o.text + "{"), Text("{"));
      } else {
        FieldRuns(w, s, pos, o);
      }
    } else if s[pos] == '}' {
      TailRuns(w, s, pos + 2, o.(text := o.text + "}"), Text("}"));
    } else {
      var end := TextEnd(s, pos + 1);
      PlainRun(w, s, pos, end, o);
      TailRuns(w, s, end, o.(text := o.text + s[pos..end]),
               if end - pos > 1 then Text(s[pos..end]) else CodeUnit(s[pos]));
    }
  }

  /** A compiled field: what its argument is, and the rest after it. */
  lemma CompiledFieldIs(w: World, s: string, pos: nat, next: int)
    requires pos + 1 < |s| && s[pos] == '{' && s[pos + 1] != '{' && next >= -1
    requires Compile(Kinds(w.args), s, pos, next).Unit?
    ensures ParseArgId(s, pos + 1).Ok?
    ensures var (q, argId) := ParseArgId(s, pos + 1).value;
            && q < |s| && (s[q] == '}' || s[q] == ':')
            && if argId.Name? then
                 s[q] == '}' &&
                 Compile(Kinds(w.args), s, pos, next)
                 == ParseTail(Kinds(w.args), s, q + 1, next, NamedField(argId.name))
               else
                 TakeArg(w, argId, next).Ok? &&
                 var (id, next') := TakeArg(w, argId, next).value;
                 0 <= id < |w.args| && (next' > 0 || next' == MANUAL) &&
                 Compile(Kinds(w.args), s, pos, next) == FieldThenTail(Kinds(w.args), s, q, id, next')
  {
    hide FieldThenTail, ParseTail, IdByName, NameEnd, ParseInt;
  }

  lemma {:induction false} FieldRuns(w: World, s: string, pos: nat, o: Output)
    requires pos + 1 < |s| && s[pos] == '{' && s[pos + 1] != '{' && o.next >= -1
    requires ReadField(Kinds(w.args), s, pos + 1, o.next).Some? ==>
               var r := ReadField(Kinds(w.args), s, pos + 1, o.next).value;
               !r.mixes && Strict(Kinds(w.args), s, r.end, r.next)
    requires var c := Compile(Kinds(w.args), s, pos, o.next); c.Unit? && Execute(w, c.tree).Ok?
    ensures Run(w, s, pos, o).Ok?
    decreases |s| - pos - 1, 4
  {
    hide ParseTail, FieldThenTail, Execute, Compile, ParseArgId, IdByName, Strict, ReadSpecs, SpecField, PlainField,
         TakeArg;
    CompiledFieldIs(w, s, pos, o.next);
    var (q, argId) := ParseArgId(s, pos + 1).value;
    if argId.Name? {
      NamedRuns(w, s, q, o, argId.name);
      NamedTaken(w, argId, o.next);
    } else {
      var (id, next) := TakeArg(w, argId, o.next).value;
      IndexTaken(w, argId, o.next);
      IndexedRuns(w, s, q, o, id, next);
    }
  }

  lemma IndexTaken(w: World, argId: ArgId, next: int)
    requires !argId.Name? && TakeArg(w, argId, next).Ok?
    ensures TakeArg(w, argId, next).value == if argId.Auto? then (next, next + 1) else (argId.i, MANUAL)
  {
  }

  lemma NamedTaken(w: World, argId: ArgId, next: int)
    requires argId.Name? && IdByName(w, argId.name).Ok?
    ensures TakeArg(w, argId, next) == Ok((IdByName(w, argId.name).value, next))
  {
    hide IdByName;
  }

  lemma {:induction false} NamedRuns(w: World, s: string, q: nat, o: Output, name: string)
    requires q < |s| && o.next >= -1 && Strict(Kinds(w.args), s, q + 1, o.next)
    requires var c := ParseTail(Kinds(w.args), s, q + 1, o.next, NamedField(name)); c.Unit? && Execute(w, c.tree).Ok?
    ensures IdByName(w, name).Ok?
    ensures PlainField(w, IdByName(w, name).value, o).Ok?
    ensures Run(w, s, q + 1, PlainField(w, IdByName(w, name).value, o).value).Ok?
    decreases |s| - q, 2
  {
    hide ParseTail, Run, Strict, IdByName, Execute;
    HeadExecutes(w, s, q + 1, o.next, NamedField(name));
    NamedExecutes(w, name);
    TailRuns(w, s, q + 1, PlainField(w, IdByName(w, name).value, o).value, NamedField(name));
  }

  lemma NamedExecutes(w: World, name: string)
    requires Execute(w, NamedField(name)).Ok?
    ensures IdByName(w, name).Ok? && GetArg(w, IdByName(w, name).value).Ok?
    ensures w.write(GetArg(w, IdByName(w, name).value).value).Ok?
  {
    hide IdByName, TryNamed;
    NamedTried(w, name);
    NamedAgrees(w, name);
  }

  lemma NamedTried(w: World, name: string)
    requires TryNamed(w, name, 0).Ok?
    ensures IdByName(w, name).Ok?
  {
    NamedTriedFrom(w, name, 0);
  }

  /** Trying the arguments in turn finds none that is not in the table of names. */
  lemma {:induction false} NamedTriedFrom(w: World, name: string, from: nat)
    requires from <= |w.args| && TryNamed(w, name, from).Ok?
    ensures GetId(NamedArgs(w.args, from), name).Ok?
    decreases |w.args| - from
  {
    if w.args[from].name != Some(name) {
      NamedTriedFrom(w, name, from + 1);
      assert w.args[from].name.Some? ==> NamedArgs(w.args, from)[1..] == NamedArgs(w.args, from + 1);
    }
  }

  /** A field whose argument is known by its position, and what follows it. */
  lemma {:induction false} IndexedRuns(w: World, s: string, q: nat, o: Output, id: nat, next: int)
    requires q < |s| && id < |w.args| && (next > 0 || next == MANUAL) && (s[q] == '}' || s[q] == ':')
    requires s[q] == '}' ==> Strict(Kinds(w.args), s, q + 1, next)
    requires s[q] == ':' && ReadSpecs(s, q + 1, w.args[id].kind, next).Some? ==>
               var r := ReadSpecs(s, q + 1, w.args[id].kind, next).value;
               !r.mixes && Strict(Kinds(w.args), s, r.end, r.next)
    requires var c := FieldThenTail(Kinds(w.args), s, q, id, next); c.Unit? && Execute(w, c.tree).Ok?
    ensures s[q] == '}' ==>
              PlainField(w, id, o.(next := next)).Ok? && Run(w, s, q + 1, PlainField(w, id, o.(next := next)).value).Ok?
    ensures s[q] == ':' ==>
              var r := SpecField(w, s, q + 1, id, o.(next := next));
              r.Ok? && Run(w, s, r.value.0 + 1, r.value.1).Ok?
    decreases |s| - q, 3
  {
    hide ParseTail, Run, Strict, Execute, ReadSpecs, SpecField;
    if s[q] == '}' {
      HeadExecutes(w, s, q + 1, next, Field(id));
      FieldWrites(w, id);
      TailRuns(w, s, q + 1, PlainField(w, id, o.(next := next)).value, Field(id));
    } else {
      CompiledSpecs(w, s, q, id, next);
      var scan := ParseSpecs(s, q + 1, w.args[id].kind, next).value;
      HeadExecutes(w, s, scan.pos + 1, scan.next, SpecsField(id, scan.specs));
      SpecsWritten(w, s, q + 1, id, o.(next := next));
      TailRuns(w, s, scan.pos + 1, SpecField(w, s, q + 1, id, o.(next := next)).value.1, SpecsField(id, scan.specs));
    }
  }

  /** Specifiers that compile without mixing are those of the interpreter. */
  lemma CompiledSpecs(w: World, s: string, q: nat, id: nat, next: int)
    requires q < |s| && id < |w.args| && (next > 0 || next == MANUAL) && s[q] == ':'
    requires FieldThenTail(Kinds(w.args), s, q, id, next).Unit?
    requires var r := ReadSpecs(s, q + 1, w.args[id].kind, next); r.Some? ==> !r.value.mixes
    ensures ParseSpecs(s, q + 1, w.args[id].kind, next).Ok?
    ensures var scan := ParseSpecs(s, q + 1, w.args[id].kind, next).value;
            && scan.pos < |s| && s[scan.pos] == '}' && (scan.next > 0 || scan.next == MANUAL)
            && ReadSpecs(s, q + 1, w.args[id].kind, next) == Some(FieldRead(scan.pos + 1, scan.next, false))
            && FieldThenTail(Kinds(w.args), s, q, id, next) ==
                 ParseTail(Kinds(w.args), s, scan.pos + 1, scan.next, SpecsField(id, scan.specs))
  {
    hide ParseTail, ParseSpecs, CharSpecsRejected;
    var kind := w.args[id].kind;
    if next == MANUAL {
      ManualSpecs(s, q + 1, kind);
    } else {
      if ParseSpecs(s, q + 1, kind, next).Ok? { AutomaticSpecs(s, q + 1, kind, next); }
    }
  }

  /** Specifiers that are executed are written by the interpreter. */
  lemma SpecsWritten(w: World, s: string, pos: nat, id: nat, o: Output)
    requires pos <= |s| && id < |w.args| && ParseSpecs(s, pos, w.args[id].kind, o.next).Ok?
    requires var scan := ParseSpecs(s, pos, w.args[id].kind, o.next).value;
             scan.pos < |s| && s[scan.pos] == '}' && Execute(w, SpecsField(id, scan.specs)).Ok?
    ensures SpecField(w, s, pos, id, o).Ok?
    ensures SpecField(w, s, pos, id, o).value.0 == ParseSpecs(s, pos, w.args[id].kind, o.next).value.pos
    ensures SpecField(w, s, pos, id, o).value.1.next == ParseSpecs(s, pos, w.args[id].kind, o.next).value.next
  {
    hide ParseSpecs, WriteSpecs;
    var scan := ParseSpecs(s, pos, w.args[id].kind, o.next).value;
    SpecsResolve(w, id, scan.specs);
    ResolvedWrites(w, id, scan.specs);
    hide Resolve, Execute;
  }

  lemma SpecsResolve(w: World, id: nat, specs: Specs)
    requires id < |w.args| && Execute(w, SpecsField(id, specs)).Ok?
    ensures Resolve(w, specs).Ok?
  {
    hide WriteSpecs, DynamicValue;
  }

  // ----- the result -----

  /**
   * Of the format strings that compile and write, the interpreter accepts, with the same output, exactly those
   * whose closing braces are doubled and whose numeric fields take no automatic width or precision.
   */
  lemma InterpreterAgreesIfStrict(w: World, s: string)
    requires FormatCompiled(w, s).Ok?
    ensures Format(w, s) == FormatCompiled(w, s) <==> Strict(Kinds(w.args), s, 0, 0)
  {
    hide Compile, Run, Strict, Execute;
    if s == "{}" {
      ShortcutAgrees(w);
      RunIsStrict(w, s, 0, Output("", 0));
    } else if s == "" {
      EmptyRun(w, Output("", 0));
      RunIsStrict(w, s, 0, Output("", 0));
    } else {
      if Compile(Kinds(w.args), s, 0, 0).Unit? && Strict(Kinds(w.args), s, 0, 0) {
        CompiledRuns(w, s, 0, Output("", 0));
      }
      if Run(w, s, 0, Output("", 0)).Ok? {
        RunIsStrict(w, s, 0, Output("", 0));
      }
    }
    if Format(w, s).Ok? { CompiledFormatAgrees(w, s); }
  }
}
