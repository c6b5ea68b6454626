/**
 * Format strings from the writer's side: literal characters, doubled braces and fields, and what each of them
 * stands for. A format string is accepted exactly if it is such pieces written one after the other, each with a
 * meaning, and the output is their meanings one after the other.
 */
module FormatGrammar {
  import opened Outcomes
  import opened FormatSyntax
  import opened FormatRun
  import opened SpecGrammar
  import opened SpecConverse
  import opened Slices

  // ----- pieces -----

  datatype Piece = Literal(c: char) | Brace(opening: bool) | Field(id: Id, specs: Option<Source>)

  function PieceText(piece: Piece): string {
    match piece
    case Literal(c) => [c]
    case Brace(opening) => if opening then "{{" else "}}"
    case Field(id, specs) =>
      "{" + (IdText(id) + (if specs.Some? then ":" + (Written(specs.value, "") + "}") else "}"))
  }

  function Rendered(pieces: seq<Piece>): string {
    if pieces == [] then "" else PieceText(pieces[0]) + Rendered(pieces[1..])
  }

  // ----- what they stand for -----

  /** The first argument of this name from a position on. */
  function FirstNamed(args: seq<Arg>, name: string, from: nat): (r: Option<nat>)
    requires from <= |args|
    ensures r.Some? ==> from <= r.value < |args| && args[r.value].name == Some(name)
    ensures forall i :: from <= i < (if r.Some? then r.value else |args|) ==> args[i].name != Some(name)
    decreases |args| - from
  {
    if from == |args| then None
    else if args[from].name == Some(name) then Some(from)
    else FirstNamed(args, name, from + 1)
  }

  /** The argument a field is for, and the counter after its id. */
  function Position(w: World, id: Id, next: int): (r: Option<(nat, int)>)
    requires WritableId(id)
    ensures r.Some? ==> r.value.0 < |w.args|
  {
    match id
    case NoId => if 0 <= next < |w.args| then Some((next, next + 1)) else None
    case Digits(d) =>
      var i := Spelled(d, INT_MAX);
      if next <= 0 && 0 <= i < |w.args| then Some((i, -1)) else None
    case Named(name) =>
      var i := FirstNamed(w.args, name, 0);
      if i.Some? then Some((i.value, next)) else None
  }

  predicate IntegerKind(kind: Kind) {
    match kind
    case IntKind | UintKind | LongLongKind | UlongLongKind | Int128Kind | Uint128Kind => true
    case _ => false
  }

  /** The number of an argument as a width or a precision: cut to 64 bits, and small enough for an int. */
  function Small(arg: Arg): Option<int> {
    var cut := arg.number % 0x1_0000_0000_0000_0000;
    if IntegerKind(arg.kind) && arg.number >= 0 && cut <= 0x7fff_ffff then Some(cut) else None
  }

  /** A width or precision: the one written, or the number of the argument referred to. */
  function AmountOf(w: World, written: int, ref: Ref): Option<int> {
    match ref
    case NoRef => Some(written)
    case ByIndex(i) => if 0 <= i < |w.args| then Small(w.args[i]) else None
    case ByName(name) =>
      var i := FirstNamed(w.args, name, 0);
      if i.Some? then Small(w.args[i.value]) else None
  }

  /** A character is not written with a sign, a form or zeros, unless as a number. */
  predicate CharRefuses(kind: Kind, src: Source) {
    && kind.CharKind? && (src.presentation.Plain? || src.presentation.Chr? || src.presentation.Debug?)
    && ((src.zero && src.align.NoAlign?) || !src.sign.NoSign? || src.alt)
  }

  /** The output of an argument with these specifiers, and the counter after them. */
  function SpecsMean(w: World, at: nat, src: Source, next: int): Option<(string, int)>
    requires at < |w.args|
  {
    var arg := w.args[at];
    if !Allowed(src, arg.kind) || CharRefuses(arg.kind, src) || References(src, next).None? then None else
    var (widthRef, precisionRef, next') := References(src, next).value;
    var specs := Meant(src, widthRef, precisionRef);
    var width, precision := AmountOf(w, specs.width, widthRef), AmountOf(w, specs.precision, precisionRef);
    if width.None? || precision.None? then None else
    var text := w.writeWith(arg, specs.(width := width.value, precision := precision.value));
    if text.Ok? then Some((text.value, next')) else None
  }

  function PieceMeans(w: World, piece: Piece, next: int): Option<(string, int)> {
    match piece
    case Literal(c) => if c != '{' && c != '}' then Some(([c], next)) else None
    case Brace(opening) => Some((if opening then "{" else "}", next))
    case Field(id, specs) =>
      if !WritableId(id) || Position(w, id, next).None? then None else
      var (at, next') := Position(w, id, next).value;
      if specs.Some? then SpecsMean(w, at, specs.value, next')
      else if w.write(w.args[at]).Ok? then Some((w.write(w.args[at]).value, next'))
      else None
  }

  function PiecesMean(w: World, pieces: seq<Piece>, next: int): Option<(string, int)> {
    if pieces == [] then Some(("", next)) else
    match PieceMeans(w, pieces[0], next)
    case None => None
    case Some((text, next1)) =>
      match PiecesMean(w, pieces[1..], next1)
      case None => None
      case Some((rest, next2)) => Some((text + rest, next2))
  }

  // ----- arguments -----

  lemma {:induction false} NameFound(args: seq<Arg>, name: string, from: nat)
    requires from <= |args|
    ensures GetId(NamedArgs(args, from), name).Ok? <==> FirstNamed(args, name, from).Some?
    ensures FirstNamed(args, name, from).Some? ==>
              GetId(NamedArgs(args, from), name).value == FirstNamed(args, name, from).value
    decreases |args| - from
  {
    if from < |args| && args[from].name != Some(name) {
      NameFound(args, name, from + 1);
      assert args[from].name.Some? ==> NamedArgs(args, from)[1..] == NamedArgs(args, from + 1);
    }
  }

  lemma PositionIs(w: World, id: Id, next: int)
    requires WritableId(id)
    ensures Position(w, id, next).Some? <==>
              TakeArg(w, IdRead(id), next).Ok? && 0 <= TakeArg(w, IdRead(id), next).value.0 < |w.args|
    ensures Position(w, id, next).Some? ==> TakeArg(w, IdRead(id), next) == Ok(Position(w, id, next).value)
  {
    if id.Named? { NameFound(w.args, id.name, 0); }
    hide Spelled, NamedArgs, GetId;
  }

  lemma AmountIs(w: World, written: int, ref: Ref, negative: string, notInteger: string)
    ensures HandleDynamic(w, written, ref, negative, notInteger).Ok? <==> AmountOf(w, written, ref).Some?
    ensures AmountOf(w, written, ref).Some? ==>
              HandleDynamic(w, written, ref, negative, notInteger).value == AmountOf(w, written, ref).value
  {
    if ref.ByName? { NameFound(w.args, ref.name, 0); }
    hide NamedArgs, GetId;
  }

  // ----- specifiers of a field -----

  /** The specifiers of a field, written and resolved. */
  lemma SpecsWritten(w: World, s: string, p: nat, q: nat, at: nat, o: Output, src: Source)
    requires p <= q < |s| && s[q] == '}' && at < |w.args| && WrittenAs(s, p, q, w.args[at].kind, o.next, src)
    ensures SpecsMean(w, at, src, o.next).Some? ==>
              var (text, next) := SpecsMean(w, at, src, o.next).value;
              SpecField(w, s, p, at, o) == Ok((q, Output(o.text + text, next)))
    ensures SpecField(w, s, p, at, o).Ok? ==> SpecsMean(w, at, src, o.next).Some?
  {
    var kind := w.args[at].kind;
    SpecifierExactly(s, p, q, kind, o.next);
    var scan := ParseSpecs(s, p, kind, o.next).value;
    var (widthRef, precisionRef, next) := References(src, o.next).value;
    var specs := Meant(src, widthRef, precisionRef);
    AmountIs(w, specs.width, widthRef, "negative width", "width is not integer");
    AmountIs(w, specs.precision, precisionRef, "negative precision", "precision is not integer");
    CharIs(kind, src, widthRef, precisionRef);
    hide ParseSpecs, Allowed, References, AmountOf, HandleDynamic, CharRefuses, CharSpecsRejected, Written;
    assert Resolve(w, specs).Ok? ==>
             CharSpecsRejected(Resolve(w, specs).value) == CharSpecsRejected(specs) by {
      if Resolve(w, specs).Ok? { CharWithAmounts(specs, Resolve(w, specs).value); }
    }
  }

  lemma CharIs(kind: Kind, src: Source, width: Ref, precision: Ref)
    requires WritableAmount(src.width) && WritableAmount(src.precision) && !src.align.Numeric?
    ensures kind.CharKind? && CharSpecsRejected(Meant(src, width, precision)) <==> CharRefuses(kind, src)
  {
    hide Amounted;
  }

  lemma CharWithAmounts(specs: Specs, resolved: Specs)
    requires resolved == specs.(width := resolved.width, precision := resolved.precision)
    ensures CharSpecsRejected(resolved) == CharSpecsRejected(specs)
  {
  }

  // ----- one piece -----

  /** The parts of a field's text, and where they are. */
  lemma FieldParts(s: string, p: nat, e: nat, id: Id, specs: Option<Source>)
    requires p <= e <= |s| && s[p..e] == PieceText(Field(id, specs))
    ensures var q := p + 1 + |IdText(id)|;
            && q < e && s[p] == '{' && s[p + 1..] == IdText(id) + s[q..] && s[e - 1] == '}'
            && (specs.None? ==> q == e - 1)
            && (specs.Some? ==> q + 1 <= e - 1 && s[q] == ':' && s[q + 1..e - 1] == Written(specs.value, ""))
  {
    hide IdText, Written;
    var tail := if specs.Some? then ":" + (Written(specs.value, "") + "}") else "}";
    var q := p + 1 + |IdText(id)|;
    Cut(s, p, e, |s|);
    Around(s, p, "{", IdText(id), tail, s[e..]);
    if specs.Some? {
      Around(s, q, ":", Written(specs.value, ""), "}", s[e..]);
      assert s[q..] == tail + s[e..];
    } else {
      assert s[q] == (tail + s[e..])[0];
    }
  }

  /** Three pieces and a rest, from a position on. */
  lemma Around(s: string, p: nat, a: string, b: string, c: string, rest: string)
    requires p <= |s| && s[p..] == (a + (b + c)) + rest && |a| == 1
    ensures p + 1 + |b| + |c| + |rest| == |s| && s[p] == a[0]
    ensures s[p + 1..] == b + (c + rest) && s[p + 1..p + 1 + |b|] == b && s[p + 1 + |b|..] == c + rest
    ensures |c| == 1 ==> s[p + 1 + |b|] == c[0]
  {
    assert s[p..] == a + (b + (c + rest));
    assert |s[p..]| == |s| - p;
    Begins(s, p, a, b + (c + rest));
    assert s[p + 0] == a[0];
    Begins(s, p + 1, b, c + rest);
    assert |c| == 1 ==> (c + rest)[0] == c[0];
  }

  /** The interpreter finds the id of a field. */
  lemma IdPlaced(s: string, p: nat, q: nat, id: Id)
    requires p <= q < |s| && s[p..] == IdText(id) + s[q..] && (s[q] == '}' || s[q] == ':') && WritableId(id)
    requires q == p + |IdText(id)|
    ensures s[p] != '{' && ParseArgId(s, p) == Ok((q, IdRead(id)))
  {
    IdIsNoBrace(id);
    hide *;
    assert s[q..][0] == s[q];
    ReadsId(s, p, id, s[q..]);
    FirstOfText(s, p, IdText(id), s[q..]);
  }

  /** A field with a meaning is written so by the interpreter. */
  lemma FieldRuns(w: World, s: string, p: nat, e: nat, o: Output, id: Id, specs: Option<Source>)
    requires p <= e <= |s| && s[p..e] == PieceText(Field(id, specs)) && PieceMeans(w, Field(id, specs), o.next).Some?
    ensures p < |s| && s[p] == '{'
    ensures var (text, next) := PieceMeans(w, Field(id, specs), o.next).value;
            ReplacementField(w, s, p, o) == Ok((e, Output(o.text + text, next)))
  {
    assert WritableId(id) by { hide Position, SpecsMean; }
    hide *;
    var q := p + 1 + |IdText(id)|;
    FieldId(s, p, e, id, specs);
    FieldTail(s, p, e, id, specs);
    BodyRuns(w, s, p + 1, q, e, o, id, specs);
    ReplacementIs(w, s, p, o);
  }

  lemma FieldId(s: string, p: nat, e: nat, id: Id, specs: Option<Source>)
    requires p <= e <= |s| && s[p..e] == PieceText(Field(id, specs)) && WritableId(id)
    ensures var q := p + 1 + |IdText(id)|;
            q < e && s[p] == '{' && s[p + 1] != '{' && ParseArgId(s, p + 1) == Ok((q, IdRead(id)))
  {
    hide *;
    FieldHead(s, p, e, id, specs);
    IdPlaced(s, p + 1, p + 1 + |IdText(id)|, id);
  }

  lemma FieldHead(s: string, p: nat, e: nat, id: Id, specs: Option<Source>)
    requires p <= e <= |s| && s[p..e] == PieceText(Field(id, specs))
    ensures var q := p + 1 + |IdText(id)|;
            q < e && s[p] == '{' && s[p + 1..] == IdText(id) + s[q..] && (s[q] == ':' || s[q] == '}')
  {
    hide *;
    FieldParts(s, p, e, id, specs);
  }

  lemma FieldTail(s: string, p: nat, e: nat, id: Id, specs: Option<Source>)
    requires p <= e <= |s| && s[p..e] == PieceText(Field(id, specs))
    ensures var q := p + 1 + |IdText(id)|;
            && q < e && s[e - 1] == '}' && (specs.None? ==> q == e - 1)
            && (specs.Some? ==> q + 1 <= e - 1 && s[q] == ':' && s[q + 1..e - 1] == Written(specs.value, ""))
  {
    hide *;
    FieldParts(s, p, e, id, specs);
  }

  lemma ReplacementIs(w: World, s: string, p: nat, o: Output)
    requires p + 1 < |s| && s[p] == '{' && s[p + 1] != '{'
    ensures ReplacementField(w, s, p, o) == FieldBody(w, s, p + 1, o)
  {
  }

  /** A field from its id on, given where its parts are. */
  lemma BodyRuns(w: World, s: string, p: nat, q: nat, e: nat, o: Output, id: Id, specs: Option<Source>)
    requires p <= q < e <= |s| && s[e - 1] == '}' && PieceMeans(w, Field(id, specs), o.next).Some? && WritableId(id)
    requires ParseArgId(s, p) == Ok((q, IdRead(id))) && (specs.None? ==> q == e - 1)
    requires specs.Some? ==> q + 1 <= e - 1 && s[q] == ':' && s[q + 1..e - 1] == Written(specs.value, "")
    ensures var (text, next) := PieceMeans(w, Field(id, specs), o.next).value;
            FieldBody(w, s, p, o) == Ok((e, Output(o.text + text, next)))
  {
    hide Written, ParseArgId, Position, SpecsMean, TakeArg, SpecField, IdRead, WritableId;
    PositionIs(w, id, o.next);
    if specs.Some? {
      var (at, next) := Position(w, id, o.next).value;
      SpecsRun(w, s, q + 1, e - 1, at, o.(next := next), specs.value);
    }
  }

  lemma FirstOfText(s: string, p: nat, a: string, rest: string)
    requires p <= |s| && s[p..] == a + rest && rest != "" && rest[0] != '{' && (a != "" ==> a[0] != '{')
    ensures p < |s| && s[p] != '{'
  {
    assert s[p] == s[p..][0];
  }

  lemma IdIsNoBrace(id: Id)
    ensures WritableId(id) && IdText(id) != "" ==> IdText(id)[0] != '{'
  {
  }

  lemma SpecsRun(w: World, s: string, p: nat, q: nat, at: nat, o: Output, src: Source)
    requires p <= q < |s| && s[q] == '}' && at < |w.args| && s[p..q] == Written(src, "")
    requires SpecsMean(w, at, src, o.next).Some?
    ensures var (text, next) := SpecsMean(w, at, src, o.next).value;
            SpecField(w, s, p, at, o) == Ok((q, Output(o.text + text, next)))
  {
    AllowedIf(src, w.args[at].kind);
    assert WrittenAs(s, p, q, w.args[at].kind, o.next, src) by { hide Allowed, References, Written; }
    hide WrittenAs, SpecsMean, SpecField;
    SpecsWritten(w, s, p, q, at, o, src);
  }

  lemma AllowedIf(src: Source, kind: Kind)
    ensures Allowed(src, kind) ==> WritableAmount(src.width) && WritableAmount(src.precision)
  {
  }

  /** A field that the interpreter writes is some field with a meaning. */
  lemma FieldFound(w: World, s: string, p: nat, o: Output) returns (piece: Piece)
    requires p + 1 < |s| && s[p] == '{' && s[p + 1] != '{' && FieldBody(w, s, p + 1, o).Ok?
    ensures var (e, o') := FieldBody(w, s, p + 1, o).value;
            && s[p..e] == PieceText(piece) && PieceMeans(w, piece, o.next).Some?
            && var (text, next) := PieceMeans(w, piece, o.next).value; o' == Output(o.text + text, next)
  {
    hide IdText, Written, ParseArgId, Position, SpecsMean, TakeArg, SpecField, IdRead, WritableId;
    var (q, read) := ParseArgId(s, p + 1).value;
    var id := IdWritten(s, p + 1);
    PositionIs(w, id, o.next);
    var (e, _) := FieldBody(w, s, p + 1, o).value;
    if s[q] == '}' {
      piece := Field(id, None);
      FieldText(s, p, q, e, id, None);
    } else {
      var (at, next) := TakeArg(w, read, o.next).value;
      FoundInside(w, s, q + 1, at, o.(next := next));
      var src := SpecsFound(w, s, q + 1, at, o.(next := next));
      piece := Field(id, Some(src));
      FieldText(s, p, q, e, id, Some(src));
    }
  }

  lemma FoundInside(w: World, s: string, p: nat, at: int, o: Output)
    requires p <= |s| && SpecField(w, s, p, at, o).Ok?
    ensures 0 <= at < |w.args|
  {
    hide ParseSpecs, Resolve, WriteSpecs;
  }

  lemma FieldText(s: string, p: nat, q: nat, e: nat, id: Id, specs: Option<Source>)
    requires p + 1 <= q < e <= |s| && s[p] == '{' && s[p + 1..q] == IdText(id) && s[e - 1] == '}'
    requires specs.None? ==> q == e - 1
    requires specs.Some? ==> s[q] == ':' && q + 1 <= e - 1 && s[q + 1..e - 1] == Written(specs.value, "")
    ensures s[p..e] == PieceText(Field(id, specs))
  {
    FieldIs(id, specs);
    hide *;
    OneAt(s, p);
    OneAt(s, e - 1);
    if specs.Some? {
      OneAt(s, q);
      ThreePieces(s, q, q + 1, e - 1, e, ":", Written(specs.value, ""), "}");
      ThreePieces(s, p, p + 1, q, e, "{", IdText(id), ":" + (Written(specs.value, "") + "}"));
    } else {
      ThreePieces(s, p, p + 1, q, e, "{", IdText(id), "}");
    }
  }

  lemma OneAt(s: string, p: nat)
    requires p < |s|
    ensures s[p..p + 1] == [s[p]]
  {
  }

  lemma FieldIs(id: Id, specs: Option<Source>)
    ensures specs.None? ==> PieceText(Field(id, specs)) == "{" + (IdText(id) + "}")
    ensures specs.Some? ==>
              PieceText(Field(id, specs)) == "{" + (IdText(id) + (":" + (Written(specs.value, "") + "}")))
  {
    hide IdText, Written;
  }

  lemma ThreePieces(s: string, p: nat, q: nat, r: nat, e: nat, a: string, b: string, c: string)
    requires p <= q <= r <= e <= |s| && s[p..q] == a && s[q..r] == b && s[r..e] == c
    ensures s[p..e] == a + (b + c)
  {
    Cut(s, q, r, e);
    Cut(s, p, q, e);
  }

  /** Specifiers that the interpreter writes with are some source with a meaning. */
  lemma SpecsFound(w: World, s: string, p: nat, at: nat, o: Output) returns (src: Source)
    requires p <= |s| && at < |w.args| && SpecField(w, s, p, at, o).Ok?
    ensures var (q, o') := SpecField(w, s, p, at, o).value;
            && p <= q < |s| && s[p..q] == Written(src, "") && SpecsMean(w, at, src, o.next).Some?
            && var (text, next) := SpecsMean(w, at, src, o.next).value; o' == Output(o.text + text, next)
  {
    var kind, q := w.args[at].kind, SpecField(w, s, p, at, o).value.0;
    SpecsParsed(w, s, p, at, o);
    SpecifierExactly(s, p, q, kind, o.next);
    src :| WrittenAs(s, p, q, kind, o.next, src);
    SpecsWritten(w, s, p, q, at, o, src);
    hide SpecsMean, SpecField, Written, Allowed, References;
  }

  lemma SpecsParsed(w: World, s: string, p: nat, at: nat, o: Output)
    requires p <= |s| && at < |w.args| && SpecField(w, s, p, at, o).Ok?
    ensures ParseSpecs(s, p, w.args[at].kind, o.next).Ok?
    ensures ParseSpecs(s, p, w.args[at].kind, o.next).value.pos == SpecField(w, s, p, at, o).value.0
  {
    hide ParseSpecs, Resolve, WriteSpecs;
  }

  // ----- all pieces -----

  /** One piece with a meaning, at the start of the rest. */
  lemma PieceRuns(w: World, s: string, p: nat, e: nat, o: Output, piece: Piece)
    requires p <= e <= |s| && s[p..e] == PieceText(piece) && PieceMeans(w, piece, o.next).Some?
    ensures var (text, next) := PieceMeans(w, piece, o.next).value;
            p < e && Run(w, s, p, o) == Run(w, s, e, Output(o.text + text, next))
  {
    if piece.Field? {
      FieldRuns(w, s, p, e, o, piece.id, piece.specs);
      hide *;
      ReplacementGrows(w, s, p, o);
    } else {
      TextPlaces(s, p, e, piece);
      hide FieldBody, PieceText;
    }
  }

  /** Where a character or a doubled brace is. */
  lemma TextPlaces(s: string, p: nat, e: nat, piece: Piece)
    requires p <= e <= |s| && s[p..e] == PieceText(piece) && !piece.Field?
    ensures piece.Literal? ==> e == p + 1 && s[p] == piece.c
    ensures piece.Brace? ==> e == p + 2 && s[p] == s[p + 1] == if piece.opening then '{' else '}'
  {
    assert |s[p..e]| == e - p;
    assert forall i :: 0 <= i < e - p ==> s[p + i] == PieceText(piece)[i];
    assert piece.Literal? ==> s[p + 0] == PieceText(piece)[0];
    assert piece.Brace? ==> s[p + 0] == PieceText(piece)[0] && s[p + 1] == PieceText(piece)[1];
  }

  lemma ReplacementGrows(w: World, s: string, p: nat, o: Output)
    requires p < |s| && s[p] == '{' && ReplacementField(w, s, p, o).Ok?
    ensures p < ReplacementField(w, s, p, o).value.0
    ensures Run(w, s, p, o) == Run(w, s, ReplacementField(w, s, p, o).value.0, ReplacementField(w, s, p, o).value.1)
  {
    hide FieldBody;
  }

  /** Pieces with a meaning written one after the other are accepted with it. */
  lemma {:induction false} PiecesRun(w: World, s: string, p: nat, o: Output, pieces: seq<Piece>)
    requires p <= |s| && s[p..] == Rendered(pieces) && PiecesMean(w, pieces, o.next).Some?
    ensures var (text, next) := PiecesMean(w, pieces, o.next).value; Run(w, s, p, o) == Ok(Output(o.text + text, next))
    decreases |pieces|
  {
    if pieces == [] {
      assert |s[p..]| == 0;
      assert o.text + "" == o.text;
    } else {
      var e, o1 := FirstRuns(w, s, p, o, pieces);
      PiecesRun(w, s, e, o1, pieces[1..]);
    }
  }

  /** The first piece is written, and the others mean what is left of the meaning. */
  lemma FirstRuns(w: World, s: string, p: nat, o: Output, pieces: seq<Piece>) returns (e: nat, o1: Output)
    requires p <= |s| && pieces != [] && s[p..] == Rendered(pieces) && PiecesMean(w, pieces, o.next).Some?
    ensures p < e <= |s| && s[e..] == Rendered(pieces[1..]) && Run(w, s, p, o) == Run(w, s, e, o1)
    ensures var rest := PiecesMean(w, pieces[1..], o1.next);
            rest.Some? && PiecesMean(w, pieces, o.next).value.1 == rest.value.1 &&
            o.text + PiecesMean(w, pieces, o.next).value.0 == o1.text + rest.value.0
  {
    var first, rest := PieceText(pieces[0]), Rendered(pieces[1..]);
    assert s[p..] == first + rest;
    FirstMeans(w, pieces, o.next);
    hide *;
    e, o1 := PieceBefore(w, s, p, o, pieces[0], rest);
    var (text, next) := PieceMeans(w, pieces[0], o.next).value;
    Regroup(o.text, text, PiecesMean(w, pieces[1..], next).value.0);
  }

  lemma Regroup(a: string, b: string, c: string)
    ensures a + b + c == a + (b + c)
  {
  }

  lemma PieceBefore(w: World, s: string, p: nat, o: Output, piece: Piece, rest: string) returns (e: nat, o1: Output)
    requires p <= |s| && s[p..] == PieceText(piece) + rest && PieceMeans(w, piece, o.next).Some?
    ensures p < e <= |s| && s[e..] == rest && Run(w, s, p, o) == Run(w, s, e, o1)
    ensures var (text, next) := PieceMeans(w, piece, o.next).value; o1 == Output(o.text + text, next)
  {
    hide *;
    e := Behind(s, p, PieceText(piece), rest);
    PieceRuns(w, s, p, e, o, piece);
    var (text, next) := PieceMeans(w, piece, o.next).value;
    o1 := Output(o.text + text, next);
  }

  lemma Behind(s: string, p: nat, a: string, rest: string) returns (e: nat)
    requires p <= |s| && s[p..] == a + rest
    ensures p <= e <= |s| && s[p..e] == a && s[e..] == rest
  {
    Begins(s, p, a, rest);
    e := p + |a|;
  }

  lemma FirstMeans(w: World, pieces: seq<Piece>, next: int)
    requires pieces != [] && PiecesMean(w, pieces, next).Some?
    ensures PieceMeans(w, pieces[0], next).Some?
    ensures var (text, next1) := PieceMeans(w, pieces[0], next).value;
            && PiecesMean(w, pieces[1..], next1).Some?
            && var (rest, next2) := PiecesMean(w, pieces[1..], next1).value;
               PiecesMean(w, pieces, next) == Some((text + rest, next2))
  {
    hide PieceMeans;
  }

  /** The piece at the start of what is accepted. */
  lemma PieceFound(w: World, s: string, p: nat, o: Output) returns (piece: Piece, e: nat, o': Output)
    requires p < |s| && Run(w, s, p, o).Ok?
    ensures p < e <= |s| && s[p..e] == PieceText(piece) && PieceMeans(w, piece, o.next).Some?
    ensures var (text, next) := PieceMeans(w, piece, o.next).value; o' == Output(o.text + text, next)
    ensures Run(w, s, p, o) == Run(w, s, e, o')
  {
    assert s[p..p + 1] == [s[p]];
    if s[p] == '{' && s[p + 1] != '{' {
      piece := FieldFound(w, s, p, o);
      hide FieldBody, PieceText, PieceMeans;
      var found := FieldBody(w, s, p + 1, o).value;
      e, o' := found.0, found.1;
    } else if s[p] == '{' || s[p] == '}' {
      piece, e := Brace(s[p] == '{'), p + 2;
      assert s[p..p + 2] == [s[p], s[p + 1]];
      o' := Output(o.text + [s[p]], o.next);
    } else {
      piece, e := Literal(s[p]), p + 1;
      o' := Output(o.text + [s[p]], o.next);
    }
  }

  /** These pieces are the rest of the string from p on, and the output goes on with their meaning. */
  predicate Covers(w: World, s: string, p: nat, o: Output, pieces: seq<Piece>)
    requires p <= |s|
  {
    && s[p..] == Rendered(pieces) && PiecesMean(w, pieces, o.next).Some?
    && var (text, next) := PiecesMean(w, pieces, o.next).value; Run(w, s, p, o) == Ok(Output(o.text + text, next))
  }

  /** What is accepted is pieces with a meaning written one after the other. */
  lemma {:induction false} PiecesFound(w: World, s: string, p: nat, o: Output) returns (pieces: seq<Piece>)
    requires p <= |s| && Run(w, s, p, o).Ok?
    ensures Covers(w, s, p, o, pieces)
    decreases |s| - p
  {
    if p == |s| {
      pieces := [];
      assert o.text + "" == o.text;
    } else {
      var piece, e, o' := PieceFound(w, s, p, o);
      hide Run, PieceText, PieceMeans, Covers;
      var rest := PiecesFound(w, s, e, o');
      pieces := [piece] + rest;
      CoversMore(w, s, p, e, o, o', piece, rest);
    }
  }

  lemma CoversMore(w: World, s: string, p: nat, e: nat, o: Output, o': Output, piece: Piece, rest: seq<Piece>)
    requires p < e <= |s| && s[p..e] == PieceText(piece) && PieceMeans(w, piece, o.next).Some?
    requires var (text, next) := PieceMeans(w, piece, o.next).value; o' == Output(o.text + text, next)
    requires Run(w, s, p, o) == Run(w, s, e, o') && Covers(w, s, e, o', rest)
    ensures Covers(w, s, p, o, [piece] + rest)
  {
    hide Run, PieceText, PieceMeans, Rendered, PiecesMean;
    Joins(s, p, e, piece, rest);
    MeansJoin(w, piece, rest, o.next);
    var (text, next) := PieceMeans(w, piece, o.next).value;
    var (tail, _) := PiecesMean(w, rest, next).value;
    assert o.text + text + tail == o.text + (text + tail);
  }

  lemma Joins(s: string, p: nat, e: nat, piece: Piece, rest: seq<Piece>)
    requires p <= e <= |s| && s[p..e] == PieceText(piece) && s[e..] == Rendered(rest)
    ensures s[p..] == Rendered([piece] + rest)
  {
    hide PieceText;
    assert ([piece] + rest)[1..] == rest;
    Adjoin(s, p, e, PieceText(piece), Rendered(rest));
  }

  lemma MeansJoin(w: World, piece: Piece, rest: seq<Piece>, next: int)
    requires PieceMeans(w, piece, next).Some? && PiecesMean(w, rest, PieceMeans(w, piece, next).value.1).Some?
    ensures var (text, next1) := PieceMeans(w, piece, next).value;
            var (tail, next2) := PiecesMean(w, rest, next1).value;
            PiecesMean(w, [piece] + rest, next) == Some((text + tail, next2))
  {
    hide PieceMeans;
    assert ([piece] + rest)[1..] == rest;
  }

  // ----- the result -----

  /** These pieces, written one after the other, are this format string, and stand for this text. */
  ghost predicate Stands(w: World, s: string, pieces: seq<Piece>, text: string) {
    s == Rendered(pieces) && PiecesMean(w, pieces, 0).Some? && PiecesMean(w, pieces, 0).value.0 == text
  }

  /** A format string yields a text if and only if it is written from pieces that stand for it. */
  lemma FormatExactly(w: World, s: string, text: string)
    ensures Format(w, s) == Ok(text) <==> exists pieces :: Stands(w, s, pieces, text)
  {
    hide Run, Rendered, PiecesMean;
    var o := Output("", 0);
    assert s[0..] == s;
    ShortcutAgrees(w);
    if Format(w, s) == Ok(text) {
      var pieces := PiecesFound(w, s, 0, o);
      assert "" + PiecesMean(w, pieces, 0).value.0 == PiecesMean(w, pieces, 0).value.0;
      assert Stands(w, s, pieces, text);
    }
    if pieces :| Stands(w, s, pieces, text) {
      PiecesRun(w, s, 0, o, pieces);
      assert "" + text == text;
    }
  }
}
