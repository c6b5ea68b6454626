/** The compiler from format strings to trees of writers, and its agreement with the interpreter. */
module CompiledFormat {
  import opened Outcomes
  import opened FormatSyntax
  import opened FormatRun

  // ----- trees -----

  datatype Tree =
    | Text(data: string)
    | CodeUnit(unit: char)
    | Field(index: nat)
    | NamedField(name: string)
    | SpecsField(at: nat, specs: Specs)
    | Concat(lhs: Tree, rhs: Tree)

  /** The first argument of this name, each tried in turn. */
  function TryNamed(w: World, name: string, from: nat): Result<string>
    requires from <= |w.args|
    decreases |w.args| - from
  {
    if from == |w.args| then Err("argument with specified name is not found")
    else if w.args[from].name == Some(name) then w.write(w.args[from])
    else TryNamed(w, name, from + 1)
  }

  function Execute(w: World, tree: Tree): Result<string> {
    match tree
    case Text(data) => Ok(data)
    case CodeUnit(unit) => Ok([unit])
    case Field(index) => var arg :- GetArg(w, index); w.write(arg)
    case NamedField(name) => TryNamed(w, name, 0)
    case SpecsField(at, specs) =>
      var arg :- GetArg(w, at);
      if specs.widthRef.NoRef? && specs.precisionRef.NoRef? then WriteSpecs(w, arg, specs)
      else var resolved :- Resolve(w, specs); WriteSpecs(w, arg, resolved)
    case Concat(lhs, rhs) =>
      var left :- Execute(w, lhs);
      var right :- Execute(w, rhs);
      Ok(left + right)
  }

  // ----- the compiler -----

  /** Unknown is left to the interpreter; Rejected is a compile-time error. */
  datatype Compiled = Unit(tree: Tree) | Unknown | Rejected(message: string)

  const MANUAL: int := -1

  function TextEnd(s: string, pos: nat): (e: nat)
    requires pos <= |s|
    ensures pos <= e <= |s|
    ensures forall i :: pos <= i < e ==> IsText(s[i])
    ensures e < |s| ==> !IsText(s[e])
    decreases |s| - pos
  {
    if pos == |s| || !IsText(s[pos]) then pos else TextEnd(s, pos + 1)
  }

  /** The scan of the source's loop. */
  method ParseText(s: string, pos0: nat) returns (pos: nat)
    requires pos0 <= |s|
    ensures pos == TextEnd(s, pos0)
  {
    pos := pos0;
    while pos != |s|
      invariant pos0 <= pos <= |s| && TextEnd(s, pos) == TextEnd(s, pos0)
    {
      if s[pos] == '{' || s[pos] == '}' { break; }
      pos := pos + 1;
    }
  }

  /** Specifiers at compile time: the counter starts anew when indexing is manual. */
  function ParseSpecsOf(s: string, pos: nat, kind: Kind, next: int): (r: Result<Scan>)
    requires pos <= |s|
    ensures r.Ok? ==> pos <= r.value.pos <= |s|
  {
    var scan :- ParseSpecs(s, pos, kind, next);
    if kind.CharKind? && CharSpecsRejected(scan.specs) then Err("invalid format specifier for char") else
    var id :- if next == 0 then Ok(MANUAL) else NextArgId(scan.next);
    Ok(scan.(next := id))
  }

  function ParseTail(kinds: seq<Kind>, s: string, pos: nat, id: int, head: Tree): Compiled
    requires pos <= |s|
    decreases |s| - pos, 1
  {
    if pos == |s| then Unit(head) else
    match Compile(kinds, s, pos, id)
    case Unit(tail) => Unit(Concat(head, tail))
    case Unknown => Unknown
    case Rejected(m) => Rejected(m)
  }

  function FieldThenTail(kinds: seq<Kind>, s: string, end: nat, index: nat, id: int): Compiled
    requires end < |s| && index < |kinds|
    decreases |s| - end, 0
  {
    if s[end] == '}' then ParseTail(kinds, s, end + 1, id, Field(index))
    else if s[end] != ':' then Rejected("expected ':'")
    else
      match ParseSpecsOf(s, end + 1, kinds[index], if id == MANUAL then 0 else id)
      case Err(m) => Rejected(m)
      case Ok(scan) =>
        if scan.pos == |s| || s[scan.pos] != '}' then Rejected("expected '}'")
        else ParseTail(kinds, s, scan.pos + 1, scan.next, SpecsField(index, scan.specs))
  }

  /** A non-empty format string from pos on, id being the next automatic argument. */
  function Compile(kinds: seq<Kind>, s: string, pos: nat, id: int): Compiled
    requires pos < |s|
    decreases |s| - pos, 0
  {
    if s[pos] == '{' then
      if pos + 1 == |s| then Rejected("unmatched '{' in format string")
      else if s[pos + 1] == '{' then ParseTail(kinds, s, pos + 2, id, Text("{"))
      else if s[pos + 1] == '}' || s[pos + 1] == ':' then
        if id < 0 then Rejected("cannot switch from manual to automatic argument indexing")
        else if id >= |kinds| then Rejected("index is out of bounds")
        else FieldThenTail(kinds, s, pos + 1, id, id + 1)
      else CompileExplicit(kinds, s, pos + 1, id)
    else if s[pos] == '}' then
      if pos + 1 == |s| then Rejected("unmatched '}' in format string")
      else ParseTail(kinds, s, pos + 2, id, Text("}"))
    else
      var end := TextEnd(s, pos + 1);
      ParseTail(kinds, s, end, id, if end - pos > 1 then Text(s[pos..end]) else CodeUnit(s[pos]))
  }

  /** A field with a written argument id. */
  function CompileExplicit(kinds: seq<Kind>, s: string, pos: nat, id: int): Compiled
    requires pos < |s| && s[pos] != '}' && s[pos] != ':'
    decreases |s| - pos, 2
  {
    match ParseArgId(s, pos)
    case Err(m) => Rejected(m)
    case Ok((end, argId)) =>
      if end == |s| || (s[end] != '}' && s[end] != ':') then Rejected("missing '}' in format string") else
      match argId
      case Index(i) =>
        if id != MANUAL && id != 0 then Rejected("cannot switch from automatic to manual argument indexing")
        else if !(0 <= i < |kinds|) then Rejected("index is out of bounds")
        else FieldThenTail(kinds, s, end, i, MANUAL)
      case Name(name) =>
        if s[end] == '}' then ParseTail(kinds, s, end + 1, id, NamedField(name)) else Unknown
      case Auto => Rejected("handler cannot be used with automatic indexing")
  }

  function Kinds(args: seq<Arg>): (ks: seq<Kind>)
    ensures |ks| == |args| && forall i :: 0 <= i < |args| ==> ks[i] == args[i].kind
  {
    seq(|args|, i requires 0 <= i < |args| => args[i].kind)
  }

  /** Formatting through a compiled string: the first argument alone, the tree, or the interpreter. */
  function FormatCompiled(w: World, s: string): Result<string> {
    if s == "{}" then
      if w.args == [] then Err("no matching function") else w.write(w.args[0])
    else if s == "" then Execute(w, Text(""))
    else
      match Compile(Kinds(w.args), s, 0, 0)
      case Unit(tree) => Execute(w, tree)
      case Unknown => Format(w, s)
      case Rejected(m) => Err(m)
  }
}
