/**
 * Command lines as they are written: options with their values, groups of letters, words. A command line is read
 * exactly if it is a sequence of such pieces, and what is recorded is what the pieces say.
 */
module CommandGrammar {
  import opened Outcomes
  import opened CommandLine

  // ----- pieces -----

  datatype Kind =
    | Alone(name: string)                    // a long option that stands for its implicit value
    | With(name: string, value: string)      // a long option with a value behind an equals sign
    | Before(name: string)                   // a long option with its value in the next argument
    | Letters(names: string, at: nat)        // flags up to a letter, which takes what follows as its value
    | Unknown(name: string)
    | Blank
    | Word(place: nat)                       // for the positional option of this place
    | Spare

  datatype Piece = Piece(args: seq<string>, kind: Kind)

  function Flat(pieces: seq<Piece>): seq<string> {
    if pieces == [] then [] else pieces[0].args + Flat(pieces[1..])
  }

  /** The positional cursor, what was recorded and what is left over. */
  datatype State = State(next: nat, entries: seq<Entry>, unmatched: seq<string>)

  /** What an option is listed under: its first long name, or its letter if it has none. */
  function ListedAs(cfg: Config, name: string): string
    requires name in cfg.options
  {
    var d := cfg.options[name];
    if |d.long| > 0 then d.long[0] else d.short
  }

  predicate Flag(cfg: Config, name: string) {
    name in cfg.options && cfg.options[name].implicitValue.Some?
  }

  predicate Valued(cfg: Config, name: string) {
    name in cfg.options && cfg.options[name].implicitValue.None?
  }

  predicate Takes(cfg: Config, name: string, value: string)
    requires name in cfg.options
  {
    cfg.accepts(ListedAs(cfg, name), value)
  }

  // ----- how a piece is written -----

  /** How many arguments the piece has, and what they are cut into. */
  ghost predicate Written(cfg: Config, p: Piece) {
    match p.kind
    case Alone(name) => |p.args| == 1 && name != "" && IsLong(cfg, p.args[0], name)
    case With(name, value) =>
      |p.args| == 1 && name != "" && cfg.tokenize(p.args[0]) == Some(Token(false, name, true, value))
    case Before(name) => |p.args| == 2 && name != "" && IsLong(cfg, p.args[0], name)
    case Letters(names, at) =>
      |p.args| == (if at + 1 == |names| then 2 else 1) && IsGroup(cfg, p.args[0], names)
    case Unknown(name) =>
      |p.args| == 1 && name != "" &&
      exists valued, value :: cfg.tokenize(p.args[0]) == Some(Token(false, name, valued, value))
    case Blank =>
      |p.args| == 1 && exists valued, value :: cfg.tokenize(p.args[0]) == Some(Token(false, "", valued, value))
    case Word(_) => |p.args| == 1
    case Spare => |p.args| == 1
  }

  ghost predicate IsLong(cfg: Config, a: string, name: string) {
    exists value :: cfg.tokenize(a) == Some(Token(false, name, false, value))
  }

  ghost predicate IsGroup(cfg: Config, a: string, names: string) {
    exists valued, value :: cfg.tokenize(a) == Some(Token(true, names, valued, value))
  }

  /** Ahead of a double dash words are no options, and look like some only if unknown options are left over. */
  ghost predicate Ahead(cfg: Config, p: Piece)
    requires Written(cfg, p)
  {
    var a := p.args[0];
    && a != "--"
    && (p.kind.Word? || p.kind.Spare? ==>
          cfg.tokenize(a).None? && (|a| > 1 && a[0] == '-' ==> cfg.allowUnrecognised))
  }

  // ----- what a piece means -----

  /** The letters from i up to another one are flags, or unknown ones that may be left over. */
  predicate Flags(cfg: Config, names: string, i: nat, at: nat)
    requires i <= at <= |names|
  {
    forall k :: i <= k < at ==>
      if [names[k]] in cfg.options then
        Flag(cfg, [names[k]]) && Takes(cfg, [names[k]], cfg.options[[names[k]]].implicitValue.value)
      else cfg.allowUnrecognised
  }

  /** What the flags record: the implicit value of each. */
  function FlagEntries(cfg: Config, names: string, i: nat, at: nat): seq<Entry>
    requires i <= at <= |names| && Flags(cfg, names, i, at)
    decreases at - i
  {
    if i == at then []
    else
      var name := [names[i]];
      (if name in cfg.options then [(ListedAs(cfg, name), cfg.options[name].implicitValue.value)] else [])
      + FlagEntries(cfg, names, i + 1, at)
  }

  function UnknownLetters(cfg: Config, names: string, i: nat, at: nat): seq<string>
    requires i <= at <= |names|
    decreases at - i
  {
    if i == at then []
    else
      (if [names[i]] in cfg.options then [] else ["-" + [names[i]]]) + UnknownLetters(cfg, names, i + 1, at)
  }

  /** The value of the letter behind the flags: the rest of the group, or the next argument. */
  function LetterValue(p: Piece): string
    requires p.kind.Letters? && p.kind.at < |p.kind.names| && (p.kind.at + 1 == |p.kind.names| ==> |p.args| == 2)
  {
    if p.kind.at + 1 == |p.kind.names| then p.args[1] else p.kind.names[p.kind.at + 1..]
  }

  /** The positional option of this place takes one value and has one, or its hash does. */
  ghost predicate Full(cfg: Config, entries: seq<Entry>, j: nat)
    requires j < |cfg.positional|
  {
    var name := cfg.positional[j];
    && name in cfg.options && !cfg.options[name].container
    && exists e <- entries :: cfg.HashOf(e.0) == cfg.HashOf(name)
  }

  /** The piece can stand here. */
  ghost predicate Fits(cfg: Config, p: Piece, s: State)
    requires Written(cfg, p)
  {
    match p.kind
    case Alone(name) => Flag(cfg, name) && Takes(cfg, name, cfg.options[name].implicitValue.value)
    case With(name, value) => name in cfg.options && Takes(cfg, name, value)
    case Before(name) => Valued(cfg, name) && Takes(cfg, name, p.args[1])
    case Letters(names, at) =>
      && at <= |names| && Flags(cfg, names, 0, at)
      && (at < |names| ==> Valued(cfg, [names[at]]) && Takes(cfg, [names[at]], LetterValue(p)))
    case Unknown(name) => name !in cfg.options && cfg.allowUnrecognised
    case Blank => true
    case Word(j) =>
      && s.next <= j < |cfg.positional| && (forall i :: s.next <= i < j ==> Full(cfg, s.entries, i))
      && cfg.positional[j] in cfg.options && !Full(cfg, s.entries, j) && Takes(cfg, cfg.positional[j], p.args[0])
    case Spare => forall i :: s.next <= i < |cfg.positional| ==> Full(cfg, s.entries, i)
  }

  ghost function After(cfg: Config, p: Piece, s: State): State
    requires Written(cfg, p) && Fits(cfg, p, s)
  {
    match p.kind
    case Alone(name) => s.(entries := s.entries + [(ListedAs(cfg, name), cfg.options[name].implicitValue.value)])
    case With(name, value) => s.(entries := s.entries + [(ListedAs(cfg, name), value)])
    case Before(name) => s.(entries := s.entries + [(ListedAs(cfg, name), p.args[1])])
    case Letters(names, at) =>
      var last := if at == |names| then [] else [(ListedAs(cfg, [names[at]]), LetterValue(p))];
      s.(entries := s.entries + FlagEntries(cfg, names, 0, at) + last,
         unmatched := s.unmatched + UnknownLetters(cfg, names, 0, at))
    case Unknown(_) => s.(unmatched := s.unmatched + p.args)
    case Blank => s
    case Word(j) =>
      State(if cfg.options[cfg.positional[j]].container then j else j + 1,
            s.entries + [(ListedAs(cfg, cfg.positional[j]), p.args[0])], s.unmatched)
    case Spare => s.(next := |cfg.positional|, unmatched := s.unmatched + p.args)
  }

  // ----- runs of pieces -----

  /** The pieces can stand one behind the other, each where those before it leave the state. */
  ghost predicate AllFit(cfg: Config, pieces: seq<Piece>, s: State) {
    pieces != [] ==>
      && Written(cfg, pieces[0]) && Fits(cfg, pieces[0], s)
      && AllFit(cfg, pieces[1..], After(cfg, pieces[0], s))
  }

  ghost function AfterAll(cfg: Config, pieces: seq<Piece>, s: State): State
    requires AllFit(cfg, pieces, s)
  {
    if pieces == [] then s else AfterAll(cfg, pieces[1..], After(cfg, pieces[0], s))
  }

  ghost predicate AllAhead(cfg: Config, pieces: seq<Piece>) {
    forall p <- pieces :: Written(cfg, p) && Ahead(cfg, p)
  }

  predicate Words(pieces: seq<Piece>) {
    forall p <- pieces :: p.kind.Word? || p.kind.Spare?
  }

  function Stands(r: Run): State { State(r.next, r.entries, r.unmatched) }

  function At(k: nat, s: State): Run { Run(k, s.next, s.entries, s.unmatched) }

  // ----- groups -----

  /** What a letter before the last one adds. */
  function LetterEntries(cfg: Config, name: string): seq<Entry>
    requires name in cfg.options ==> Flag(cfg, name)
  {
    if name in cfg.options then [(ListedAs(cfg, name), cfg.options[name].implicitValue.value)] else []
  }

  function LetterLeft(cfg: Config, name: string): seq<string> {
    if name in cfg.options then [] else ["-" + name]
  }

  function Plus(s: State, entries: seq<Entry>, unmatched: seq<string>): State {
    s.(entries := s.entries + entries, unmatched := s.unmatched + unmatched)
  }

  lemma PlusPlus(s: State, e1: seq<Entry>, e2: seq<Entry>, u1: seq<string>, u2: seq<string>)
    ensures Plus(Plus(s, e1, u1), e2, u2) == Plus(s, e1 + e2, u1 + u2) && Plus(s, [], []) == s
  {
    assert s.entries + e1 + e2 == s.entries + (e1 + e2);
    assert s.unmatched + u1 + u2 == s.unmatched + (u1 + u2);
  }

  lemma GroupLetter(cfg: Config, argv: seq<string>, k: nat, s: State, names: string, i: nat)
    requires k < |argv| && i < |names| && Flags(cfg, names, i, i + 1)
    ensures Group(cfg, argv, At(k, s), names, i) ==
              Group(cfg, argv, At(k, Plus(s, LetterEntries(cfg, [names[i]]), LetterLeft(cfg, [names[i]]))), names,
                    i + 1)
  {
    var name := [names[i]];
    if name in cfg.options {
      assert s.unmatched + [] == s.unmatched;
    } else {
      assert "-" + name == ['-', names[i]] && s.entries + [] == s.entries;
    }
  }

  lemma FlagsSplit(cfg: Config, names: string, i: nat, at: nat)
    requires i < at <= |names| && Flags(cfg, names, i, at)
    ensures Flags(cfg, names, i, i + 1) && Flags(cfg, names, i + 1, at)
    ensures FlagEntries(cfg, names, i, at) == LetterEntries(cfg, [names[i]]) + FlagEntries(cfg, names, i + 1, at)
    ensures UnknownLetters(cfg, names, i, at) == LetterLeft(cfg, [names[i]]) + UnknownLetters(cfg, names, i + 1, at)
  {
  }

  /** Flags from i on are recorded one by one. */
  lemma {:induction false} GroupFlags(cfg: Config, argv: seq<string>, k: nat, s: State, names: string, i: nat, at: nat)
    requires k < |argv| && i <= at <= |names| && Flags(cfg, names, i, at)
    ensures Group(cfg, argv, At(k, s), names, i) ==
              Group(cfg, argv, At(k, Plus(s, FlagEntries(cfg, names, i, at), UnknownLetters(cfg, names, i, at))),
                    names, at)
    decreases at - i
  {
    if i < at {
      FlagsSplit(cfg, names, i, at);
      hide *;
      var e, u := LetterEntries(cfg, [names[i]]), LetterLeft(cfg, [names[i]]);
      GroupLetter(cfg, argv, k, s, names, i);
      GroupFlags(cfg, argv, k, Plus(s, e, u), names, i + 1, at);
      PlusPlus(s, e, FlagEntries(cfg, names, i + 1, at), u, UnknownLetters(cfg, names, i + 1, at));
    } else {
      PlusPlus(s, [], [], [], []);
    }
  }

  /** The letters before the first that takes a value, in a group that is read. */
  lemma {:induction false} GroupStops(cfg: Config, argv: seq<string>, k: nat, s: State, names: string, i: nat)
    returns (at: nat)
    requires k < |argv| && i <= |names| && Group(cfg, argv, At(k, s), names, i).Ok?
    ensures i <= at <= |names| && Flags(cfg, names, i, at) && (at < |names| ==> Valued(cfg, [names[at]]))
    decreases |names| - i
  {
    at := i;
    if i < |names| && !Valued(cfg, [names[i]]) {
      LetterRead(cfg, argv, k, s, names, i);
      GroupLetter(cfg, argv, k, s, names, i);
      hide *;
      at := GroupStops(cfg, argv, k, Plus(s, LetterEntries(cfg, [names[i]]), LetterLeft(cfg, [names[i]])), names,
                       i + 1);
      FlagsJoin(cfg, names, i, at);
    } else {
      NoFlags(cfg, names, i);
    }
  }

  lemma NoFlags(cfg: Config, names: string, i: nat)
    requires i <= |names|
    ensures Flags(cfg, names, i, i)
  {
  }

  lemma FlagsJoin(cfg: Config, names: string, i: nat, at: nat)
    requires i < at <= |names| && Flags(cfg, names, i, i + 1) && Flags(cfg, names, i + 1, at)
    ensures Flags(cfg, names, i, at)
  {
  }

  lemma LetterRead(cfg: Config, argv: seq<string>, k: nat, s: State, names: string, i: nat)
    requires k < |argv| && i < |names| && Group(cfg, argv, At(k, s), names, i).Ok? && !Valued(cfg, [names[i]])
    ensures Flags(cfg, names, i, i + 1)
  {
  }

  /** The letter that takes a value: the rest of the group, or else the next argument. */
  lemma GroupValue(cfg: Config, argv: seq<string>, k: nat, s: State, names: string, at: nat)
    requires k < |argv| && at < |names| && Valued(cfg, [names[at]])
    ensures var r := Group(cfg, argv, At(k, s), names, at);
            var value := if at + 1 < |names| then names[at + 1..] else if k + 1 < |argv| then argv[k + 1] else "";
            if (at + 1 == |names| && k + 1 == |argv|) || !Takes(cfg, [names[at]], value) then r.Err?
            else
              r == Ok(At(if at + 1 == |names| then k + 1 else k,
                         Plus(s, [(ListedAs(cfg, [names[at]]), value)], [])))
  {
    assert s.unmatched + [] == s.unmatched;
  }

  // ----- words -----

  lemma {:induction false} CountPositive(cfg: Config, entries: seq<Entry>, h: int)
    ensures HashCount(cfg, entries, h) > 0 <==> exists e <- entries :: cfg.HashOf(e.0) == h
  {
    if entries != [] {
      var rest, e := entries[..|entries| - 1], entries[|entries| - 1];
      CountPositive(cfg, rest, h);
      assert entries == rest + [e];
    }
  }

  /** The positional option at the cursor: passed when it is full, else it takes the word or the run fails. */
  lemma WordStep(cfg: Config, k: nat, s: State, a: string)
    requires s.next < |cfg.positional|
    ensures var name := cfg.positional[s.next];
            && (Full(cfg, s.entries, s.next) ==>
                  Positional(cfg, At(k, s), a) == Positional(cfg, At(k, s.(next := s.next + 1)), a))
            && (!Full(cfg, s.entries, s.next) && (name !in cfg.options || !Takes(cfg, name, a)) ==>
                  Positional(cfg, At(k, s), a).Err?)
            && (!Full(cfg, s.entries, s.next) && name in cfg.options && Takes(cfg, name, a) ==>
                  Positional(cfg, At(k, s), a) ==
                  Ok((true, At(k, State(if cfg.options[name].container then s.next else s.next + 1,
                                        s.entries + [(ListedAs(cfg, name), a)], s.unmatched)))))
  {
    hide HashCount;
    if cfg.positional[s.next] in cfg.options { CountPositive(cfg, s.entries, cfg.HashOf(cfg.positional[s.next])); }
  }

  lemma {:induction false} WordPasses(cfg: Config, k: nat, s: State, a: string, j: nat)
    requires s.next <= j <= |cfg.positional| && forall i :: s.next <= i < j ==> Full(cfg, s.entries, i)
    ensures Positional(cfg, At(k, s), a) == Positional(cfg, At(k, s.(next := j)), a)
    decreases j - s.next
  {
    hide Full, Positional;
    if s.next < j {
      WordStep(cfg, k, s, a);
      WordPasses(cfg, k, s.(next := s.next + 1), a, j);
    }
  }

  lemma WordReads(cfg: Config, k: nat, s: State, p: Piece)
    requires s.next <= |cfg.positional| && Words([p]) && Written(cfg, p) && Fits(cfg, p, s)
    ensures Positional(cfg, At(k, s), p.args[0]) ==
            Ok((p.kind.Word?, At(k, if p.kind.Word? then After(cfg, p, s) else s.(next := |cfg.positional|))))
  {
    assert [p][0] == p;
    var j := if p.kind.Word? then p.kind.place else |cfg.positional|;
    hide Full, Words;
    WordPasses(cfg, k, s, p.args[0], j);
    if j < |cfg.positional| { WordStep(cfg, k, s.(next := j), p.args[0]); }
  }

  /** Where a word goes, or that it goes nowhere, in a run that does not fail at it. */
  lemma {:induction false} WordWritten(cfg: Config, k: nat, s: State, a: string) returns (p: Piece)
    requires s.next <= |cfg.positional| && Positional(cfg, At(k, s), a).Ok?
    ensures p.args == [a] && Words([p]) && Written(cfg, p) && Fits(cfg, p, s)
    decreases |cfg.positional| - s.next
  {
    hide Full, Positional;
    if s.next == |cfg.positional| {
      p := Piece([a], Spare);
    } else {
      WordStep(cfg, k, s, a);
      if Full(cfg, s.entries, s.next) {
        p := WordWritten(cfg, k, s.(next := s.next + 1), a);
        assert [p][0] == p;
      } else {
        p := Piece([a], Word(s.next));
      }
    }
  }

  // ----- one piece -----

  /** The piece stands in the argument vector at k. */
  predicate StandsAt(argv: seq<string>, k: nat, p: Piece) {
    k + |p.args| <= |argv| && argv[k..k + |p.args|] == p.args
  }

  lemma GroupReads(cfg: Config, argv: seq<string>, k: nat, s: State, p: Piece)
    requires StandsAt(argv, k, p) && p.kind.Letters? && Written(cfg, p) && Fits(cfg, p, s)
    ensures Group(cfg, argv, At(k, s), p.kind.names, 0) == Ok(At(k + |p.args| - 1, After(cfg, p, s)))
  {
    var names, at := p.kind.names, p.kind.at;
    var e, u := FlagEntries(cfg, names, 0, at), UnknownLetters(cfg, names, 0, at);
    GroupFlags(cfg, argv, k, s, names, 0, at);
    if at < |names| {
      assert at + 1 == |names| ==> p.args[1] == argv[k..k + |p.args|][1] == argv[k + 1];
      GroupValue(cfg, argv, k, Plus(s, e, u), names, at);
      PlusPlus(s, e, [(ListedAs(cfg, [names[at]]), LetterValue(p))], u, []);
      hide FlagEntries, UnknownLetters, Flags, Group;
      assert u + [] == u;
      assert s.entries + e + [(ListedAs(cfg, [names[at]]), LetterValue(p))] == After(cfg, p, s).entries;
    } else {
      hide FlagEntries, UnknownLetters, Flags;
      assert s.entries + e + [] == s.entries + e;
    }
  }

  lemma GroupWritten(cfg: Config, argv: seq<string>, k: nat, s: State, names: string) returns (p: Piece)
    requires k < |argv| && IsGroup(cfg, argv[k], names) && Group(cfg, argv, At(k, s), names, 0).Ok?
    ensures StandsAt(argv, k, p) && p.kind.Letters? && Written(cfg, p) && Fits(cfg, p, s)
  {
    var at := GroupStops(cfg, argv, k, s, names, 0);
    var e, u := FlagEntries(cfg, names, 0, at), UnknownLetters(cfg, names, 0, at);
    GroupFlags(cfg, argv, k, s, names, 0, at);
    if at < |names| { GroupValue(cfg, argv, k, Plus(s, e, u), names, at); }
    hide FlagEntries, UnknownLetters, Flags, Group, IsGroup;
    p := Piece(if at + 1 == |names| then [argv[k], argv[k + 1]] else [argv[k]], Letters(names, at));
    assert argv[k..k + |p.args|] == p.args;
  }

  predicate Long(p: Piece) {
    p.kind.Alone? || p.kind.With? || p.kind.Before? || p.kind.Unknown? || p.kind.Blank?
  }

  lemma LongReads(cfg: Config, argv: seq<string>, k: nat, s: State, p: Piece)
    requires s.next <= |cfg.positional|
    requires StandsAt(argv, k, p) && Long(p) && Written(cfg, p) && Fits(cfg, p, s)
    ensures WalkOne(cfg, argv, At(k, s)) == Ok(At(k + |p.args| - 1, After(cfg, p, s)))
  {
    assert p.args[0] == argv[k..k + |p.args|][0] == argv[k];
    assert p.kind.Before? ==> p.args[1] == argv[k..k + |p.args|][1] == argv[k + 1];
    assert [argv[k]] == argv[k..k + 1];
    hide Positional, Group;
  }

  lemma LongWritten(cfg: Config, argv: seq<string>, k: nat, s: State) returns (p: Piece)
    requires k < |argv| && s.next <= |cfg.positional| && WalkOne(cfg, argv, At(k, s)).Ok?
    requires cfg.tokenize(argv[k]).Some? && !cfg.tokenize(argv[k]).value.grouping
    ensures StandsAt(argv, k, p) && Long(p) && Written(cfg, p) && Fits(cfg, p, s)
  {
    var Token(_, name, valued, value) := cfg.tokenize(argv[k]).value;
    hide Positional, Group;
    assert [argv[k]] == argv[k..k + 1];
    if name == "" {
      p := Piece([argv[k]], Blank);
    } else if name !in cfg.options {
      p := Piece([argv[k]], Unknown(name));
    } else if valued {
      p := Piece([argv[k]], With(name, value));
    } else if Flag(cfg, name) {
      p := Piece([argv[k]], Alone(name));
    } else {
      p := Piece([argv[k], argv[k + 1]], Before(name));
      assert argv[k..k + 2] == p.args;
    }
  }

  /** A piece that stands at the cursor is read: the cursor goes behind it, and it adds what it means. */
  lemma PieceReads(cfg: Config, argv: seq<string>, k: nat, s: State, p: Piece)
    requires s.next <= |cfg.positional| && StandsAt(argv, k, p) && Written(cfg, p) && Ahead(cfg, p) && Fits(cfg, p, s)
    ensures |p.args| >= 1 && argv[k] != "--"
    ensures WalkOne(cfg, argv, At(k, s)) == Ok(At(k + |p.args| - 1, After(cfg, p, s)))
  {
    assert p.args[0] == argv[k..k + |p.args|][0] == argv[k];
    if p.kind.Letters? {
      GroupReads(cfg, argv, k, s, p);
      hide Fits, After, Positional, Group;
    } else if Long(p) {
      LongReads(cfg, argv, k, s, p);
      hide *;
    } else {
      WordReads(cfg, k, s, p) by { assert [p][0] == p; }
      hide Group, LongOption, Full, Positional;
      assert [argv[k]] == p.args;
    }
  }

  /** Whatever is read at the cursor is a piece that fits there. */
  lemma PieceWritten(cfg: Config, argv: seq<string>, k: nat, s: State) returns (p: Piece)
    requires k < |argv| && s.next <= |cfg.positional| && argv[k] != "--" && WalkOne(cfg, argv, At(k, s)).Ok?
    ensures StandsAt(argv, k, p) && Written(cfg, p) && Ahead(cfg, p) && Fits(cfg, p, s)
  {
    if cfg.tokenize(argv[k]).None? {
      p := WordWritten(cfg, k, s, argv[k]);
      assert [p][0] == p;
      hide Fits, Positional;
      assert argv[k..k + 1] == [argv[k]];
    } else {
      if cfg.tokenize(argv[k]).value.grouping {
        p := GroupWritten(cfg, argv, k, s, cfg.tokenize(argv[k]).value.name);
      } else {
        p := LongWritten(cfg, argv, k, s);
      }
      hide Fits, Positional, Group, LongOption;
      assert p.args[0] == argv[k..k + |p.args|][0] == argv[k];
    }
  }

  // ----- the whole command line -----

  lemma AfterNext(cfg: Config, p: Piece, s: State)
    requires Written(cfg, p) && Fits(cfg, p, s) && s.next <= |cfg.positional|
    ensures After(cfg, p, s).next <= |cfg.positional| && |p.args| >= 1
  {
  }

  /** The first piece stands at k, and the others behind it. */
  lemma FlatAt(argv: seq<string>, k: nat, end: nat, pieces: seq<Piece>)
    requires k <= end <= |argv| && argv[k..end] == Flat(pieces) && pieces != []
    ensures StandsAt(argv, k, pieces[0]) && k + |pieces[0].args| <= end
    ensures argv[k + |pieces[0].args|..end] == Flat(pieces[1..])
  {
    var p := pieces[0];
    assert argv[k..end] == p.args + Flat(pieces[1..]);
    assert argv[k..end][..|p.args|] == argv[k..k + |p.args|];
    assert argv[k..end][|p.args|..] == argv[k + |p.args|..end];
  }

  lemma FlatFrom(argv: seq<string>, k: nat, end: nat, p: Piece, pieces: seq<Piece>)
    requires StandsAt(argv, k, p) && k + |p.args| <= end <= |argv| && argv[k + |p.args|..end] == Flat(pieces)
    ensures argv[k..end] == Flat([p] + pieces)
  {
    assert ([p] + pieces)[1..] == pieces;
    assert argv[k..end] == argv[k..k + |p.args|] + argv[k + |p.args|..end];
  }

  lemma FitMore(cfg: Config, p: Piece, pieces: seq<Piece>, s: State)
    requires Written(cfg, p) && Fits(cfg, p, s) && AllFit(cfg, pieces, After(cfg, p, s))
    ensures AllFit(cfg, [p] + pieces, s) && AfterAll(cfg, [p] + pieces, s) == AfterAll(cfg, pieces, After(cfg, p, s))
  {
    assert ([p] + pieces)[1..] == pieces;
    hide Written, Fits, After;
  }

  lemma FitFirst(cfg: Config, pieces: seq<Piece>, s: State)
    requires pieces != [] && AllFit(cfg, pieces, s)
    ensures Written(cfg, pieces[0]) && Fits(cfg, pieces[0], s) && AllFit(cfg, pieces[1..], After(cfg, pieces[0], s))
    ensures AfterAll(cfg, pieces, s) == AfterAll(cfg, pieces[1..], After(cfg, pieces[0], s))
  {
    hide Written, Fits, After;
  }

  lemma {:induction false} WalkReads(cfg: Config, argv: seq<string>, k: nat, end: nat, s: State, pieces: seq<Piece>)
    requires k <= end <= |argv| && s.next <= |cfg.positional| && (end < |argv| ==> argv[end] == "--")
    requires argv[k..end] == Flat(pieces) && AllAhead(cfg, pieces) && AllFit(cfg, pieces, s)
    ensures AfterAll(cfg, pieces, s).next <= |cfg.positional|
    ensures Walk(cfg, argv, At(k, s)) ==
            Ok((At(if end < |argv| then end + 1 else end, AfterAll(cfg, pieces, s)), end < |argv|))
    decreases |pieces|
  {
    hide WalkOne, Fits, After, Written, Ahead, AllFit, Flat;
    if pieces == [] {
      NoPieces(cfg, s);
    } else {
      var p := pieces[0];
      assert p in pieces;
      FlatAt(argv, k, end, pieces);
      FitFirst(cfg, pieces, s);
      AfterNext(cfg, p, s);
      PieceReads(cfg, argv, k, s, p);
      WalkReads(cfg, argv, k + |p.args|, end, After(cfg, p, s), pieces[1..]);
    }
  }

  lemma NoPieces(cfg: Config, s: State)
    ensures Flat([]) == [] && AllFit(cfg, [], s) && AfterAll(cfg, [], s) == s && Words([])
  {
  }

  lemma {:induction false} WalkWritten(cfg: Config, argv: seq<string>, k: nat, s: State)
    returns (pieces: seq<Piece>, end: nat)
    requires k <= |argv| && s.next <= |cfg.positional| && Walk(cfg, argv, At(k, s)).Ok?
    ensures k <= end <= |argv| && (end < |argv| ==> argv[end] == "--")
    ensures argv[k..end] == Flat(pieces) && AllAhead(cfg, pieces) && AllFit(cfg, pieces, s)
    decreases |argv| - k
  {
    hide WalkOne, Fits, After, Written, Ahead, AllFit, Flat, StandsAt;
    if k == |argv| || argv[k] == "--" {
      pieces, end := [], k;
      NoPieces(cfg, s);
    } else {
      var p := PieceWritten(cfg, argv, k, s);
      PieceReads(cfg, argv, k, s, p) by { AfterNext(cfg, p, s); }
      AfterNext(cfg, p, s);
      var rest;
      Standing(argv, k, p);
      rest, end := WalkWritten(cfg, argv, k + |p.args|, After(cfg, p, s));
      pieces := [p] + rest;
      FlatFrom(argv, k, end, p, rest);
      FitMore(cfg, p, rest, s);
    }
  }

  lemma Standing(argv: seq<string>, k: nat, p: Piece)
    requires StandsAt(argv, k, p)
    ensures k + |p.args| <= |argv|
  {
  }

  // ----- behind a double dash -----

  /** With the cursor at its end all words are left over. */
  lemma {:induction false} SparesRead(cfg: Config, s: State, pieces: seq<Piece>)
    requires s.next == |cfg.positional| && Words(pieces) && AllFit(cfg, pieces, s)
    ensures AfterAll(cfg, pieces, s) == s.(unmatched := s.unmatched + Flat(pieces))
    decreases |pieces|
  {
    if pieces == [] {
      assert s.unmatched + [] == s.unmatched;
    } else {
      FitFirst(cfg, pieces, s);
      var p := pieces[0];
      assert p in pieces && p.kind.Spare?;
      SparesRead(cfg, After(cfg, p, s), pieces[1..]);
      assert s.unmatched + p.args + Flat(pieces[1..]) == s.unmatched + (p.args + Flat(pieces[1..]));
    }
  }

  lemma {:induction false} SparesWritten(cfg: Config, s: State, args: seq<string>) returns (pieces: seq<Piece>)
    requires s.next == |cfg.positional|
    ensures args == Flat(pieces) && Words(pieces) && AllFit(cfg, pieces, s)
    decreases |args|
  {
    if args == [] {
      pieces := [];
    } else {
      var p := Piece([args[0]], Spare);
      var rest := SparesWritten(cfg, After(cfg, p, s), args[1..]);
      pieces := [p] + rest;
      FitMore(cfg, p, rest, s);
      assert pieces[1..] == rest;
    }
  }

  lemma {:induction false} RestReads(cfg: Config, argv: seq<string>, k: nat, s: State, pieces: seq<Piece>)
    requires k <= |argv| && s.next <= |cfg.positional|
    requires argv[k..|argv|] == Flat(pieces) && Words(pieces) && AllFit(cfg, pieces, s)
    ensures Rest(cfg, argv, At(k, s)) == Ok(At(|argv|, AfterAll(cfg, pieces, s)))
    decreases |pieces|
  {
    if pieces == [] {
      NoPieces(cfg, s);
    } else {
      hide Positional, Fits, Written, AllFit, Flat, Full;
      var p := pieces[0];
      assert p in pieces && Words([p]);
      FlatAt(argv, k, |argv|, pieces);
      FitFirst(cfg, pieces, s);
      AfterNext(cfg, p, s);
      WordReads(cfg, k, s, p);
      assert p.args[0] == argv[k..k + |p.args|][0] == argv[k] && |p.args| == 1 by { OneWord(cfg, p); }
      if p.kind.Word? {
        RestReads(cfg, argv, k + 1, After(cfg, p, s), pieces[1..]);
      } else {
        SparesRead(cfg, After(cfg, p, s), pieces[1..]);
        assert argv[k..] == p.args + argv[k + 1..|argv|];
        assert s.unmatched + p.args + argv[k + 1..|argv|] == s.unmatched + argv[k..];
      }
    }
  }

  lemma OneWord(cfg: Config, p: Piece)
    requires Words([p]) && Written(cfg, p)
    ensures |p.args| == 1
  {
    assert [p][0] == p;
  }

  lemma {:induction false} RestWritten(cfg: Config, argv: seq<string>, k: nat, s: State) returns (pieces: seq<Piece>)
    requires k <= |argv| && s.next <= |cfg.positional| && Rest(cfg, argv, At(k, s)).Ok?
    ensures argv[k..|argv|] == Flat(pieces) && Words(pieces) && AllFit(cfg, pieces, s)
    decreases |argv| - k
  {
    if k == |argv| {
      pieces := [];
      NoPieces(cfg, s);
    } else {
      hide Positional, Fits, Written, AllFit, Flat, Full;
      var p := WordWritten(cfg, k, s, argv[k]);
      assert [p][0] == p;
      WordReads(cfg, k, s, p);
      AfterNext(cfg, p, s);
      var rest;
      if p.kind.Word? {
        rest := RestWritten(cfg, argv, k + 1, After(cfg, p, s));
      } else {
        rest := SparesWritten(cfg, After(cfg, p, s), argv[k + 1..|argv|]);
      }
      pieces := [p] + rest;
      assert argv[k..k + 1] == p.args;
      FlatFrom(argv, k, |argv|, p, rest);
      FitMore(cfg, p, rest, s);
    }
  }

  // ----- the main theorem -----

  const Start := State(0, [], [])

  /** The arguments are these pieces, perhaps a double dash and words; they mean this before and behind the dash. */
  ghost predicate Says(cfg: Config, argv: seq<string>, pieces: seq<Piece>, dashed: bool, words: seq<Piece>,
                       before: State, after: State)
    requires |argv| >= 1
  {
    && argv[1..] == Flat(pieces) + (if dashed then ["--"] + Flat(words) else [])
    && AllAhead(cfg, pieces) && AllFit(cfg, pieces, Start) && AfterAll(cfg, pieces, Start) == before
    && Words(words) && AllFit(cfg, words, before) && AfterAll(cfg, words, before) == after && (dashed || words == [])
  }

  /** A command line is accepted exactly if it is made of pieces that fit one behind the other; it records what
      they say and leaves over what they leave over. */
  lemma CommandLineExactly(cfg: Config, argv: seq<string>, before: State, after: State)
    requires |argv| >= 1
    ensures (exists pieces, dashed, words :: Says(cfg, argv, pieces, dashed, words, before, after)) <==>
            && Meaning(cfg, argv).Ok?
            && Stands(Meaning(cfg, argv).value.0) == before && Stands(Meaning(cfg, argv).value.1) == after
  {
    hide Says, Meaning;
    if pieces, dashed, words :| Says(cfg, argv, pieces, dashed, words, before, after) {
      SaysMeans(cfg, argv, pieces, dashed, words, before, after);
    }
    if Meaning(cfg, argv).Ok? {
      var pieces, dashed, words, b, a := MeansSays(cfg, argv);
      SaysMeans(cfg, argv, pieces, dashed, words, b, a);
    }
  }

  lemma SaysMeans(cfg: Config, argv: seq<string>, pieces: seq<Piece>, dashed: bool, words: seq<Piece>, before: State,
                  after: State)
    requires |argv| >= 1 && Says(cfg, argv, pieces, dashed, words, before, after)
    ensures Meaning(cfg, argv).Ok?
    ensures Stands(Meaning(cfg, argv).value.0) == before && Stands(Meaning(cfg, argv).value.1) == after
  {
    hide Walk, Rest, AllFit, AllAhead, Words, Flat;
    var end := 1 + |Flat(pieces)|;
    assert argv[1..end] == argv[1..][..end - 1] == Flat(pieces);
    if dashed {
      assert argv[end] == argv[1..][end - 1] == "--";
      assert argv[end + 1..|argv|] == argv[1..][end..] == Flat(words);
    }
    WalkReads(cfg, argv, 1, end, Start, pieces);
    if dashed { RestReads(cfg, argv, end + 1, before, words); } else { NoPieces(cfg, before); }
  }

  lemma MeansSays(cfg: Config, argv: seq<string>)
    returns (pieces: seq<Piece>, dashed: bool, words: seq<Piece>, before: State, after: State)
    requires |argv| >= 1 && Meaning(cfg, argv).Ok?
    ensures Says(cfg, argv, pieces, dashed, words, before, after)
  {
    hide Walk, Rest, AllFit, AllAhead, Words, Flat;
    var end;
    pieces, end := WalkWritten(cfg, argv, 1, Start);
    WalkReads(cfg, argv, 1, end, Start, pieces);
    before := AfterAll(cfg, pieces, Start);
    dashed := end < |argv|;
    if dashed {
      words := RestWritten(cfg, argv, end + 1, before);
      assert argv[1..] == argv[1..end] + ["--"] + argv[end + 1..|argv|];
    } else {
      words := [];
      NoPieces(cfg, before);
      assert argv[1..] == argv[1..end] + [];
    }
    after := AfterAll(cfg, words, before);
  }
}
