/**
 * What parsing a command line means: the entries it records, the options they belong to and the
 * arguments left over, as functions of the argument vector. An option is counted by its entries.
 */
module CommandLine {
  import opened Outcomes
  import opened Slices

  // ----- options -----

  datatype Details = Details(
    short: string, long: seq<string>, container: bool, defaultValue: Option<string>, implicitValue: Option<string>)
  {
    function Essential(): string { if long == [] then short else long[0] }

    /** What is hashed: the first long name and the short one run together. */
    function Key(): string { (if long == [] then "" else long[0]) + short }

    predicate Has(name: string) { name in long || (name == short && short != "") }
  }

  /** One argument cut by the tokenizer: a group of short options or a long one with its value. */
  datatype Token = Token(grouping: bool, name: string, setValue: bool, value: string)

  /** The registered names, the positional list, and the library functions the parser is built on. */
  datatype Config = Config(
    options: map<string, Details>, positional: seq<string>, allowUnrecognised: bool,
    tokenize: string -> Option<Token>, accepts: (string, string) -> bool, hash: string -> int)
  {
    function HashOf(name: string): int {
      hash(if name in options then options[name].Key() else name)
    }
  }

  /** Every name of a registered option leads to it, and no other name does. */
  ghost predicate Closed(options: map<string, Details>) {
    "" !in options && forall n <- options ::
      && options[n].Has(n)
      && options[n].Has(options[n].Essential())
      && forall a | a in options[n].long || a == options[n].short ::
           options[n].Has(a) ==> a in options && options[a] == options[n]
  }

  // ----- entries -----

  type Entry = (string, string)

  /** How often an option was given. */
  function Occurrences(entries: seq<Entry>, name: string): nat {
    if entries == [] then 0
    else Occurrences(entries[..|entries| - 1], name) + if entries[|entries| - 1].0 == name then 1 else 0
  }

  /** How often any option with this hash was given. */
  function HashCount(cfg: Config, entries: seq<Entry>, h: int): nat {
    if entries == [] then 0
    else HashCount(cfg, entries[..|entries| - 1], h) + if cfg.HashOf(entries[|entries| - 1].0) == h then 1 else 0
  }

  function Record(cfg: Config, d: Details, arg: string, entries: seq<Entry>): Result<seq<Entry>> {
    if cfg.accepts(d.Essential(), arg) then Ok(entries + [(d.Essential(), arg)])
    else Err("argument failed to parse")
  }

  // ----- the walk along the arguments -----

  /** The cursor, the positional cursor, the entries and the arguments left over. */
  datatype Run = Run(current: nat, next: nat, entries: seq<Entry>, unmatched: seq<string>)

  /** The value of an option given on its own: its implicit value, or the next argument. */
  function ValueFor(cfg: Config, argv: seq<string>, r: Run, d: Details): (x: Result<Run>)
    requires r.current < |argv|
    ensures x.Ok? ==> r.current <= x.value.current < |argv|
  {
    if d.implicitValue.Some? then
      var entries :- Record(cfg, d, d.implicitValue.value, r.entries);
      Ok(r.(entries := entries))
    else if r.current + 1 >= |argv| then Err("missing argument")
    else
      var entries :- Record(cfg, d, argv[r.current + 1], r.entries);
      Ok(r.(current := r.current + 1, entries := entries))
  }

  /** An argument that is no option: the first positional that can take it, or none. */
  function Positional(cfg: Config, r: Run, a: string): (x: Result<(bool, Run)>)
    requires r.next <= |cfg.positional|
    ensures x.Ok? ==> r.next <= x.value.1.next <= |cfg.positional|
    ensures x.Ok? ==> x.value.1.current == r.current && x.value.1.unmatched == r.unmatched
    decreases |cfg.positional| - r.next
  {
    if r.next == |cfg.positional| then Ok((false, r)) else
    var name := cfg.positional[r.next];
    if name !in cfg.options then Err("no such option")
    else
      var d := cfg.options[name];
      if d.container then
        var entries :- Record(cfg, d, a, r.entries); Ok((true, r.(entries := entries)))
      else if HashCount(cfg, r.entries, cfg.HashOf(name)) == 0 then
        var entries :- Record(cfg, d, a, r.entries); Ok((true, r.(next := r.next + 1, entries := entries)))
      else
        Positional(cfg, r.(next := r.next + 1), a)
  }

  /** One positional at the cursor, for a value recorded or refused. */
  lemma PositionalStep(cfg: Config, r: Run, a: string)
    requires r.next < |cfg.positional| && cfg.positional[r.next] in cfg.options
    ensures var name := cfg.positional[r.next];
            var d := cfg.options[name];
            var recorded := Record(cfg, d, a, r.entries);
            var next := if d.container then r.next else r.next + 1;
            Positional(cfg, r, a) ==
              if !d.container && HashCount(cfg, r.entries, cfg.HashOf(name)) != 0 then
                Positional(cfg, r.(next := r.next + 1), a)
              else if recorded.Err? then Err(recorded.message)
              else Ok((true, r.(next := next, entries := recorded.value)))
  {
    hide Record, HashCount;
  }

  /** The short options of a group from the i-th on. */
  function Group(cfg: Config, argv: seq<string>, r: Run, names: string, i: nat): (x: Result<Run>)
    requires r.current < |argv| && i <= |names|
    ensures x.Ok? ==> r.current <= x.value.current < |argv| && x.value.next == r.next
    decreases |names| - i
  {
    if i == |names| then Ok(r)
    else if [names[i]] !in cfg.options then
      if cfg.allowUnrecognised
      then Group(cfg, argv, r.(unmatched := r.unmatched + [['-', names[i]]]), names, i + 1)
      else Err("no such option")
    else
      var d := cfg.options[[names[i]]];
      if i + 1 == |names| then ValueFor(cfg, argv, r, d)
      else if d.implicitValue.Some? then
        var entries :- Record(cfg, d, d.implicitValue.value, r.entries);
        Group(cfg, argv, r.(entries := entries), names, i + 1)
      else
        var entries :- Record(cfg, d, names[i + 1..], r.entries);
        Ok(r.(entries := entries))
  }

  function LongOption(cfg: Config, argv: seq<string>, r: Run, token: Token): (x: Result<Run>)
    requires r.current < |argv|
    ensures x.Ok? ==> r.current <= x.value.current < |argv| && x.value.next == r.next
  {
    if token.name !in cfg.options then
      if cfg.allowUnrecognised then Ok(r.(unmatched := r.unmatched + [argv[r.current]])) else Err("no such option")
    else
      var d := cfg.options[token.name];
      if token.setValue then
        var entries :- Record(cfg, d, token.value, r.entries);
        Ok(r.(entries := entries))
      else ValueFor(cfg, argv, r, d)
  }

  predicate LooksLikeOption(a: string) { |a| > 1 && a[0] == '-' }

  /** One argument; the cursor is left on the last argument used. */
  function WalkOne(cfg: Config, argv: seq<string>, r: Run): (x: Result<Run>)
    requires r.current < |argv| && r.next <= |cfg.positional|
    ensures x.Ok? ==> r.current <= x.value.current < |argv| && x.value.next <= |cfg.positional|
  {
    var a := argv[r.current];
    match cfg.tokenize(a)
    case None =>
      if LooksLikeOption(a) && !cfg.allowUnrecognised then Err("invalid option syntax")
      else
        var (taken, r') :- Positional(cfg, r, a);
        Ok(if taken then r' else r'.(unmatched := r'.unmatched + [a]))
    case Some(token) =>
      if token.grouping then Group(cfg, argv, r, token.name, 0)
      else if token.name != "" then LongOption(cfg, argv, r, token)
      else Ok(r)
  }

  /** All arguments up to the end or to a double dash, and whether there was one. */
  function Walk(cfg: Config, argv: seq<string>, r: Run): (x: Result<(Run, bool)>)
    requires r.current <= |argv| && r.next <= |cfg.positional|
    ensures x.Ok? ==> x.value.0.current <= |argv| && x.value.0.next <= |cfg.positional|
    ensures x.Ok? && !x.value.1 ==> x.value.0.current == |argv|
    decreases |argv| - r.current
  {
    if r.current == |argv| then Ok((r, false))
    else if argv[r.current] == "--" then Ok((r.(current := r.current + 1), true))
    else
      var r' :- WalkOne(cfg, argv, r);
      Walk(cfg, argv, r'.(current := r'.current + 1))
  }

  /** After the double dash: positionals while they are taken, the rest left over. */
  function Rest(cfg: Config, argv: seq<string>, r: Run): (x: Result<Run>)
    requires r.current <= |argv| && r.next <= |cfg.positional|
    ensures x.Ok? ==> x.value.current == |argv|
    decreases |argv| - r.current
  {
    if r.current == |argv| then Ok(r) else
    var (taken, r') :- Positional(cfg, r, argv[r.current]);
    if taken then Rest(cfg, argv, r'.(current := r.current + 1))
    else Ok(r'.(current := |argv|, unmatched := r'.unmatched + argv[r.current..]))
  }

  /** The whole command line: what was read before the defaults are filled in, and at the end. */
  function Meaning(cfg: Config, argv: seq<string>): (x: Result<(Run, Run)>)
    requires |argv| >= 1
    ensures x.Ok? ==> x.value.1.current == |argv|
  {
    var (before, dashes) :- Walk(cfg, argv, Run(1, 0, [], []));
    if dashes then var after :- Rest(cfg, argv, before); Ok((before, after)) else Ok((before, before))
  }

  // ----- counting by hash -----

  /** Entries recorded under the names of registered options. */
  ghost predicate Registered(cfg: Config, entries: seq<Entry>) {
    forall e <- entries :: e.0 in cfg.options && cfg.options[e.0].Essential() == e.0
  }

  lemma RegisteredPush(cfg: Config, d: Details, arg: string, entries: seq<Entry>)
    requires Registered(cfg, entries) && d.Essential() in cfg.options && cfg.options[d.Essential()] == d
    requires Record(cfg, d, arg, entries).Ok?
    ensures Registered(cfg, Record(cfg, d, arg, entries).value)
  {
  }

  lemma HashCountPush(cfg: Config, entries: seq<Entry>, e: Entry, h: int)
    ensures HashCount(cfg, entries + [e], h) == HashCount(cfg, entries, h) + if cfg.HashOf(e.0) == h then 1 else 0
  {
    assert (entries + [e])[..|entries|] == entries;
  }

  /** An option's count is the number of its entries exactly if no entry is another option's with its hash. */
  lemma {:induction false} CountExact(cfg: Config, entries: seq<Entry>, name: string)
    requires Closed(cfg.options) && name in cfg.options
    ensures HashCount(cfg, entries, cfg.HashOf(name)) >= Occurrences(entries, cfg.options[name].Essential())
    ensures HashCount(cfg, entries, cfg.HashOf(name)) == Occurrences(entries, cfg.options[name].Essential()) <==>
            forall e <- entries :: cfg.HashOf(e.0) == cfg.HashOf(name) ==> e.0 == cfg.options[name].Essential()
  {
    if entries != [] {
      var rest, e := entries[..|entries| - 1], entries[|entries| - 1];
      CountExact(cfg, rest, name);
      assert entries == rest + [e];
      assert cfg.HashOf(cfg.options[name].Essential()) == cfg.HashOf(name);
    }
  }

  /** Different options have different hashes. */
  ghost predicate HashesApart(cfg: Config) {
    forall m <- cfg.options, n <- cfg.options :: cfg.HashOf(m) == cfg.HashOf(n) ==> cfg.options[m] == cfg.options[n]
  }

  /** With the hashes apart every option, under each of its names, is counted by its own entries. */
  lemma CountsOwnEntries(cfg: Config, entries: seq<Entry>, name: string)
    requires Closed(cfg.options) && HashesApart(cfg) && Registered(cfg, entries) && name in cfg.options
    ensures HashCount(cfg, entries, cfg.HashOf(name)) == Occurrences(entries, cfg.options[name].Essential())
  {
    CountExact(cfg, entries, name);
  }

  /** Keys run together without a separator: whatever the hash, these two options share their count. */
  lemma KeysCollide(cfg: Config)
    requires cfg.options == map[
               "abc" := Details("", ["abc"], false, None, None),
               "ab" := Details("c", ["ab"], false, None, None),
               "c" := Details("c", ["ab"], false, None, None)]
    ensures HashCount(cfg, [("abc", "1")], cfg.HashOf("ab")) == 1 && Occurrences([("abc", "1")], "ab") == 0
  {
    assert "abc" + "" == "ab" + "c" == "abc";
    assert HashCount(cfg, [], cfg.HashOf("ab")) == 0;
    assert [("abc", "1")][..0] == [];
  }

  // ----- positional arguments -----

  /** The j-th positional names a registered option that takes one value and has it. */
  predicate Filled(cfg: Config, entries: seq<Entry>, j: nat)
    requires j < |cfg.positional|
  {
    var name := cfg.positional[j];
    name in cfg.options && !cfg.options[name].container && HashCount(cfg, entries, cfg.HashOf(name)) > 0
  }

  /**
   * A positional argument goes to the first positional option that can still take it: one that is
   * not a container only while its count is zero, and then the cursor moves past it.
   */
  lemma {:induction false} PositionalFills(cfg: Config, r: Run, a: string)
    requires r.next <= |cfg.positional| && Positional(cfg, r, a).Ok?
    ensures var (taken, r') := Positional(cfg, r, a).value;
            if !taken then
              (forall j :: r.next <= j < |cfg.positional| ==> Filled(cfg, r.entries, j)) &&
              r' == r.(next := |cfg.positional|)
            else
              exists j :: r.next <= j < |cfg.positional| && TakesAt(cfg, r, a, j, r')
    decreases |cfg.positional| - r.next
  {
    if r.next < |cfg.positional| {
      PositionalHere(cfg, r, a);
      hide Positional, Filled, TakesAt;
      if Filled(cfg, r.entries, r.next) {
        PositionalFills(cfg, r.(next := r.next + 1), a);
        var (taken, r') := Positional(cfg, r, a).value;
        if taken {
          var j :| r.next + 1 <= j < |cfg.positional| && TakesAt(cfg, r.(next := r.next + 1), a, j, r');
          TakesLater(cfg, r, a, j, r');
        }
      }
    }
  }

  /** The positional at the cursor: passed when filled, and taken otherwise. */
  lemma PositionalHere(cfg: Config, r: Run, a: string)
    requires r.next < |cfg.positional| && Positional(cfg, r, a).Ok?
    ensures Filled(cfg, r.entries, r.next) ==> Positional(cfg, r, a) == Positional(cfg, r.(next := r.next + 1), a)
    ensures !Filled(cfg, r.entries, r.next) ==>
              Positional(cfg, r, a).value.0 && TakesAt(cfg, r, a, r.next, Positional(cfg, r, a).value.1)
  {
    hide HashCount;
  }

  lemma TakesLater(cfg: Config, r: Run, a: string, j: nat, r': Run)
    requires r.next < j < |cfg.positional| && Filled(cfg, r.entries, r.next)
    requires TakesAt(cfg, r.(next := r.next + 1), a, j, r')
    ensures TakesAt(cfg, r, a, j, r')
  {
    hide Filled;
  }

  /** The argument went to the j-th positional, and those before were filled. */
  ghost predicate TakesAt(cfg: Config, r: Run, a: string, j: nat, r': Run)
    requires r.next <= j < |cfg.positional|
  {
    var name := cfg.positional[j];
    && (forall i :: r.next <= i < j ==> Filled(cfg, r.entries, i))
    && name in cfg.options && !Filled(cfg, r.entries, j)
    && r' == r.(next := if cfg.options[name].container then j else j + 1,
                entries := r.entries + [(cfg.options[name].Essential(), a)])
  }

  // ----- arguments left over -----

  /** u is what remains of v when some elements are crossed out. */
  predicate Subsequence(u: seq<string>, v: seq<string>)
    decreases |v|
  {
    if u == [] then true
    else if v == [] then false
    else
      || (u[|u| - 1] == v[|v| - 1] && Subsequence(u[..|u| - 1], v[..|v| - 1]))
      || Subsequence(u, v[..|v| - 1])
  }

  lemma SubsequencePush(u: seq<string>, v: seq<string>, a: string)
    requires Subsequence(u, v)
    ensures Subsequence(u, v + [a]) && Subsequence(u + [a], v + [a])
  {
    assert (v + [a])[..|v|] == v && (u + [a])[..|u|] == u;
  }

  lemma {:induction false} SubsequenceExtend(u: seq<string>, v: seq<string>, k: nat)
    requires k <= |v| && Subsequence(u, v[..k])
    ensures Subsequence(u, v) && Subsequence(u + v[k..], v)
    decreases |v| - k
  {
    hide Subsequence;
    if k < |v| {
      TakeMore(v, k);
      SubsequencePush(u, v[..k], v[k]);
      SubsequenceExtend(u, v, k + 1);
      SubsequenceExtend(u + [v[k]], v, k + 1);
      MoveOver(u, v, k);
    } else {
      assert v[..k] == v && u + v[k..] == u;
    }
  }

  lemma {:induction false} GroupKeepsUnmatched(cfg: Config, argv: seq<string>, r: Run, names: string, i: nat)
    requires r.current < |argv| && i <= |names| && !cfg.allowUnrecognised && Group(cfg, argv, r, names, i).Ok?
    ensures Group(cfg, argv, r, names, i).value.unmatched == r.unmatched
    decreases |names| - i
  {
    if i + 1 < |names| && [names[i]] in cfg.options && cfg.options[[names[i]]].implicitValue.Some? {
      var d := cfg.options[[names[i]]];
      GroupKeepsUnmatched(cfg, argv, r.(entries := Record(cfg, d, d.implicitValue.value, r.entries).value), names,
                          i + 1);
    }
  }

  lemma WalkOneUnmatched(cfg: Config, argv: seq<string>, r: Run)
    requires r.current < |argv| && r.next <= |cfg.positional| && !cfg.allowUnrecognised
    requires WalkOne(cfg, argv, r).Ok?
    ensures var u := WalkOne(cfg, argv, r).value.unmatched;
            u == r.unmatched || u == r.unmatched + [argv[r.current]]
  {
    hide Positional, Group, Record, HashCount;
    var token := cfg.tokenize(argv[r.current]);
    if token.Some? && token.value.grouping { GroupKeepsUnmatched(cfg, argv, r, token.value.name, 0); }
  }

  lemma {:induction false} WalkUnmatched(cfg: Config, argv: seq<string>, r: Run)
    requires r.current <= |argv| && r.next <= |cfg.positional| && !cfg.allowUnrecognised
    requires Subsequence(r.unmatched, argv[..r.current]) && Walk(cfg, argv, r).Ok?
    ensures var x := Walk(cfg, argv, r).value.0; Subsequence(x.unmatched, argv[..x.current])
    decreases |argv| - r.current
  {
    hide WalkOne, Subsequence;
    var k := r.current;
    if k < |argv| && argv[k] != "--" {
      var r' := WalkOne(cfg, argv, r).value;
      var to := r'.current + 1;
      WalkOneUnmatched(cfg, argv, r);
      UnmatchedUpTo(r.unmatched, r'.unmatched, argv, k, to);
      WalkUnmatched(cfg, argv, r'.(current := to));
    } else if k < |argv| {
      UnmatchedUpTo(r.unmatched, r.unmatched, argv, k, k + 1);
    }
  }

  /** Leaving over at most the argument at k, up to a later one. */
  lemma UnmatchedUpTo(u: seq<string>, u': seq<string>, argv: seq<string>, k: nat, to: nat)
    requires k < to <= |argv| && Subsequence(u, argv[..k]) && (u' == u || u' == u + [argv[k]])
    ensures Subsequence(u', argv[..to])
  {
    hide Subsequence;
    TakeMore(argv, k);
    SubsequencePush(u, argv[..k], argv[k]);
    assert argv[..to][..k + 1] == argv[..k + 1];
    SubsequenceExtend(u', argv[..to], k + 1);
  }

  lemma {:induction false} RestUnmatched(cfg: Config, argv: seq<string>, r: Run)
    requires r.current <= |argv| && r.next <= |cfg.positional|
    requires Subsequence(r.unmatched, argv[..r.current]) && Rest(cfg, argv, r).Ok?
    ensures Subsequence(Rest(cfg, argv, r).value.unmatched, argv)
    decreases |argv| - r.current
  {
    hide Subsequence, Positional;
    var k := r.current;
    if k < |argv| {
      var (taken, r') := Positional(cfg, r, argv[k]).value;
      if taken {
        UnmatchedUpTo(r.unmatched, r.unmatched, argv, k, k + 1);
        RestUnmatched(cfg, argv, r'.(current := k + 1));
      } else {
        SubsequenceExtend(r.unmatched, argv, k);
      }
    } else {
      assert argv[..k] == argv;
    }
  }

  /** When unrecognised options are errors, what is left over is an ordered part of the arguments. */
  lemma UnmatchedIsSubsequence(cfg: Config, argv: seq<string>)
    requires |argv| >= 1 && !cfg.allowUnrecognised && Meaning(cfg, argv).Ok?
    ensures Subsequence(Meaning(cfg, argv).value.1.unmatched, argv)
  {
    var start := Run(1, 0, [], []);
    WalkUnmatched(cfg, argv, start);
    var (before, dashes) := Walk(cfg, argv, start).value;
    if dashes {
      RestUnmatched(cfg, argv, before);
    } else {
      assert argv[..before.current] == argv;
    }
  }

  // ----- defaults -----

  /** A default recorded for an option that was not given. */
  ghost predicate IsDefault(cfg: Config, entries: seq<Entry>, e: Entry) {
    && e.0 in cfg.options && cfg.options[e.0].Essential() == e.0
    && cfg.options[e.0].defaultValue == Some(e.1)
    && HashCount(cfg, entries, cfg.HashOf(e.0)) == 0
  }

  /** Some default was recorded under this hash. */
  ghost predicate Lists(cfg: Config, defaults: seq<Entry>, h: int) {
    exists e <- defaults :: cfg.HashOf(e.0) == h
  }

  /** For these names: one default for each hash under which no option was given and one has a default. */
  ghost predicate DefaultedFor(cfg: Config, entries: seq<Entry>, defaults: seq<Entry>, names: set<string>)
    requires names <= cfg.options.Keys
  {
    && (forall e <- defaults :: IsDefault(cfg, entries, e))
    && (forall i, j :: 0 <= i < j < |defaults| ==> cfg.HashOf(defaults[i].0) != cfg.HashOf(defaults[j].0))
    && (forall n <- names ::
          cfg.options[n].defaultValue.Some? && HashCount(cfg, entries, cfg.HashOf(n)) == 0 ==>
            Lists(cfg, defaults, cfg.HashOf(n)))
  }

  ghost predicate Defaulted(cfg: Config, entries: seq<Entry>, defaults: seq<Entry>) {
    DefaultedFor(cfg, entries, defaults, cfg.options.Keys)
  }

  lemma ListsPush(cfg: Config, defaults: seq<Entry>, e: Entry)
    ensures forall h :: Lists(cfg, defaults + [e], h) <==> Lists(cfg, defaults, h) || cfg.HashOf(e.0) == h
  {
    forall h | Lists(cfg, defaults, h) ensures Lists(cfg, defaults + [e], h) {
      var x :| x in defaults && cfg.HashOf(x.0) == h;
      assert x in defaults + [e];
    }
    assert e in defaults + [e];
  }

  lemma NotListed(cfg: Config, defaults: seq<Entry>, h: int)
    ensures !Lists(cfg, defaults, h) ==> forall e <- defaults :: cfg.HashOf(e.0) != h
  {
  }

  lemma NoneDefaulted(cfg: Config, entries: seq<Entry>)
    ensures DefaultedFor(cfg, entries, [], {})
  {
  }

  /** A name whose hash is listed, was given or has no default needs nothing. */
  lemma DefaultedSkip(cfg: Config, entries: seq<Entry>, defaults: seq<Entry>, names: set<string>, n: string)
    requires names <= cfg.options.Keys && n in cfg.options && DefaultedFor(cfg, entries, defaults, names)
    requires cfg.options[n].defaultValue.Some? && HashCount(cfg, entries, cfg.HashOf(n)) == 0 ==>
               Lists(cfg, defaults, cfg.HashOf(n))
    ensures DefaultedFor(cfg, entries, defaults, names + {n})
  {
  }

  lemma DefaultedPush(cfg: Config, entries: seq<Entry>, defaults: seq<Entry>, names: set<string>, n: string)
    requires Closed(cfg.options) && names <= cfg.options.Keys && n in cfg.options
    requires DefaultedFor(cfg, entries, defaults, names)
    requires cfg.options[n].defaultValue.Some? && HashCount(cfg, entries, cfg.HashOf(n)) == 0
    requires !Lists(cfg, defaults, cfg.HashOf(n))
    ensures DefaultedFor(cfg, entries,
                         defaults + [(cfg.options[n].Essential(), cfg.options[n].defaultValue.value)], names + {n})
  {
    hide HashCount, Lists;
    var d := cfg.options[n];
    var e := (d.Essential(), d.defaultValue.value);
    assert cfg.HashOf(e.0) == cfg.HashOf(n) && IsDefault(cfg, entries, e);
    ListsPush(cfg, defaults, e);
    NotListed(cfg, defaults, cfg.HashOf(n));
  }

  /** A registered name leads to an option that is registered under its essential name. */
  lemma OwnName(cfg: Config, n: string)
    requires Closed(cfg.options) && n in cfg.options
    ensures var d := cfg.options[n];
            d.Essential() in cfg.options && cfg.options[d.Essential()] == d && cfg.hash(d.Key()) == cfg.HashOf(n)
  {
  }

  /** With the hashes apart: each option at most once, and exactly those with a default that were not given. */
  lemma DefaultsOnce(cfg: Config, entries: seq<Entry>, defaults: seq<Entry>, name: string)
    requires Closed(cfg.options) && HashesApart(cfg) && Registered(cfg, entries) && name in cfg.options
    requires Defaulted(cfg, entries, defaults)
    ensures Occurrences(defaults, cfg.options[name].Essential()) ==
              (if cfg.options[name].defaultValue.Some? && Occurrences(entries, cfg.options[name].Essential()) == 0
               then 1 else 0)
  {
    hide HashCount, Closed, HashesApart, Registered, Occurrences;
    var d := cfg.options[name];
    CountsOwnEntries(cfg, entries, name);
    SameHashSameName(cfg, name);
    if d.defaultValue.Some? && Occurrences(entries, d.Essential()) == 0 {
      assert Lists(cfg, defaults, cfg.HashOf(name));
      var i :| 0 <= i < |defaults| && cfg.HashOf(defaults[i].0) == cfg.HashOf(name);
      assert IsDefault(cfg, entries, defaults[i]);
      OccursOnce(cfg, defaults, i, d.Essential());
    } else {
      forall i | 0 <= i < |defaults| ensures defaults[i].0 != d.Essential() {
        assert IsDefault(cfg, entries, defaults[i]);
      }
      OccursNever(defaults, d.Essential());
    }
  }

  lemma {:induction false} OccursNever(entries: seq<Entry>, name: string)
    requires forall i :: 0 <= i < |entries| ==> entries[i].0 != name
    ensures Occurrences(entries, name) == 0
  {
    if entries != [] { OccursNever(entries[..|entries| - 1], name); }
  }

  lemma {:induction false} OccursOnce(cfg: Config, entries: seq<Entry>, i: nat, name: string)
    requires i < |entries| && entries[i].0 == name
    requires forall j, k :: 0 <= j < k < |entries| ==> cfg.HashOf(entries[j].0) != cfg.HashOf(entries[k].0)
    ensures Occurrences(entries, name) == 1
  {
    var last := |entries| - 1;
    if i == last { OccursNever(entries[..last], name); } else { OccursOnce(cfg, entries[..last], i, name); }
  }

  lemma SameHashSameName(cfg: Config, name: string)
    requires Closed(cfg.options) && HashesApart(cfg) && name in cfg.options
    ensures var e := cfg.options[name].Essential(); e in cfg.options && cfg.options[e] == cfg.options[name]
    ensures forall m <- cfg.options :: cfg.HashOf(m) == cfg.HashOf(name) ==> cfg.options[m] == cfg.options[name]
  {
  }

  /** An option has a default recorded besides an argument if and only if it is given only after the double dash. */
  lemma DefaultBesideArgument(cfg: Config, argv: seq<string>, defaults: seq<Entry>, name: string)
    requires |argv| >= 1 && Meaning(cfg, argv).Ok? && Defaulted(cfg, Meaning(cfg, argv).value.0.entries, defaults)
    requires name in cfg.options && cfg.options[name].defaultValue.Some?
    ensures var (before, after) := Meaning(cfg, argv).value;
            var h := cfg.HashOf(name);
            Lists(cfg, defaults, h) && HashCount(cfg, after.entries, h) > 0
            <==> HashCount(cfg, before.entries, h) == 0 && HashCount(cfg, after.entries, h) > 0
  {
    hide Meaning, HashCount;
    var h := cfg.HashOf(name);
    if Lists(cfg, defaults, h) {
      var e :| e in defaults && cfg.HashOf(e.0) == h;
      assert IsDefault(cfg, Meaning(cfg, argv).value.0.entries, e);
    }
  }

  /** Positionals after a double dash come after the defaults: this option has both. */
  lemma DefaultAndArgument(cfg: Config)
    requires cfg.options == map["file" := Details("", ["file"], false, Some("in"), None)]
    requires cfg.positional == ["file"] && cfg.accepts("file", "out")
    ensures Meaning(cfg, ["prog", "--", "out"]) == Ok((Run(2, 0, [], []), Run(3, 1, [("file", "out")], [])))
    ensures forall defaults :: Defaulted(cfg, [], defaults) ==> Lists(cfg, defaults, cfg.HashOf("file"))
  {
    var argv := ["prog", "--", "out"];
    assert Walk(cfg, argv, Run(1, 0, [], [])) == Ok((Run(2, 0, [], []), true));
    assert [] + [("file", "out")] == [("file", "out")];
    assert Positional(cfg, Run(2, 0, [], []), "out") == Ok((true, Run(2, 1, [("file", "out")], [])));
    assert Rest(cfg, argv, Run(3, 1, [("file", "out")], [])) == Ok(Run(3, 1, [("file", "out")], []));
    assert "file" in cfg.options && HashCount(cfg, [], cfg.HashOf("file")) == 0;
  }
}
