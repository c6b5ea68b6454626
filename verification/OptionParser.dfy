/**
 * The option parser of cxxopts as it runs: counts and default flags in a table by hash, entries and
 * defaults in the order they come. A run is proved to record what CommandLine says it means.
 */
module OptionParser {
  import opened Outcomes
  import opened CommandLine

  datatype OptionValue = OptionValue(count: nat, hasDefault: bool)

  datatype ParseResult = ParseResult(
    keys: map<string, int>, values: map<int, OptionValue>, sequential: seq<Entry>, defaults: seq<Entry>,
    unmatched: seq<string>)
  {
    function Count(name: string): nat {
      if name !in keys || keys[name] !in values then 0 else values[keys[name]].count
    }
  }

  function Stored(parsed: map<int, OptionValue>, h: int): OptionValue {
    if h in parsed then parsed[h] else OptionValue(0, false)
  }

  lemma StoredUpdate(parsed: map<int, OptionValue>, h: int, v: OptionValue)
    ensures forall k :: Stored(parsed[h := v], k) == if k == h then v else Stored(parsed, k)
  {
    forall k ensures Stored(parsed[h := v], k) == if k == h then v else Stored(parsed, k) {
      assert k in parsed[h := v] <==> k == h || k in parsed;
    }
  }

  class Parser {
    const cfg: Config
    var sequential: seq<Entry>
    var defaults: seq<Entry>
    var parsed: map<int, OptionValue>
    var keys: map<string, int>

    constructor (cfg: Config)
      requires Closed(cfg.options)
      ensures this.cfg == cfg && Valid() && sequential == [] && defaults == [] && keys == map[]
    {
      this.cfg := cfg;
      sequential, defaults, parsed, keys := [], [], map[], map[];
    }

    /** The table agrees with the lists the result is made of. */
    ghost predicate Valid()
      reads this`sequential, this`defaults, this`parsed
    {
      && Closed(cfg.options) && Registered(cfg, sequential)
      && (forall h :: Stored(parsed, h).count == HashCount(cfg, sequential, h))
      && (forall h :: Stored(parsed, h).hasDefault == Lists(cfg, defaults, h))
    }

    method ParseOption(d: Details, arg: string) returns (r: Result<()>)
      requires Valid() && d.Essential() in cfg.options && cfg.options[d.Essential()] == d
      modifies this`parsed, this`sequential
      ensures match Record(cfg, d, arg, old(sequential))
              case Err(m) => r == Err(m)
              case Ok(entries) => r == Ok(()) && sequential == entries && Valid()
    {
      hide HashCount, Registered, Lists, Stored, Closed;
      var h := cfg.hash(d.Key());
      var store := Stored(parsed, h);
      StoredUpdate(parsed, h, store.(count := store.count + 1));
      parsed := parsed[h := store.(count := store.count + 1)];
      if !cfg.accepts(d.Essential(), arg) { return Err("argument failed to parse"); }
      RegisteredPush(cfg, d, arg, sequential);
      forall h' { HashCountPush(cfg, sequential, (d.Essential(), arg), h'); }
      sequential := sequential + [(d.Essential(), arg)];
      r := Ok(());
    }

    /** Looking a hash up creates its entry. */
    method LookUp(h: int) returns (store: OptionValue)
      requires Valid()
      modifies this`parsed
      ensures Valid() && store == Stored(parsed, h)
      ensures store.count == HashCount(cfg, sequential, h) && store.hasDefault == Lists(cfg, defaults, h)
      ensures h in parsed && forall k :: Stored(parsed, k) == Stored(old(parsed), k)
    {
      store := Stored(parsed, h);
      parsed := parsed[h := store];
    }

    method CheckedParseArg(argv: seq<string>, current0: nat, d: Details, ghost r0: Run) returns (r: Result<nat>)
      requires Valid() && d.Essential() in cfg.options && cfg.options[d.Essential()] == d
      requires r0.current == current0 < |argv| && r0.entries == sequential
      modifies this`parsed, this`sequential
      ensures match ValueFor(cfg, argv, r0, d)
              case Err(m) => r == Err(m)
              case Ok(r1) => r == Ok(r1.current) && sequential == r1.entries && r1.unmatched == r0.unmatched && Valid()
    {
      hide Record, HashCount, Registered, Lists, Stored, Closed;
      var current := current0;
      var done: Result<()>;
      if current + 1 >= |argv| {
        if d.implicitValue.None? { return Err("missing argument"); }
        done := ParseOption(d, d.implicitValue.value);
      } else if d.implicitValue.Some? {
        done := ParseOption(d, d.implicitValue.value);
      } else {
        done := ParseOption(d, argv[current + 1]);
        current := current + 1;
      }
      if done.Err? { return Err(done.message); }
      r := Ok(current);
    }

    method ConsumePositional(a: string, next0: nat, ghost r0: Run) returns (r: Result<(bool, nat)>)
      requires Valid() && r0.next == next0 <= |cfg.positional| && r0.entries == sequential
      modifies this`parsed, this`sequential
      ensures match Positional(cfg, r0, a)
              case Err(m) => r == Err(m)
              case Ok((taken, r1)) => r == Ok((taken, r1.next)) && sequential == r1.entries && Valid()
    {
      hide Record, HashCount, Registered, Stored, Lists, Positional, Closed;
      var next := next0;
      while next != |cfg.positional|
        invariant next <= |cfg.positional| && Valid() && sequential == r0.entries
        invariant Positional(cfg, r0.(next := next), a) == Positional(cfg, r0, a)
        decreases |cfg.positional| - next
      {
        var name := cfg.positional[next];
        if name !in cfg.options {
          NoPositional(cfg, r0.(next := next), a);
          return Err("no such option");
        }
        var d := cfg.options[name];
        PositionalStep(cfg, r0.(next := next), a);
        EssentialRegistered(cfg, name);
        if !d.container {
          var result := LookUp(cfg.hash(d.Key()));
          if result.count == 0 {
            r := TakePositional(d, a, next + 1);
            return;
          }
          next := next + 1;
        } else {
          r := TakePositional(d, a, next);
          return;
        }
      }
      NoMorePositionals(cfg, r0.(next := next), a);
      r := Ok((false, next));
    }

    /** The argument goes to this option, if its value is accepted. */
    method TakePositional(d: Details, a: string, next: nat) returns (r: Result<(bool, nat)>)
      requires Valid() && d.Essential() in cfg.options && cfg.options[d.Essential()] == d
      modifies this`parsed, this`sequential
      ensures match Record(cfg, d, a, old(sequential))
              case Err(m) => r == Err(m)
              case Ok(entries) => r == Ok((true, next)) && sequential == entries && Valid()
    {
      hide Record, HashCount, Registered, Stored, Lists, Closed;
      var done := ParseOption(d, a);
      if done.Err? { return Err(done.message); }
      r := Ok((true, next));
    }

    /** The short options of a group, one after the other. */
    method ParseGroup(argv: seq<string>, current0: nat, next: nat, unmatched0: seq<string>, names: string)
      returns (r: Result<(nat, seq<string>)>)
      requires Valid() && current0 < |argv|
      modifies this`parsed, this`sequential
      ensures match Group(cfg, argv, Run(current0, next, old(sequential), unmatched0), names, 0)
              case Err(m) => r == Err(m)
              case Ok(r1) => r == Ok((r1.current, r1.unmatched)) && sequential == r1.entries && Valid()
    {
      hide Record, HashCount, Registered, Stored, Lists, ValueFor;
      var current, unmatched, i := current0, unmatched0, 0;
      ghost var goal := Group(cfg, argv, Run(current0, next, sequential, unmatched0), names, 0);
      while i != |names|
        invariant i <= |names| && Valid() && current < |argv|
        invariant Group(cfg, argv, Run(current, next, sequential, unmatched), names, i) == goal
        decreases |names| - i
      {
        var name := [names[i]];
        if name !in cfg.options {
          if cfg.allowUnrecognised {
            unmatched := unmatched + [['-', names[i]]];
            i := i + 1;
            continue;
          }
          return Err("no such option");
        }
        var d := cfg.options[name];
        if i + 1 == |names| {
          var last := CheckedParseArg(argv, current, d, Run(current, next, sequential, unmatched));
          if last.Err? { return Err(last.message); }
          return Ok((last.value, unmatched));
        } else if d.implicitValue.Some? {
          var done := ParseOption(d, d.implicitValue.value);
          if done.Err? { return Err(done.message); }
        } else {
          var done := ParseOption(d, names[i + 1..]);
          if done.Err? { return Err(done.message); }
          return Ok((current, unmatched));
        }
        i := i + 1;
      }
      r := Ok((current, unmatched));
    }

    method ParseLong(argv: seq<string>, current: nat, next: nat, unmatched: seq<string>, token: Token)
      returns (r: Result<(nat, seq<string>)>)
      requires Valid() && current < |argv|
      modifies this`parsed, this`sequential
      ensures match LongOption(cfg, argv, Run(current, next, old(sequential), unmatched), token)
              case Err(m) => r == Err(m)
              case Ok(r1) => r == Ok((r1.current, r1.unmatched)) && sequential == r1.entries && Valid()
    {
      hide Record, HashCount, Registered, Stored, Lists, ValueFor;
      if token.name !in cfg.options {
        if cfg.allowUnrecognised { return Ok((current, unmatched + [argv[current]])); }
        return Err("no such option");
      }
      var d := cfg.options[token.name];
      if token.setValue {
        var done := ParseOption(d, token.value);
        if done.Err? { return Err(done.message); }
        return Ok((current, unmatched));
      }
      var last := CheckedParseArg(argv, current, d, Run(current, next, sequential, unmatched));
      if last.Err? { return Err(last.message); }
      r := Ok((last.value, unmatched));
    }

    /** One argument of the first loop. */
    method ParseOne(argv: seq<string>, current: nat, next: nat, unmatched: seq<string>)
      returns (r: Result<(nat, nat, seq<string>)>)
      requires Valid() && current < |argv| && next <= |cfg.positional|
      modifies this`parsed, this`sequential
      ensures match WalkOne(cfg, argv, Run(current, next, old(sequential), unmatched))
              case Err(m) => r == Err(m)
              case Ok(r1) => r == Ok((r1.current, r1.next, r1.unmatched)) && sequential == r1.entries && Valid()
    {
      hide Positional, Group, LongOption, HashCount, Registered, Stored, Lists;
      var a := argv[current];
      var matched := cfg.tokenize(a);
      if matched.None? {
        if |a| > 1 && a[0] == '-' {
          if !cfg.allowUnrecognised { return Err("invalid option syntax"); }
        }
        var consumed := ConsumePositional(a, next, Run(current, next, sequential, unmatched));
        if consumed.Err? { return Err(consumed.message); }
        var (taken, next') := consumed.value;
        return Ok((current, next', if taken then unmatched else unmatched + [a]));
      }
      var token := matched.value;
      if token.grouping {
        var group := ParseGroup(argv, current, next, unmatched, token.name);
        if group.Err? { return Err(group.message); }
        return Ok((group.value.0, next, group.value.1));
      } else if |token.name| != 0 {
        var long := ParseLong(argv, current, next, unmatched, token);
        if long.Err? { return Err(long.message); }
        return Ok((long.value.0, next, long.value.1));
      }
      r := Ok((current, next, unmatched));
    }

    method ParseDefault(d: Details) returns (r: Result<()>)
      requires Valid() && d.Essential() in cfg.options && cfg.options[d.Essential()] == d && d.defaultValue.Some?
      modifies this`parsed, this`defaults
      ensures r.Err? ==> !cfg.accepts(d.Essential(), d.defaultValue.value)
      ensures r.Ok? ==> Valid() && defaults == old(defaults) + [(d.Essential(), d.defaultValue.value)]
      ensures r.Ok? ==> cfg.accepts(d.Essential(), d.defaultValue.value)
    {
      hide HashCount, Registered, Lists;
      var h := cfg.hash(d.Key());
      parsed := parsed[h := Stored(parsed, h).(hasDefault := true)];
      if !cfg.accepts(d.Essential(), d.defaultValue.value) { return Err("argument failed to parse"); }
      ListsPush(cfg, defaults, (d.Essential(), d.defaultValue.value));
      defaults := defaults + [(d.Essential(), d.defaultValue.value)];
      r := Ok(());
    }

    /** Defaults for the options that were not given; the order of the table is not determined. */
    method ParseDefaults() returns (r: Result<()>)
      requires Valid() && defaults == []
      modifies this`parsed, this`defaults
      ensures r.Ok? ==> Valid() && Defaulted(cfg, sequential, defaults) && AllAccepted(cfg, defaults)
      ensures r.Err? ==> BadDefault(cfg, sequential)
    {
      hide *;
      var names := cfg.options.Keys;
      NoneDefaulted(cfg, sequential);
      NoneAccepted(cfg);
      assert cfg.options.Keys - names == {};
      while names != {}
        invariant names <= cfg.options.Keys && Valid()
        invariant DefaultedFor(cfg, sequential, defaults, cfg.options.Keys - names) && AllAccepted(cfg, defaults)
        decreases |names|
      {
        var n :| n in names;
        ghost var done := cfg.options.Keys - names;
        names := names - {n};
        assert cfg.options.Keys - names == done + {n};
        var d := cfg.options[n];
        ValidCloses();
        OwnName(cfg, n);
        var store := LookUp(cfg.hash(d.Key()));
        if d.defaultValue.Some? {
          if store.count == 0 && !store.hasDefault {
            DefaultedPush(cfg, sequential, defaults, done, n);
            ghost var defaults0 := defaults;
            var parsedDefault := ParseDefault(d);
            if parsedDefault.Err? {
              DefaultRejected(cfg, sequential, n);
              return Err(parsedDefault.message);
            }
            AcceptedPush(cfg, defaults0, (d.Essential(), d.defaultValue.value));
          } else {
            DefaultedSkip(cfg, sequential, defaults, done, n);
          }
        } else {
          DefaultedSkip(cfg, sequential, defaults, done, n);
        }
      }
      assert cfg.options.Keys - names == cfg.options.Keys;
      AllDefaulted(cfg, sequential, defaults);
      r := Ok(());
    }

    lemma ValidCloses()
      requires Valid()
      ensures Closed(cfg.options)
    {
    }

    /** Every alias of every option leads to the hash of its option. */
    method FinaliseAliases()
      requires Valid()
      modifies this`keys, this`parsed
      requires keys == map[]
      ensures Valid() && KeysFor(cfg, keys, cfg.options.Keys)
    {
      hide *;
      var names := cfg.options.Keys;
      NoKeys(cfg);
      assert cfg.options.Keys - names == {};
      while names != {}
        invariant names <= cfg.options.Keys && Valid() && KeysFor(cfg, keys, cfg.options.Keys - names)
        decreases |names|
      {
        var n :| n in names;
        ghost var done := cfg.options.Keys - names;
        names := names - {n};
        assert cfg.options.Keys - names == done + {n};
        var d := cfg.options[n];
        var h := cfg.hash(d.Key());
        ghost var keys0 := keys;
        keys := keys[d.short := h];
        var i := 0;
        WithNoKeys(keys, d.long[..0], h);
        while i < |d.long|
          invariant i <= |d.long| && keys == WithKeys(keys0[d.short := h], d.long[..i], h)
          modifies this`keys
        {
          assert d.long[..i + 1] == d.long[..i] + [d.long[i]];
          KeysPush(keys0[d.short := h], d.long[..i], h, d.long[i]);
          keys := keys[d.long[i] := h];
          i := i + 1;
        }
        assert d.long[..i] == d.long;
        ValidCloses();
        KeysOfOption(cfg, keys0, done, n, h) by { OwnName(cfg, n); }
        var store := LookUp(h);
      }
      assert cfg.options.Keys - names == cfg.options.Keys;
    }

    /** A whole command line: the entries, counts, defaults and leftovers it means, or its error. */
    method Parse(argv: seq<string>) returns (r: Result<ParseResult>)
      requires |argv| >= 1 && Valid() && sequential == [] && defaults == [] && keys == map[]
      modifies this
      ensures r.Err? ==>
                Meaning(cfg, argv) == Err(r.message) ||
                (Walk(cfg, argv, Run(1, 0, [], [])).Ok? &&
                 BadDefault(cfg, Walk(cfg, argv, Run(1, 0, [], [])).value.0.entries))
      ensures r.Ok? ==>
                && Meaning(cfg, argv).Ok?
                && r.value.sequential == Meaning(cfg, argv).value.1.entries
                && r.value.unmatched == Meaning(cfg, argv).value.1.unmatched
                && Defaulted(cfg, Meaning(cfg, argv).value.0.entries, r.value.defaults)
                && AllAccepted(cfg, r.value.defaults)
                && Counted(cfg, r.value)
      ensures Meaning(cfg, argv).Ok? && HashesApart(cfg) ==>
                (r.Ok? <==> !BadDefault(cfg, Meaning(cfg, argv).value.0.entries))
    {
      hide WalkOne, Positional, HashCount, Registered, Lists, Stored, Closed, Defaulted, Counted, KeysFor, HashesApart,
           BadDefault, AllAccepted;
      var current: nat, next: nat, unmatched: seq<string>, consumeRemaining := 1, 0, [], false;
      ghost var start := Run(1, 0, [], []);
      while current != |argv|
        invariant current <= |argv| && next <= |cfg.positional| && !consumeRemaining
        invariant Valid() && defaults == [] && keys == map[]
        invariant Walk(cfg, argv, Run(current, next, sequential, unmatched)) == Walk(cfg, argv, start)
        decreases |argv| - current
      {
        if argv[current] == "--" {
          consumeRemaining := true;
          current := current + 1;
          break;
        }
        var one := ParseOne(argv, current, next, unmatched);
        if one.Err? { return Err(one.message); }
        current, next, unmatched := one.value.0 + 1, one.value.1, one.value.2;
      }
      ghost var before := Run(current, next, sequential, unmatched);
      assert Walk(cfg, argv, start) == Ok((before, consumeRemaining));
      var done := ParseDefaults();
      if done.Err? { return done.PropagateFailure(); }
      if consumeRemaining {
        var rest := ParseRest(argv, current, next, before);
        if rest.Err? { return Err(rest.message); }
        unmatched := unmatched + rest.value;
      }
      FinaliseAliases();
      r := Ok(ParseResult(keys, parsed, sequential, defaults, unmatched));
      AllCounted(r.value);
      if HashesApart(cfg) {
        ValidCloses();
        NoBadDefault(cfg, before.entries, defaults);
      }
    }

    /** After the double dash: positionals while they are taken, then what is left over. */
    method ParseRest(argv: seq<string>, current0: nat, next0: nat, ghost before: Run) returns (r: Result<seq<string>>)
      requires Valid() && before.entries == sequential && before.next == next0 <= |cfg.positional|
      requires before.current == current0 <= |argv|
      modifies this`parsed, this`sequential
      ensures match Rest(cfg, argv, before)
              case Err(m) => r == Err(m)
              case Ok(after) =>
                r.Ok? && after.unmatched == before.unmatched + r.value && sequential == after.entries && Valid()
    {
      hide Positional, HashCount, Registered, Lists, Stored, Closed;
      var current: nat, next: nat, unmatched: seq<string> := current0, next0, [];
      ghost var u := before.unmatched;
      ghost var goal := Rest(cfg, argv, before);
      ghost var stopped := false;
      while current < |argv|
        invariant current <= |argv| && next <= |cfg.positional| && Valid()
        invariant Rest(cfg, argv, Run(current, next, sequential, u)) == goal
        decreases |argv| - current
      {
        ghost var r0 := Run(current, next, sequential, u);
        var consumed := ConsumePositional(argv[current], next, r0);
        if consumed.Err? { return Err(consumed.message); }
        next := consumed.value.1;
        if !consumed.value.0 {
          ghost var r1 := Positional(cfg, r0, argv[current]).value.1;
          assert goal == Ok(r1.(current := |argv|, unmatched := u + argv[current..]));
          stopped := true;
          break;
        }
        current := current + 1;
      }
      ghost var from := current;
      assert goal.Ok? && goal.value.unmatched == u + argv[from..] by {
        if !stopped { assert u + argv[from..] == u; }
      }
      while current != |argv|
        invariant from <= current <= |argv| && unmatched == argv[from..current]
      {
        unmatched := unmatched + [argv[current]];
        current := current + 1;
      }
      r := Ok(unmatched);
    }

    lemma AllCounted(p: ParseResult)
      requires Valid() && p.sequential == sequential && p.values == parsed && p.keys == keys
      requires KeysFor(cfg, keys, cfg.options.Keys)
      ensures Counted(cfg, p)
    {
      forall name <- cfg.options ensures p.Count(name) == HashCount(cfg, sequential, cfg.HashOf(name)) {
        assert Stored(parsed, cfg.HashOf(name)).count == HashCount(cfg, sequential, cfg.HashOf(name));
      }
      if HashesApart(cfg) {
        forall name <- cfg.options { CountsOwnEntries(cfg, sequential, name); }
      }
    }
  }

  /** Some option that was not given has a default its type does not take. */
  ghost predicate BadDefault(cfg: Config, entries: seq<Entry>) {
    exists n <- cfg.options :: RejectsDefault(cfg, entries, n)
  }

  predicate RejectsDefault(cfg: Config, entries: seq<Entry>, n: string)
    requires n in cfg.options
  {
    var d := cfg.options[n];
    && d.defaultValue.Some? && !cfg.accepts(d.Essential(), d.defaultValue.value)
    && HashCount(cfg, entries, cfg.HashOf(n)) == 0
  }

  ghost predicate AllAccepted(cfg: Config, defaults: seq<Entry>) { forall e <- defaults :: cfg.accepts(e.0, e.1) }

  lemma NoneAccepted(cfg: Config)
    ensures AllAccepted(cfg, [])
  {
  }

  lemma AcceptedPush(cfg: Config, defaults: seq<Entry>, e: Entry)
    requires AllAccepted(cfg, defaults) && cfg.accepts(e.0, e.1)
    ensures AllAccepted(cfg, defaults + [e])
  {
  }

  lemma DefaultRejected(cfg: Config, entries: seq<Entry>, n: string)
    requires n in cfg.options && cfg.options[n].defaultValue.Some?
    requires !cfg.accepts(cfg.options[n].Essential(), cfg.options[n].defaultValue.value)
    requires HashCount(cfg, entries, cfg.HashOf(n)) == 0
    ensures BadDefault(cfg, entries)
  {
    hide HashCount;
    assert RejectsDefault(cfg, entries, n);
  }

  /** With the hashes apart a command line whose defaults were all recorded has no bad one. */
  lemma NoBadDefault(cfg: Config, entries: seq<Entry>, defaults: seq<Entry>)
    requires Closed(cfg.options) && HashesApart(cfg)
    requires Defaulted(cfg, entries, defaults) && AllAccepted(cfg, defaults)
    ensures !BadDefault(cfg, entries)
  {
    hide HashCount;
    forall n | n in cfg.options && cfg.options[n].defaultValue.Some? && HashCount(cfg, entries, cfg.HashOf(n)) == 0
      ensures cfg.accepts(cfg.options[n].Essential(), cfg.options[n].defaultValue.value)
    {
      assert Lists(cfg, defaults, cfg.HashOf(n));
      var e :| e in defaults && cfg.HashOf(e.0) == cfg.HashOf(n);
      assert IsDefault(cfg, entries, e) && cfg.options[e.0] == cfg.options[n];
    }
  }

  lemma AllDefaulted(cfg: Config, entries: seq<Entry>, defaults: seq<Entry>)
    requires DefaultedFor(cfg, entries, defaults, cfg.options.Keys)
    ensures Defaulted(cfg, entries, defaults)
  {
  }

  lemma EssentialRegistered(cfg: Config, name: string)
    requires Closed(cfg.options) && name in cfg.options
    ensures var e := cfg.options[name].Essential(); e in cfg.options && cfg.options[e] == cfg.options[name]
  {
  }

  lemma NoPositional(cfg: Config, r: Run, a: string)
    requires r.next < |cfg.positional| && cfg.positional[r.next] !in cfg.options
    ensures Positional(cfg, r, a) == Err("no such option")
  {
  }

  lemma NoMorePositionals(cfg: Config, r: Run, a: string)
    requires r.next == |cfg.positional|
    ensures Positional(cfg, r, a) == Ok((false, r))
  {
  }

  // ----- the table of names -----

  /** Each of these names has its hash, and nothing but them, other registered names and the empty name is in. */
  ghost predicate KeysFor(cfg: Config, keys: map<string, int>, names: set<string>) {
    && (forall n <- names :: n in keys)
    && (forall k <- keys :: k == "" || (k in cfg.options && keys[k] == cfg.HashOf(k)))
  }

  function WithKeys(keys: map<string, int>, names: seq<string>, h: int): map<string, int> {
    if names == [] then keys else WithKeys(keys, names[..|names| - 1], h)[names[|names| - 1] := h]
  }

  lemma NoKeys(cfg: Config)
    ensures KeysFor(cfg, map[], {})
  {
  }

  lemma WithNoKeys(keys: map<string, int>, names: seq<string>, h: int)
    requires |names| == 0
    ensures WithKeys(keys, names, h) == keys
  {
  }

  lemma KeysPush(keys: map<string, int>, names: seq<string>, h: int, name: string)
    ensures WithKeys(keys, names + [name], h) == WithKeys(keys, names, h)[name := h]
  {
    assert (names + [name])[..|names|] == names;
  }

  lemma {:induction false} WithKeysDomain(keys: map<string, int>, names: seq<string>, h: int)
    ensures forall k :: k in WithKeys(keys, names, h) <==> k in keys || k in names
    ensures forall k <- names :: WithKeys(keys, names, h)[k] == h
    ensures forall k <- keys :: k !in names ==> WithKeys(keys, names, h)[k] == keys[k]
  {
    if names != [] {
      WithKeysDomain(keys, names[..|names| - 1], h);
      assert names == names[..|names| - 1] + [names[|names| - 1]];
    }
  }

  /** The names of one more option. */
  lemma KeysOfOption(cfg: Config, keys: map<string, int>, names: set<string>, n: string, h: int)
    requires Closed(cfg.options) && n in cfg.options && h == cfg.HashOf(n) && KeysFor(cfg, keys, names)
    ensures KeysFor(cfg, WithKeys(keys[cfg.options[n].short := h], cfg.options[n].long, h), names + {n})
  {
    var d := cfg.options[n];
    NamesOfOption(cfg, n);
    hide Closed, WithKeys;
    WithKeysDomain(keys[d.short := h], d.long, h);
    var m := WithKeys(keys[d.short := h], d.long, h);
    forall k | k in names + {n} ensures k in m {
      if k != n { assert k in keys; }
    }
    forall k | k in m ensures k == "" || (k in cfg.options && m[k] == cfg.HashOf(k)) {
      if k !in d.long && k != d.short { assert k in keys; }
    }
  }

  /** All names of an option, but the empty one, are registered under its hash. */
  lemma NamesOfOption(cfg: Config, n: string)
    requires Closed(cfg.options) && n in cfg.options
    ensures var d := cfg.options[n];
            && (n == d.short || n in d.long)
            && (forall k :: k == d.short || k in d.long ==>
                              k == "" || (k in cfg.options && cfg.HashOf(k) == cfg.HashOf(n)))
  {
  }

  /** The counts of a result: by hash always, by their own entries when the hashes are apart. */
  ghost predicate Counted(cfg: Config, p: ParseResult) {
    && (forall n <- cfg.options :: p.Count(n) == HashCount(cfg, p.sequential, cfg.HashOf(n)))
    && (forall n :: n !in cfg.options && n != "" ==> p.Count(n) == 0)
    && (HashesApart(cfg) ==>
          forall n <- cfg.options :: p.Count(n) == Occurrences(p.sequential, cfg.options[n].Essential()))
  }

  // ----- registering options -----

  class Options {
    var options: map<string, Details>

    constructor ()
      ensures Closed(options) && options == map[]
    {
      options := map[];
    }

    method AddOneOption(name: string, d: Details) returns (r: Result<()>)
      modifies this
      ensures r.Ok? <==> name !in old(options)
      ensures options == if r.Ok? then old(options)[name := d] else old(options)
    {
      if name in options { return Err("option already exists"); }
      options := options[name := d];
      r := Ok(());
    }

    /** An option is registered exactly if its names are new, under all of them; the registry stays closed. */
    method AddOption(d: Details) returns (r: Result<()>)
      requires Closed(options) && "" !in d.long && (d.short != "" || d.long != [])
      modifies this
      ensures r.Ok? <==> FreshNames(old(options), d)
      ensures r.Ok? ==> Closed(options) && options == WithNames(old(options), d)
    {
      hide *;
      ghost var options0 := options;
      NamedStart(options0, d);
      if d.short != "" {
        r := AddOneOption(d.short, d);
        if r.Err? { return; }
      }
      var i := 0;
      while i < |d.long|
        invariant i <= |d.long| && options == Named(options0, d, i)
        invariant d.short != "" ==> d.short !in options0
        invariant FreshLong(options0, d, i)
      {
        NamedStep(options0, d, i);
        r := AddOneOption(d.long[i], d);
        if r.Err? { return; }
        i := i + 1;
      }
      AllNamed(options0, d);
      WithNamesClosed(options0, d);
      r := Ok(());
    }
  }

  /** The registry with the short name and the first k long names added. */
  function Named(options: map<string, Details>, d: Details, k: nat): map<string, Details>
    requires k <= |d.long|
  {
    if k > 0 then Named(options, d, k - 1)[d.long[k - 1] := d]
    else if d.short != "" then options[d.short := d]
    else options
  }

  function WithNames(options: map<string, Details>, d: Details): map<string, Details> {
    Named(options, d, |d.long|)
  }

  predicate FreshLong(options: map<string, Details>, d: Details, k: nat)
    requires k <= |d.long|
  {
    forall j :: 0 <= j < k ==>
      d.long[j] !in options && d.long[j] !in d.long[..j] && (d.short != "" ==> d.long[j] != d.short)
  }

  predicate FreshNames(options: map<string, Details>, d: Details) {
    (d.short != "" ==> d.short !in options) && FreshLong(options, d, |d.long|)
  }

  lemma {:induction false} NamedDomain(options: map<string, Details>, d: Details, k: nat)
    requires k <= |d.long|
    ensures forall n :: n in Named(options, d, k) <==> n in options || n in d.long[..k] || (n == d.short && n != "")
    ensures forall n <- Named(options, d, k) ::
              Named(options, d, k)[n] == if n in d.long[..k] || (n == d.short && n != "") then d else options[n]
  {
    if k > 0 {
      NamedDomain(options, d, k - 1);
      assert d.long[..k] == d.long[..k - 1] + [d.long[k - 1]];
    }
  }

  lemma NamedStart(options: map<string, Details>, d: Details)
    ensures Named(options, d, 0) == if d.short != "" then options[d.short := d] else options
    ensures FreshLong(options, d, 0)
    ensures d.short != "" && d.short in options ==> !FreshNames(options, d)
  {
  }

  lemma AllNamed(options: map<string, Details>, d: Details)
    requires FreshLong(options, d, |d.long|) && (d.short != "" ==> d.short !in options)
    ensures FreshNames(options, d) && Named(options, d, |d.long|) == WithNames(options, d)
  {
  }

  lemma NamedStep(options: map<string, Details>, d: Details, k: nat)
    requires k < |d.long| && FreshLong(options, d, k) && (d.short != "" ==> d.short !in options)
    ensures d.long[k] in Named(options, d, k) ==> !FreshNames(options, d)
    ensures d.long[k] !in Named(options, d, k) ==> FreshLong(options, d, k + 1)
    ensures Named(options, d, k + 1) == Named(options, d, k)[d.long[k] := d]
  {
    assert Named(options, d, k + 1) == Named(options, d, k)[d.long[k] := d];
    hide Named, FreshLong, FreshNames;
    NamedDomain(options, d, k);
    OneMoreName(options, d, k);
  }

  predicate NewName(options: map<string, Details>, d: Details, k: nat)
    requires k < |d.long|
  {
    d.long[k] !in options && d.long[k] !in d.long[..k] && (d.short != "" ==> d.long[k] != d.short)
  }

  lemma OneMoreName(options: map<string, Details>, d: Details, k: nat)
    requires k < |d.long| && FreshLong(options, d, k)
    ensures NewName(options, d, k) ==> FreshLong(options, d, k + 1)
    ensures !NewName(options, d, k) ==> !FreshNames(options, d)
  {
  }

  lemma WithNamesClosed(options: map<string, Details>, d: Details)
    requires Closed(options) && FreshNames(options, d) && "" !in d.long && (d.short != "" || d.long != [])
    ensures Closed(WithNames(options, d))
  {
    hide Named;
    NamedDomain(options, d, |d.long|);
    var all := WithNames(options, d);
    assert d.long[..|d.long|] == d.long;
    assert forall n :: n in all <==> n in options || d.Has(n);
    assert forall n <- options :: !d.Has(n) && all[n] == options[n];
    assert forall n | d.Has(n) :: all[n] == d;
    assert d.Has(d.Essential());
  }
}
