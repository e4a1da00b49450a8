/**
 pkg/envoy/options.go: the command-line options of an Envoy instance.  An option is the
 pair of its flag name and flag value; what applying and validating it does depends on
 the flag name alone (registerFlagValidator).  DisableHotRestart(false) has no name.
 */
module Options {
  import Sequences
  import opened Wire
  import opened Strings

  datatype Opt = Opt(name: string, value: string)

  datatype Result<T, E> = Ok(value: T) | Err(error: E)

  // ----------------------------------------------------------- arguments and options

  predicate IsFlag(arg: string) {
    "-" <= arg
  }

  function Args(o: Opt): seq<string> {
    if o.name == "" then []
    else if o.value == "" then [o.name]
    else [o.name, o.value]
  }

  function ToArgs(options: seq<Opt>): seq<string> {
    if options == [] then [] else Args(options[0]) + ToArgs(options[1..])
  }

  function Trimmed(args: seq<string>): (r: seq<string>)
    ensures |r| == |args|
    ensures forall i :: 0 <= i < |args| ==> r[i] == TrimSpace(args[i])
  {
    seq(|args|, i requires 0 <= i < |args| => TrimSpace(args[i]))
  }

  function NonBlank(args: seq<string>): seq<string> {
    if args == [] then []
    else (if args[0] == "" then [] else [args[0]]) + NonBlank(args[1..])
  }

  lemma {:induction false} NothingBlank(args: seq<string>)
    ensures NonBlank(args) == args <==> "" !in args
  {
    if args != [] {
      NothingBlank(args[1..]);
      assert args == [args[0]] + args[1..];
      NonBlankIsNonBlank(args);
    }
  }

  lemma {:induction false} NonBlankIsNonBlank(args: seq<string>)
    ensures "" !in NonBlank(args)
  {
    if args != [] {
      NonBlankIsNonBlank(args[1..]);
    }
  }

  /** The options that trimmed arguments stand for; the error is an argument without flag. */
  function Parse(args: seq<string>): Result<seq<Opt>, string> {
    if args == [] then Ok([])
    else if !IsFlag(args[0]) then Err(args[0])
    else if |args| > 1 && !IsFlag(args[1]) then Prepend([Opt(args[0], args[1])], Parse(args[2..]))
    else Prepend([Opt(args[0], "")], Parse(args[1..]))
  }

  function Prepend(options: seq<Opt>, r: Result<seq<Opt>, string>): Result<seq<Opt>, string> {
    if r.Ok? then Ok(options + r.value) else r
  }

  /** Every value stands directly behind its flag. */
  predicate ValuesFollowFlags(args: seq<string>) {
    forall i :: 0 <= i < |args| && !IsFlag(args[i]) ==> i > 0 && IsFlag(args[i - 1])
  }

  lemma {:induction false} ParseSucceedsExactly(args: seq<string>)
    ensures Parse(args).Ok? <==> ValuesFollowFlags(args)
  {
    if args != [] && IsFlag(args[0]) {
      var k := if |args| > 1 && !IsFlag(args[1]) then 2 else 1;
      ParseSucceedsExactly(args[k..]);
      if ValuesFollowFlags(args[k..]) {
        forall i | 0 <= i < |args| && !IsFlag(args[i])
          ensures i > 0 && IsFlag(args[i - 1])
        {
          if i >= k {
            assert args[k..][i - k] == args[i];
          }
        }
      }
      if ValuesFollowFlags(args) {
        forall i | 0 <= i < |args[k..]| && !IsFlag(args[k..][i])
          ensures i > 0 && IsFlag(args[k..][i - 1])
        {
          assert args[i + k] == args[k..][i];
        }
      }
    } else if args != [] {
      assert !ValuesFollowFlags(args);
    }
  }

  /** Printing what was parsed gives the arguments back, without blank ones. */
  lemma {:induction false} ParsePrints(args: seq<string>)
    requires Parse(args).Ok?
    ensures ToArgs(Parse(args).value) == NonBlank(args)
  {
    if args != [] {
      var k := if |args| > 1 && !IsFlag(args[1]) then 2 else 1;
      ParsePrints(args[k..]);
      var options, o := Parse(args).value, Opt(args[0], if k == 2 then args[1] else "");
      assert options == [o] + Parse(args[k..]).value;
      assert options[0] == o && options[1..] == Parse(args[k..]).value;
      if k == 2 {
        assert args[1..][1..] == args[2..];
      }
    }
  }

  predicate Printable(o: Opt) {
    IsFlag(o.name) && IsTrimmed(o.name) && !IsFlag(o.value) && IsTrimmed(o.value)
  }

  lemma {:induction false} ParsedArePrintable(args: seq<string>)
    requires Parse(args).Ok? && forall a :: a in args ==> IsTrimmed(a)
    ensures forall o :: o in Parse(args).value ==> Printable(o)
  {
    if args != [] {
      ParsedArePrintable(args[if |args| > 1 && !IsFlag(args[1]) then 2 else 1..]);
    }
  }

  lemma {:induction false} PrintParses(options: seq<Opt>)
    requires forall o :: o in options ==> IsFlag(o.name) && !IsFlag(o.value)
    ensures Parse(ToArgs(options)) == Ok(options)
  {
    if options != [] {
      var o, args := options[0], ToArgs(options);
      PrintParses(options[1..]);
      if |options| > 1 {
        assert IsFlag(ToArgs(options[1..])[0]) by {
          assert options[1] in options;
        }
      }
      assert args[|Args(o)|..] == ToArgs(options[1..]);
      assert options == [o] + options[1..];
    }
  }

  lemma TrimTrimmed(s: string)
    requires IsTrimmed(s)
    ensures TrimSpace(s) == s
  {
  }

  /** Reading the printed arguments gives the options back exactly if every name is a
      trimmed flag and every value is trimmed and no flag. */
  lemma PrintedOptionsParseExactly(options: seq<Opt>)
    ensures Parse(Trimmed(ToArgs(options))) == Ok(options) <==> forall o :: o in options ==> Printable(o)
  {
    var args := ToArgs(options);
    if forall o :: o in options ==> Printable(o) {
      ArgsAreTrimmed(options);
      forall i | 0 <= i < |args|
        ensures TrimSpace(args[i]) == args[i]
      {
        TrimTrimmed(args[i]);
      }
      assert Trimmed(args) == args;
      PrintParses(options);
    }
    if Parse(Trimmed(args)) == Ok(options) {
      ParsedArePrintable(Trimmed(args));
    }
  }

  lemma {:induction false} ArgsAreTrimmed(options: seq<Opt>)
    requires forall o :: o in options ==> Printable(o)
    ensures forall a :: a in ToArgs(options) ==> IsTrimmed(a)
  {
    if options != [] {
      assert Printable(options[0]) && IsTrimmed("");
      ArgsAreTrimmed(options[1..]);
      forall a | a in ToArgs(options)
        ensures IsTrimmed(a)
      {
        assert a in Args(options[0]) || a in ToArgs(options[1..]);
      }
    }
  }

  method PrintArgs(options: seq<Opt>) returns (args: seq<string>)
    ensures args == ToArgs(options)
  {
    args := [];
    assert options[0..] == options && options[|options|..] == [];
    for i := 0 to |options|
      invariant args + ToArgs(options[i..]) == ToArgs(options)
    {
      var o := options[i];
      ToArgsNext(args, options, i);
      if o.name != "" {
        args := args + [o.name];
        if o.value != "" {
          args := args + [o.value];
        }
      }
    }
  }

  lemma ToArgsNext(args: seq<string>, options: seq<Opt>, i: nat)
    requires i < |options|
    ensures var o, rest := options[i], ToArgs(options[i + 1..]);
            args + ToArgs(options[i..])
            == if o.name == "" then args + rest
               else if o.value == "" then args + [o.name] + rest
               else args + [o.name] + [o.value] + rest
  {
    assert options[i..][0] == options[i] && options[i..][1..] == options[i + 1..];
    Sequences.Assoc(args, Args(options[i]), ToArgs(options[i + 1..]));
    assert args + [options[i].name, options[i].value] == args + [options[i].name] + [options[i].value];
  }

  /** NewOptions: `next` is a flag still waiting for its value. */
  method NewOptions(args: seq<string>) returns (r: Result<seq<Opt>, string>)
    ensures r == Parse(Trimmed(args))
    ensures r.Ok? <==> ValuesFollowFlags(Trimmed(args))
    ensures r.Ok? ==> ToArgs(r.value) == NonBlank(Trimmed(args))
    ensures r.Ok? && "" !in Trimmed(args) ==> ToArgs(r.value) == Trimmed(args)
  {
    ghost var trimmed := Trimmed(args);
    hide Parse, Prepend, ToArgs, NonBlank, ValuesFollowFlags, TrimSpace, TrimLeft, TrimRight, IsTrimmed, IsSpace, IsFlag;
    ParseSucceedsExactly(trimmed);
    var out, next: Option<string> := [], None;
    PrependNothing(Parse(trimmed));
    assert [] + trimmed[0..] == trimmed;
    for i := 0 to |args|
      invariant Parse(trimmed) == Prepend(out, Parse(Waiting(next) + trimmed[i..]))
      invariant next.Some? ==> IsFlag(next.value)
    {
      var arg := TrimSpace(args[i]);
      ParseOne(next, trimmed, i);
      assert trimmed[i] == arg;
      if IsFlag(arg) {
        if next.Some? {
          PrependTwice(out, [Opt(next.value, "")], Parse([arg] + trimmed[i + 1..]));
          out := out + [Opt(next.value, "")];
        }
        next := Some(arg);
      } else {
        if next.None? {
          PrependTwice(out, [], Err(arg));
          return Err(arg);
        }
        PrependTwice(out, [Opt(next.value, arg)], Parse(trimmed[i + 1..]));
        out := out + [Opt(next.value, arg)];
        next := None;
        assert [] + trimmed[i + 1..] == trimmed[i + 1..];
      }
    }
    ParseEnd(next, trimmed, out);
    if next.Some? {
      out := out + [Opt(next.value, "")];
    }
    r := Ok(out);
    NothingBlank(trimmed);
    ParsePrints(trimmed);
  }

  lemma PrependNothing(r: Result<seq<Opt>, string>)
    ensures Prepend([], r) == r
  {
    if r.Ok? {
      assert [] + r.value == r.value;
    }
  }

  lemma PrependTwice(a: seq<Opt>, b: seq<Opt>, r: Result<seq<Opt>, string>)
    ensures Prepend(a, Prepend(b, r)) == Prepend(a + b, r)
    ensures r.Err? ==> Prepend(a, r) == r
  {
    if r.Ok? {
      assert a + (b + r.value) == a + b + r.value;
    }
  }

  lemma ParseEnd(next: Option<string>, args: seq<string>, out: seq<Opt>)
    requires next.Some? ==> IsFlag(next.value)
    ensures Prepend(out, Parse(Waiting(next) + args[|args|..]))
         == Ok(if next.Some? then out + [Opt(next.value, "")] else out)
  {
    var waiting := Waiting(next) + args[|args|..];
    assert waiting == Waiting(next);
    if next.Some? {
      assert waiting[1..] == [];
      assert [Opt(next.value, "")] + [] == [Opt(next.value, "")];
      assert Parse(waiting) == Ok([Opt(next.value, "")]);
    } else {
      assert out + [] == out;
    }
  }

  function Waiting(next: Option<string>): seq<string> {
    if next.Some? then [next.value] else []
  }

  lemma ParseOne(next: Option<string>, args: seq<string>, i: nat)
    requires i < |args| && (next.Some? ==> IsFlag(next.value))
    ensures var now := Parse(Waiting(next) + args[i..]);
            if IsFlag(args[i]) then
              now == (if next.Some? then Prepend([Opt(next.value, "")], Parse([args[i]] + args[i + 1..]))
                      else Parse([args[i]] + args[i + 1..]))
            else
              now == (if next.Some? then Prepend([Opt(next.value, args[i])], Parse(args[i + 1..])) else Err(args[i]))
  {
    var all := Waiting(next) + args[i..];
    assert args[i..] == [args[i]] + args[i + 1..];
    if next.Some? {
      assert all[0] == next.value && all[1] == args[i] && all[1..] == args[i..] && all[2..] == args[i + 1..];
    } else {
      assert all == args[i..];
    }
  }

  // ------------------------------------------------------------- component log levels

  datatype ComponentLogLevel = ComponentLogLevel(name: string, level: string)

  function LevelString(l: ComponentLogLevel): string {
    l.name + ":" + l.level
  }

  function LevelStrings(levels: seq<ComponentLogLevel>): (r: seq<string>)
    ensures |r| == |levels|
    ensures forall i :: 0 <= i < |levels| ==> r[i] == LevelString(levels[i])
  {
    seq(|levels|, i requires 0 <= i < |levels| => LevelString(levels[i]))
  }

  /** ComponentLogLevels.FlagValue. */
  function LevelsValue(levels: seq<ComponentLogLevel>): string {
    Join(LevelStrings(levels), ',')
  }

  function ParsePart(part: string): seq<ComponentLogLevel> {
    var keyAndValue := Split(part, ':');
    if |keyAndValue| == 2 then [ComponentLogLevel(keyAndValue[0], keyAndValue[1])] else []
  }

  /** Parts that are no pair are dropped without an error. */
  function ParseParts(parts: seq<string>): seq<ComponentLogLevel> {
    if parts == [] then [] else ParsePart(parts[0]) + ParseParts(parts[1..])
  }

  method ParseComponentLogLevels(value: string) returns (out: seq<ComponentLogLevel>)
    ensures out == ParseParts(Split(value, ','))
  {
    hide ParseParts;
    var parts := Split(value, ',');
    out := [];
    PartsEnd(parts);
    for i := 0 to |parts|
      invariant out + ParseParts(parts[i..]) == ParseParts(parts)
    {
      PartsNext(out, parts, i);
      var keyAndValue := Split(parts[i], ':');
      if |keyAndValue| == 2 {
        out := out + [ComponentLogLevel(keyAndValue[0], keyAndValue[1])];
      }
    }
  }

  lemma PartsEnd(parts: seq<string>)
    ensures [] + ParseParts(parts[0..]) == ParseParts(parts)
    ensures ParseParts(parts[|parts|..]) == []
  {
    assert parts[0..] == parts;
  }

  lemma PartsNext(out: seq<ComponentLogLevel>, parts: seq<string>, i: nat)
    requires i < |parts|
    ensures out + ParseParts(parts[i..]) == out + ParsePart(parts[i]) + ParseParts(parts[i + 1..])
  {
    assert parts[i..][0] == parts[i] && parts[i..][1..] == parts[i + 1..];
    Sequences.Assoc(out, ParsePart(parts[i]), ParseParts(parts[i + 1..]));
  }

  predicate Plain(l: ComponentLogLevel) {
    ',' !in l.name && ':' !in l.name && ',' !in l.level && ':' !in l.level
  }

  lemma {:induction false} ParsedPartsArePlain(parts: seq<string>)
    requires forall p :: p in parts ==> ',' !in p
    ensures forall l :: l in ParseParts(parts) ==> Plain(l)
  {
    if parts != [] {
      ParsedPartsArePlain(parts[1..]);
      SplitKeepsOut(parts[0], ':', ',');
    }
  }

  lemma {:induction false} SplitKeepsOut(s: string, sep: char, c: char)
    requires c !in s
    ensures forall p :: p in Split(s, sep) ==> c !in p
  {
    if s != [] {
      SplitKeepsOut(s[1..], sep, c);
    }
  }

  lemma {:induction false} PartsRoundTrip(levels: seq<ComponentLogLevel>)
    requires forall l :: l in levels ==> Plain(l)
    ensures ParseParts(LevelStrings(levels)) == levels
  {
    if levels != [] {
      var l := levels[0];
      assert Plain(l);
      PartsRoundTrip(levels[1..]);
      assert LevelStrings(levels)[1..] == LevelStrings(levels[1..]);
      SplitFirst(l.name, l.level, ':');
      SplitFirst(l.level, "", ':');
      assert levels == [l] + levels[1..];
    }
  }

  /** Parsing a printed list gives it back exactly if no name or level has a comma or colon. */
  lemma LevelsRoundTripExactly(levels: seq<ComponentLogLevel>)
    ensures ParseParts(Split(LevelsValue(levels), ',')) == levels <==> forall l :: l in levels ==> Plain(l)
  {
    if forall l :: l in levels ==> Plain(l) {
      forall p | p in LevelStrings(levels)
        ensures ',' !in p
      {
        var i :| 0 <= i < |levels| && p == LevelString(levels[i]);
        assert Plain(levels[i]);
      }
      SplitJoin(LevelStrings(levels), ',');
      if levels == [] {
        assert Split("", ':') == [""];
      } else {
        PartsRoundTrip(levels);
      }
    }
    ParsedPartsArePlain(Split(LevelsValue(levels), ','));
  }
}
