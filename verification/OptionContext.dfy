/**
 pkg/envoy/options.go: what a list of options means for an instance (configContext), and
 which lists are valid.  Looking up a file is a parameter, the set of existing paths.
 */
module OptionContext {
  import opened Wire
  import opened Strings
  import opened Options

  const CONFIG_PATH := "--config-path"
  const CONFIG_YAML := "--config-yaml"
  const BASE_ID := "--base-id"
  const RESTART_EPOCH := "--restart-epoch"

  const INVALID_BASE_ID := 0xFFFF_FFFF

  /** The base ID and the epoch are uint32. */
  datatype Context = Context(configPath: string, configYaml: string, baseID: nat, epoch: nat)

  const NEW_CONTEXT := Context("", "", INVALID_BASE_ID, 0)

  datatype Failure = Duplicate(name: string) | Invalid(name: string)

  // ------------------------------------------------- the source, one option at a time

  /** The `apply` functions of the flag validators; other flags have no effect. */
  function Apply(ctx: Context, o: Opt): Context {
    if o.name == CONFIG_PATH then ctx.(configPath := o.value)
    else if o.name == CONFIG_YAML then ctx.(configYaml := o.value)
    else if o.name == BASE_ID && ParseUint(o.value, TWO_TO_64).Some? then ctx.(baseID := ParseUint(o.value, TWO_TO_64).value % TWO_TO_32)
    else if o.name == RESTART_EPOCH && ParseUint(o.value, TWO_TO_32).Some? then ctx.(epoch := ParseUint(o.value, TWO_TO_32).value)
    else ctx
  }

  predicate ValidLevel(level: string) {
    level in {"trace", "debug", "info", "warning", "critical", "off"}
  }

  predicate ConfigGiven(ctx: Context, files: set<string>) {
    && (ctx.configPath != "" || ctx.configYaml != "")
    && (ctx.configPath != "" ==> ctx.configPath in files)
  }

  /** The `validate` functions of the flag validators that look at the value. */
  predicate ValidValue(o: Opt) {
    if o.name == "--log-level" then ValidLevel(o.value)
    else if o.name == "--component-log-level" then
      forall l :: l in ParseParts(Split(o.value, ',')) ==> l.name != "" && ValidLevel(l.level)
    else if o.name == "--local-address-ip-version" then o.value in {"v4", "v6"}
    else if o.name in {BASE_ID, "--concurrency"} then ParseUint(o.value, TWO_TO_64).Some?
    else if o.name in {RESTART_EPOCH, "--drain-time-s", "--parent-shutdown-time-s"} then ParseUint(o.value, TWO_TO_32).Some?
    else if o.name == "--disable-hot-restart" then o.value in {"", "true"}
    else true
  }

  predicate ValidFor(ctx: Context, files: set<string>, o: Opt) {
    if o.name == CONFIG_PATH then ConfigGiven(ctx, files) else ValidValue(o)
  }

  // ---------------------------------------------------- the meaning of a list of options

  predicate Unique(options: seq<Opt>) {
    forall i, j :: 0 <= i < j < |options| ==> options[i].name != options[j].name
  }

  /** The value given for a flag, wherever it stands in the list. */
  function ValueOf(options: seq<Opt>, name: string): Option<string> {
    if options == [] then None
    else if options[|options| - 1].name == name then Some(options[|options| - 1].value)
    else ValueOf(options[..|options| - 1], name)
  }

  function OrElse(value: Option<string>, default: string): string {
    if value.Some? then value.value else default
  }

  function Number(value: Option<string>, limit: nat, default: nat): nat {
    if value.Some? && ParseUint(value.value, limit).Some? then ParseUint(value.value, limit).value else default
  }

  /** What the options mean for an instance, independently of their order. */
  function ContextOf(options: seq<Opt>): Context {
    Context(
      OrElse(ValueOf(options, CONFIG_PATH), ""),
      OrElse(ValueOf(options, CONFIG_YAML), ""),
      Number(ValueOf(options, BASE_ID), TWO_TO_64, INVALID_BASE_ID) % TWO_TO_32,
      Number(ValueOf(options, RESTART_EPOCH), TWO_TO_32, 0))
  }

  predicate Valid(options: seq<Opt>, files: set<string>) {
    && Unique(options)
    && ConfigGiven(ContextOf(options), files)
    && (forall o :: o in options ==> ValidValue(o))
  }

  lemma {:induction false} ValueOfExact(options: seq<Opt>, name: string, value: string)
    requires Unique(options)
    ensures ValueOf(options, name) == Some(value) <==> Opt(name, value) in options
    ensures ValueOf(options, name) == None <==> forall o :: o in options ==> o.name != name
  {
    if options != [] {
      var init, last := options[..|options| - 1], options[|options| - 1];
      ValueOfExact(init, name, value);
      LastNameIsNew(options);
      hide Unique;
      assert options == init + [last];
      assert forall o :: o in options <==> o in init || o == last;
    }
  }

  lemma LastNameIsNew(options: seq<Opt>)
    requires Unique(options) && options != []
    ensures forall o :: o in options[..|options| - 1] ==> o.name != options[|options| - 1].name
  {
    forall i | 0 <= i < |options| - 1
      ensures options[i].name != options[|options| - 1].name
    {
    }
  }

  /** Options with different names can be given in any order. */
  lemma ContextIgnoresOrder(options: seq<Opt>, others: seq<Opt>, files: set<string>)
    requires Unique(options) && Unique(others)
    requires forall o :: o in options <==> o in others
    ensures ContextOf(options) == ContextOf(others)
    ensures Valid(options, files) <==> Valid(others, files)
  {
    SameValue(options, others, CONFIG_PATH);
    SameValue(options, others, CONFIG_YAML);
    SameValue(options, others, BASE_ID);
    SameValue(options, others, RESTART_EPOCH);
  }

  lemma SameValue(options: seq<Opt>, others: seq<Opt>, name: string)
    requires Unique(options) && Unique(others)
    requires forall o :: o in options <==> o in others
    ensures ValueOf(options, name) == ValueOf(others, name)
  {
    var value := OrElse(ValueOf(options, name), "");
    ValueOfExact(options, name, value);
    ValueOfExact(others, name, value);
  }

  /** Validity, in terms of the list. */
  lemma ValidExactly(options: seq<Opt>, files: set<string>)
    ensures Valid(options, files) <==>
              && Unique(options)
              && (exists o :: o in options && (o.name == CONFIG_PATH || o.name == CONFIG_YAML) && o.value != "")
              && (forall o :: o in options && o.name == CONFIG_PATH && o.value != "" ==> o.value in files)
              && (forall o :: o in options ==> ValidValue(o))
  {
    if Unique(options) {
      var path, yaml := OrElse(ValueOf(options, CONFIG_PATH), ""), OrElse(ValueOf(options, CONFIG_YAML), "");
      ValueOfExact(options, CONFIG_PATH, path);
      ValueOfExact(options, CONFIG_YAML, yaml);
      forall o | o in options
        ensures o.name == CONFIG_PATH ==> o.value == path
        ensures o.name == CONFIG_YAML ==> o.value == yaml
      {
        ValueOfExact(options, o.name, o.value);
        assert o == Opt(o.name, o.value);
      }
      hide ValidValue, Unique, ValueOf;
      if path != "" {
        assert Opt(CONFIG_PATH, path) in options;
      }
      if yaml != "" {
        assert Opt(CONFIG_YAML, yaml) in options;
      }
    }
  }

  /** The numeric flags and the bit sizes of their values. */
  function BitLimit(name: string): Option<nat> {
    if name == BASE_ID || name == "--concurrency" then Some(TWO_TO_64)
    else if name == RESTART_EPOCH || name == "--drain-time-s" || name == "--parent-shutdown-time-s" then Some(TWO_TO_32)
    else None
  }

  /** A numeric flag takes exactly the decimal forms of the numbers of its bit size, with
      any leading zeros. */
  lemma NumericValues(o: Opt)
    requires BitLimit(o.name).Some?
    ensures ValidValue(o) <==>
              exists n: nat, zeros :: n < BitLimit(o.name).value && AllZeros(zeros) && o.value == zeros + FormatUint(n)
  {
    var limit := BitLimit(o.name).value;
    NumericFlag(o);
    hide ParseUint, FormatUint, AllZeros, ValidValue;
    if ValidValue(o) {
      var n := ParseUint(o.value, limit).value;
      ParseUintExactly(o.value, limit, n);
      var zeros :| AllZeros(zeros) && o.value == zeros + FormatUint(n);
      assert n < limit && AllZeros(zeros) && o.value == zeros + FormatUint(n);
    }
    forall n: nat, zeros | n < limit && AllZeros(zeros) && o.value == zeros + FormatUint(n)
      ensures ValidValue(o)
    {
      ParseUintExactly(o.value, limit, n);
    }
  }

  lemma NumericFlag(o: Opt)
    requires BitLimit(o.name).Some?
    ensures ValidValue(o) <==> ParseUint(o.value, BitLimit(o.name).value).Some?
  {
    hide ParseUint, ParseParts, Split;
    assert o.name[2] != 'l' && o.name != "--component-log-level";
    assert o.name[2] == 'c' ==> o.name[4] == 'n';
  }

  /** A printed list of component log levels is a valid value exactly if every component has
      a name and a level that Envoy knows. */
  lemma ComponentLevelValues(levels: seq<ComponentLogLevel>)
    requires forall l :: l in levels ==> Plain(l)
    ensures ValidValue(Opt("--component-log-level", LevelsValue(levels)))
            <==> forall l :: l in levels ==> l.name != "" && ValidLevel(l.level)
  {
    LevelsRoundTripExactly(levels);
    hide LevelsValue, ParseParts, Split;
    assert "--component-log-level"[2] != "--log-level"[2];
  }

  predicate Restricted(name: string) {
    || BitLimit(name).Some?
    || name in ["--log-level", "--component-log-level", "--local-address-ip-version", "--disable-hot-restart"]
  }

  /** The values that the other flags take. */
  lemma NamedValues(v: string)
    ensures ValidValue(Opt("--log-level", v)) <==> v in ["trace", "debug", "info", "warning", "critical", "off"]
    ensures ValidValue(Opt("--local-address-ip-version", v)) <==> v == "v4" || v == "v6"
    ensures ValidValue(Opt("--disable-hot-restart", v)) <==> v == "" || v == "true"
    ensures forall name :: !Restricted(name) ==> ValidValue(Opt(name, v))
  {
    hide ParseParts, Split, ParseUint;
  }

  // ---------------------------------------------------------------------- the methods

  method CheckDuplicates(options: seq<Opt>) returns (duplicate: Option<string>)
    ensures duplicate.None? <==> Unique(options)
    ensures duplicate.Some? ==> exists i, j :: 0 <= i < j < |options| && options[i].name == options[j].name == duplicate.value
  {
    var optionSet := {};
    for i := 0 to |options|
      invariant forall name :: name in optionSet <==> exists j :: 0 <= j < i && options[j].name == name
      invariant Unique(options[..i])
    {
      if options[i].name in optionSet {
        return Some(options[i].name);
      }
      optionSet := optionSet + {options[i].name};
    }
    assert options[..|options|] == options;
    return None;
  }

  lemma ApplyNext(options: seq<Opt>, i: nat)
    requires Unique(options) && i < |options|
    ensures ContextOf(options[..i + 1]) == Apply(ContextOf(options[..i]), options[i])
  {
    var now, next := options[..i], options[..i + 1];
    assert next[..|next| - 1] == now && next[|next| - 1] == options[i];
    ValueOfExact(now, options[i].name, "");
  }

  /** Go's loop over all options; the placeholder before them has no effect. */
  method ApplyAll(initial: Context, options: seq<Opt>) returns (ctx: Context)
    requires Unique(options) && initial == ContextOf([])
    ensures ctx == ContextOf(options)
  {
    hide Apply, ContextOf, Unique;
    ctx := initial;
    assert options[..0] == [] && options[..|options|] == options;
    for i := 0 to |options|
      invariant ctx == ContextOf(options[..i])
    {
      ApplyNext(options, i);
      ctx := Apply(ctx, options[i]);
    }
  }

  /** Options.validate on a fresh context, which it fills in. */
  method Validate(options: seq<Opt>, files: set<string>) returns (r: Result<Context, Failure>)
    ensures r.Ok? <==> Valid(options, files)
    ensures r.Ok? ==> r.value == ContextOf(options)
    ensures !Unique(options) <==> r.Err? && r.error.Duplicate?
  {
    var duplicate := CheckDuplicates(options);
    if duplicate.Some? {
      return Err(Duplicate(duplicate.value));
    }
    hide Unique;
    var placeholder := Opt(CONFIG_PATH, "");
    var ctx := Apply(NEW_CONTEXT, placeholder);
    assert ctx == ContextOf([]);
    ctx := ApplyAll(ctx, options);
    r := ValidateAll(ctx, [placeholder] + options, files);
    hide ContextOf, ValidValue;
    assert ([placeholder] + options)[0] == placeholder;
    assert forall o :: o in [placeholder] + options <==> o == placeholder || o in options;
    forall o: Opt
      ensures ValidFor(ctx, files, o) <==> (o.name == CONFIG_PATH ==> ConfigGiven(ctx, files)) && ValidValue(o)
    {
      AnyConfigPath(o);
    }
  }

  lemma AnyConfigPath(o: Opt)
    ensures o.name == CONFIG_PATH ==> ValidValue(o)
  {
    if o.name == CONFIG_PATH {
      assert o.name[2] == 'c' && o.name[4] == 'n' && o.name[5] == 'f' && |o.name| == 13;
    }
  }

  method ValidateAll(ctx: Context, opts: seq<Opt>, files: set<string>) returns (r: Result<Context, Failure>)
    ensures r.Ok? <==> forall o :: o in opts ==> ValidFor(ctx, files, o)
    ensures r == Ok(ctx) || (r.Err? && r.error.Invalid? && exists o :: o in opts && o.name == r.error.name && !ValidFor(ctx, files, o))
  {
    hide ValidFor;
    for i := 0 to |opts|
      invariant forall o :: o in opts[..i] ==> ValidFor(ctx, files, o)
    {
      if !ValidFor(ctx, files, opts[i]) {
        return Err(Invalid(opts[i].name));
      }
    }
    return Ok(ctx);
  }
}
