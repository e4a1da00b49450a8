/**
 pkg/envoy/instance.go: Envoy instances and the chain of their hot restarts.  Existing
 files and the admin ports found in bootstrap configurations are parameters; waiting for
 the parent to go live is left out, its outcome is only logged.
 */
module Instances {
  import Sequences
  import opened Wire
  import opened Strings
  import opened Options
  import opened OptionContext

  // ---------------------------------------------------------- the options of a restart

  function WithoutEpoch(options: seq<Opt>): seq<Opt> {
    if options == [] then []
    else (if options[0].name == RESTART_EPOCH then [] else [options[0]]) + WithoutEpoch(options[1..])
  }

  /** The epoch is a uint32: adding one wraps around. */
  function NextEpoch(epoch: nat): nat {
    (epoch + 1) % TWO_TO_32
  }

  function EpochOption(epoch: nat): Opt {
    Opt(RESTART_EPOCH, FormatUint(epoch))
  }

  function Restarted(options: seq<Opt>): seq<Opt> {
    WithoutEpoch(options) + [EpochOption(NextEpoch(ContextOf(options).epoch))]
  }

  /** The options after k hot restarts. */
  function Chain(options: seq<Opt>, k: nat): seq<Opt> {
    if k == 0 then options else Restarted(Chain(options, k - 1))
  }

  lemma {:induction false} WithoutEpochConcat(a: seq<Opt>, b: seq<Opt>)
    ensures WithoutEpoch(a + b) == WithoutEpoch(a) + WithoutEpoch(b)
  {
    if a == [] {
      assert a + b == b;
    } else {
      WithoutEpochConcat(a[1..], b);
      assert (a + b)[1..] == a[1..] + b && (a + b)[0] == a[0];
      Sequences.Assoc(if a[0].name == RESTART_EPOCH then [] else [a[0]], WithoutEpoch(a[1..]), WithoutEpoch(b));
    }
  }

  lemma {:induction false} WithoutEpochKeeps(options: seq<Opt>)
    ensures forall o :: o in WithoutEpoch(options) <==> o in options && o.name != RESTART_EPOCH
  {
    if options != [] {
      WithoutEpochKeeps(options[1..]);
      assert options == [options[0]] + options[1..];
    }
  }

  lemma {:induction false} WithoutEpochTwice(options: seq<Opt>)
    ensures WithoutEpoch(WithoutEpoch(options)) == WithoutEpoch(options)
  {
    if options != [] {
      WithoutEpochTwice(options[1..]);
      var rest := WithoutEpoch(options[1..]);
      if options[0].name != RESTART_EPOCH {
        assert ([options[0]] + rest)[1..] == rest;
      } else {
        assert [] + rest == rest;
      }
    }
  }

  lemma {:induction false} WithoutEpochUnique(options: seq<Opt>)
    requires Unique(options)
    ensures Unique(WithoutEpoch(options))
  {
    if options != [] {
      UniqueSplit(options);
      WithoutEpochUnique(options[1..]);
      WithoutEpochKeeps(options[1..]);
      hide Unique;
      UniqueCons(options[0], WithoutEpoch(options[1..]));
      assert [] + WithoutEpoch(options[1..]) == WithoutEpoch(options[1..]);
    }
  }

  lemma UniqueSplit(options: seq<Opt>)
    requires Unique(options) && options != []
    ensures Unique(options[1..])
    ensures forall o :: o in options[1..] ==> o.name != options[0].name
  {
    forall i | 1 <= i < |options|
      ensures options[0].name != options[i].name
    {
    }
  }

  lemma UniqueCons(o: Opt, rest: seq<Opt>)
    ensures Unique(rest) && (forall p :: p in rest ==> p.name != o.name) ==> Unique([o] + rest)
  {
  }

  lemma UniqueSnoc(rest: seq<Opt>, o: Opt)
    requires Unique(rest) && forall p :: p in rest ==> p.name != o.name
    ensures Unique(rest + [o])
  {
  }

  lemma ValueAfterRestart(options: seq<Opt>, name: string)
    requires Unique(options)
    ensures ValueOf(Restarted(options), name)
         == if name == RESTART_EPOCH then Some(EpochOption(NextEpoch(ContextOf(options).epoch)).value) else ValueOf(options, name)
  {
    var kept, last := WithoutEpoch(options), EpochOption(NextEpoch(ContextOf(options).epoch));
    assert Restarted(options)[..|kept|] == kept;
    WithoutEpochKeeps(options);
    WithoutEpochUnique(options);
    if name != RESTART_EPOCH {
      var value := OrElse(ValueOf(kept, name), OrElse(ValueOf(options, name), ""));
      ValueOfExact(options, name, value);
      ValueOfExact(kept, name, value);
    }
  }

  /** One hot restart: the options stay valid, and mean the same but for the epoch. */
  lemma RestartKeepsContext(options: seq<Opt>, files: set<string>)
    requires Valid(options, files)
    ensures Valid(Restarted(options), files)
    ensures ContextOf(Restarted(options)) == ContextOf(options).(epoch := NextEpoch(ContextOf(options).epoch))
    ensures WithoutEpoch(Restarted(options)) == WithoutEpoch(options)
  {
    var next := NextEpoch(ContextOf(options).epoch);
    ValueAfterRestart(options, CONFIG_PATH);
    ValueAfterRestart(options, CONFIG_YAML);
    ValueAfterRestart(options, BASE_ID);
    ValueAfterRestart(options, RESTART_EPOCH);
    ParseFormat(next, TWO_TO_32);
    WithoutEpochKeeps(options);
    WithoutEpochUnique(options);
    WithoutEpochTwice(options);
    WithoutEpochConcat(WithoutEpoch(options), [EpochOption(next)]);
    hide Unique, ValueOf, WithoutEpoch, ParseUint;
    UniqueSnoc(WithoutEpoch(options), EpochOption(next));
    EpochNames();
    EpochIsValid(next);
  }

  lemma EpochNames()
    ensures RESTART_EPOCH != CONFIG_PATH && RESTART_EPOCH != CONFIG_YAML && RESTART_EPOCH != BASE_ID
  {
    assert RESTART_EPOCH[2] == 'r' && CONFIG_PATH[2] == CONFIG_YAML[2] == 'c' && BASE_ID[2] == 'b';
  }

  lemma EpochIsValid(epoch: nat)
    requires epoch < TWO_TO_32
    ensures ValidValue(EpochOption(epoch))
  {
    ParseFormat(epoch, TWO_TO_32);
  }

  /** Any number of hot restarts. */
  lemma {:induction false} ChainExact(options: seq<Opt>, files: set<string>, k: nat)
    requires Valid(options, files)
    ensures Valid(Chain(options, k), files)
    ensures WithoutEpoch(Chain(options, k)) == WithoutEpoch(options)
    ensures ContextOf(Chain(options, k)) == ContextOf(options).(epoch := (ContextOf(options).epoch + k) % TWO_TO_32)
    ensures k > 0 ==> Chain(options, k) == WithoutEpoch(options) + [EpochOption((ContextOf(options).epoch + k) % TWO_TO_32)]
  {
    hide Valid, ContextOf, WithoutEpoch, NextEpoch, EpochOption;
    if k > 0 {
      NextEpochAdds(ContextOf(options).epoch, k);
      ChainExact(options, files, k - 1);
      RestartKeepsContext(Chain(options, k - 1), files);
    } else {
      EpochBelow(options);
    }
  }

  lemma NextEpochAdds(epoch: nat, k: nat)
    requires k > 0
    ensures NextEpoch((epoch + (k - 1)) % TWO_TO_32) == (epoch + k) % TWO_TO_32
  {
  }

  lemma EpochBelow(options: seq<Opt>)
    ensures ContextOf(options).epoch < TWO_TO_32
  {
  }

  /** The command line of the k-th restart: that of the other options, then the epoch. */
  lemma ChainArgs(options: seq<Opt>, files: set<string>, k: nat)
    requires Valid(options, files) && k > 0
    ensures ToArgs(Chain(options, k))
         == ToArgs(WithoutEpoch(options)) + [RESTART_EPOCH, FormatUint((ContextOf(options).epoch + k) % TWO_TO_32)]
  {
    ChainExact(options, files, k);
    var o := EpochOption((ContextOf(options).epoch + k) % TWO_TO_32);
    ToArgsConcat(WithoutEpoch(options), [o]);
    assert [o][1..] == [];
  }

  lemma {:induction false} ToArgsConcat(a: seq<Opt>, b: seq<Opt>)
    ensures ToArgs(a + b) == ToArgs(a) + ToArgs(b)
  {
    if a == [] {
      assert a + b == b;
    } else {
      ToArgsConcat(a[1..], b);
      assert (a + b)[1..] == a[1..] + b && (a + b)[0] == a[0];
      Sequences.Assoc(Args(a[0]), ToArgs(a[1..]), ToArgs(b));
    }
  }

  // ------------------------------------------------------------------------- instances

  datatype Config = Config(
    options: seq<Opt>,
    name: string,
    binaryPath: string,
    workingDir: string,
    adminPort: nat,
    skipBaseIDClose: bool)

  /** Which files exist, and the admin port found for a config path and config YAML. */
  datatype Host = Host(files: set<string>, adminPorts: map<(string, string), nat>)

  datatype StartError = NoBinary | BadOptions(failure: Failure) | NoAdminPort | AlreadyRestarted

  predicate CanStart(cfg: Config, host: Host) {
    && cfg.binaryPath != ""
    && Valid(cfg.options, host.files)
    && (cfg.adminPort != 0 || (ContextOf(cfg.options).configPath, ContextOf(cfg.options).configYaml) in host.adminPorts)
  }

  /** The port given, or the one found in the bootstrap configuration. */
  function PortOf(cfg: Config, host: Host): nat
    requires CanStart(cfg, host)
  {
    if cfg.adminPort != 0 then cfg.adminPort
    else host.adminPorts[(ContextOf(cfg.options).configPath, ContextOf(cfg.options).configYaml)]
  }

  class Instance {
    const config: Config
    const args: seq<string>
    const adminPort: nat
    const baseID: nat
    const epoch: nat
    var started: bool
    var hotRestart: Option<Instance>

    constructor (config: Config, args: seq<string>, adminPort: nat, baseID: nat, epoch: nat)
      ensures this.config == config && this.args == args && this.adminPort == adminPort
      ensures this.baseID == baseID && this.epoch == epoch && !started && hotRestart == None
    {
      this.config, this.args, this.adminPort, this.baseID, this.epoch := config, args, adminPort, baseID, epoch;
      started, hotRestart := false, None;
    }

    /** What New makes of a configuration. */
    predicate Runs(cfg: Config, host: Host) {
      && config == Named(cfg)
      && args == ToArgs(cfg.options)
      && baseID == ContextOf(cfg.options).baseID && epoch == ContextOf(cfg.options).epoch
      && CanStart(cfg, host) && adminPort == PortOf(cfg, host)
    }

    /** Only the first call starts a process. */
    method Start() returns (launched: bool)
      modifies this`started
      ensures started && launched == !old(started)
    {
      launched := !started;
      started := true;
    }

    method NewInstanceForHotRestart(host: Host) returns (r: Result<Instance, StartError>)
      modifies this`hotRestart
      ensures old(hotRestart).Some? ==> r == Err(AlreadyRestarted) && hotRestart == old(hotRestart)
      ensures old(hotRestart).None? && !started ==> r == Ok(this) && hotRestart == None
      ensures old(hotRestart).None? && started ==>
                && (r.Ok? <==> CanStart(RestartConfig(), host))
                && hotRestart == (if r.Ok? then Some(r.value) else None)
                && (r.Ok? ==> fresh(r.value) && !r.value.started && r.value.hotRestart == None && r.value.Runs(RestartConfig(), host))
    {
      if hotRestart.Some? {
        return Err(AlreadyRestarted);
      }
      if !started {
        return Ok(this);
      }
      hide CanStart, WithoutEpoch, EpochOption, NextEpoch;
      var options := DropEpoch(config.options);
      options := options + [EpochOption(NextEpoch(epoch))];
      assert config.(options := options) == RestartConfig();
      r := New(config.(options := options), host);
      if r.Ok? {
        hotRestart := Some(r.value);
      }
    }

    function RestartConfig(): Config {
      config.(options := WithoutEpoch(config.options) + [EpochOption(NextEpoch(epoch))])
    }
  }

  method DropEpoch(all: seq<Opt>) returns (options: seq<Opt>)
    ensures options == WithoutEpoch(all)
  {
    options := [];
    assert all[0..] == all && all[|all|..] == [];
    for i := 0 to |all|
      invariant options + WithoutEpoch(all[i..]) == WithoutEpoch(all)
    {
      DropNext(options, all, i);
      if all[i].name != RESTART_EPOCH {
        options := options + [all[i]];
      }
    }
  }

  lemma DropNext(options: seq<Opt>, all: seq<Opt>, i: nat)
    requires i < |all|
    ensures var rest := WithoutEpoch(all[i + 1..]);
            options + WithoutEpoch(all[i..]) == if all[i].name == RESTART_EPOCH then options + rest else options + [all[i]] + rest
  {
    assert all[i..][0] == all[i] && all[i..][1..] == all[i + 1..];
    Sequences.Assoc(options, [all[i]], WithoutEpoch(all[i + 1..]));
  }

  method New(cfg: Config, host: Host) returns (r: Result<Instance, StartError>)
    ensures r.Ok? <==> CanStart(cfg, host)
    ensures r.Ok? ==> fresh(r.value) && r.value.Runs(cfg, host) && !r.value.started && r.value.hotRestart == None
  {
    var config := if cfg.name == "" then cfg.(name := "envoy") else cfg;
    if config.binaryPath == "" {
      return Err(NoBinary);
    }
    var validated := Validate(config.options, host.files);
    if validated.Err? {
      return Err(BadOptions(validated.error));
    }
    var ctx := validated.value;
    var adminPort := config.adminPort;
    if adminPort == 0 {
      if (ctx.configPath, ctx.configYaml) !in host.adminPorts {
        return Err(NoAdminPort);
      }
      adminPort := host.adminPorts[(ctx.configPath, ctx.configYaml)];
    }
    var args := PrintArgs(config.options);
    var i := new Instance(config, args, adminPort, ctx.baseID, ctx.epoch);
    return Ok(i);
  }

  /** Starting and hot restarting k times in a row never fails on a host that does not
      change, and gives the k-th element of the chain of options. */
  method HotRestarts(cfg: Config, host: Host, k: nat) returns (last: Instance)
    requires CanStart(cfg, host)
    ensures last.config.options == Chain(cfg.options, k) && last.args == ToArgs(Chain(cfg.options, k))
    ensures last.epoch == (ContextOf(cfg.options).epoch + k) % TWO_TO_32
    ensures last.baseID == ContextOf(cfg.options).baseID && last.adminPort == PortOf(cfg, host)
    ensures last.hotRestart == None
  {
    hide CanStart, ContextOf, IsRestart, Chain;
    last := First(cfg, host);
    for i := 0 to k
      invariant fresh(last) && IsRestart(cfg, host, last, i)
    {
      last := RestartOnce(cfg, host, last, i);
    }
    RestartMeans(cfg, host, last, k);
  }

  lemma NameDoesNotMatter(cfg: Config, host: Host)
    requires CanStart(cfg, host)
    ensures CanStart(Named(cfg), host) && PortOf(Named(cfg), host) == PortOf(cfg, host)
  {
  }

  method First(cfg: Config, host: Host) returns (instance: Instance)
    requires CanStart(cfg, host)
    ensures fresh(instance) && IsRestart(cfg, host, instance, 0)
  {
    NameDoesNotMatter(cfg, host);
    hide CanStart, ContextOf;
    var r := New(cfg, host);
    instance := r.value;
  }

  lemma RestartMeans(cfg: Config, host: Host, last: Instance, k: nat)
    requires CanStart(cfg, host) && IsRestart(cfg, host, last, k)
    ensures last.config.options == Chain(cfg.options, k) && last.args == ToArgs(Chain(cfg.options, k))
    ensures last.epoch == (ContextOf(cfg.options).epoch + k) % TWO_TO_32
    ensures last.baseID == ContextOf(cfg.options).baseID && last.adminPort == PortOf(cfg, host)
    ensures last.hotRestart == None
  {
    ChainExact(cfg.options, host.files, k);
    hide ContextOf, Chain, Valid;
  }

  /** A fresh instance that is the i-th of the chain. */
  predicate IsRestart(cfg: Config, host: Host, instance: Instance, i: nat)
    reads instance
  {
    && instance.hotRestart == None && !instance.started
    && instance.Runs(instance.config, host)
    && instance.config == Named(cfg).(options := Chain(cfg.options, i))
  }

  method RestartOnce(cfg: Config, host: Host, parent: Instance, i: nat) returns (child: Instance)
    requires CanStart(cfg, host) && IsRestart(cfg, host, parent, i)
    modifies parent
    ensures fresh(child) && IsRestart(cfg, host, child, i + 1)
  {
    ChainStep(cfg, host, i);
    hide CanStart, ContextOf, Chain, WithoutEpoch, NextEpoch, EpochOption;
    var _ := parent.Start();
    var r := parent.NewInstanceForHotRestart(host);
    child := r.value;
  }

  function Named(cfg: Config): Config {
    if cfg.name == "" then cfg.(name := "envoy") else cfg
  }

  lemma ChainStep(cfg: Config, host: Host, i: nat)
    requires CanStart(cfg, host)
    ensures CanStart(Named(cfg).(options := Chain(cfg.options, i + 1)), host)
    ensures Chain(cfg.options, i + 1)
         == WithoutEpoch(Chain(cfg.options, i)) + [EpochOption(NextEpoch(ContextOf(Chain(cfg.options, i)).epoch))]
  {
    ChainExact(cfg.options, host.files, i);
    ChainExact(cfg.options, host.files, i + 1);
  }
}
