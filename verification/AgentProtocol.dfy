/**
 The hot restart protocol of pkg/envoy/agent.go as a state machine.

 A step is what the source does without giving up its state mutex, or one
 communication on a channel.  Callers of Restart, the control loop Run, and one
 goroutine per launched epoch interleave in any order.  The theorems speak about
 every finite run.
 */
module AgentProtocol {
  import opened Wire

  /** Where the caller that holds restartMutex stands: the stages of waitUntilLive. */
  datatype Wait = AskActive | AskLive | Select | Done

  datatype Restarting<C> =
    | Free
    | Busy(epoch: int, config: C, previous: int, wait: Wait)

  /** Where the control loop stands.  While Aborting it holds the state mutex. */
  datatype Loop =
    | Selecting
    | Handling(epoch: int)
    | Draining
    | Aborting(todo: set<int>)
    | NoMoreActive
    | Terminated

  /** A goroutine of runWait: in proxy.Run, blocked on the status channel, or gone. */
  datatype Proc = Running | Exited | Reported

  /** A config is None when it is the nil interface.  Channels are counts of pending messages. */
  datatype State<C> = State(
    currentEpoch: int,
    currentConfig: Option<C>,
    active: set<int>,
    abortCh: map<int, nat>,
    restart: Restarting<Option<C>>,
    loop: Loop,
    procs: map<int, Proc>)

  function Init<C>(): State<C> {
    State(-1, None, {}, map[], Free, Selecting, map[])
  }

  datatype Action<C> =
    | Restart(config: Option<C>) // acquires restartMutex; registers unless the config is current
    | ProbeActive                // isActive(previous), under the state mutex
    | ProbeLive(live: bool)      // the answer of proxy.IsLive
    | Tick                       // the ticker's branch of the select
    | Timeout                    // the timer's branch of the select
    | Launch                     // starts the goroutine and releases restartMutex
    | TakeAbort(epoch: int)      // proxy.Run reads its abort channel
    | Exit(epoch: int)           // proxy.Run has returned, Cleanup is done
    | Receive(epoch: int)        // the loop takes a status from the unbuffered channel
    | Handle                     // the loop deletes the epoch and counts the others
    | Cancel                     // the loop takes the ctx.Done branch
    | StartAbort                 // draining is over; abortAll locks the state mutex
    | SendAbort(epoch: int)      // one send of abortAll, on a channel of capacity 1
    | FinishAbort                // abortAll unlocks; Run returns

  predicate MutexFree<C>(s: State<C>) {
    !s.loop.Aborting?
  }

  predicate Waiting<C>(s: State<C>, wait: Wait) {
    s.restart.Busy? && s.restart.wait == wait
  }

  predicate Enabled<C>(s: State<C>, a: Action<C>) {
    match a
    case Restart(_) => s.restart.Free? && MutexFree(s)
    case ProbeActive => Waiting(s, AskActive) && MutexFree(s)
    case ProbeLive(_) => Waiting(s, AskLive)
    case Tick => Waiting(s, Select)
    case Timeout => Waiting(s, Select)
    case Launch => Waiting(s, Done)
    case TakeAbort(e) => e in s.procs && s.procs[e] == Running && e in s.abortCh && s.abortCh[e] > 0
    case Exit(e) => e in s.procs && s.procs[e] == Running
    case Receive(e) => s.loop.Selecting? && e in s.procs && s.procs[e] == Exited
    case Handle => s.loop.Handling?
    case Cancel => s.loop.Selecting?
    case StartAbort => s.loop.Draining?
    case SendAbort(e) => s.loop.Aborting? && e in s.loop.todo && e in s.abortCh && s.abortCh[e] < 1
    case FinishAbort => s.loop == Aborting({})
  }

  function SetWait<C>(s: State<C>, wait: Wait): State<C>
    requires s.restart.Busy?
  {
    s.(restart := s.restart.(wait := wait))
  }

  function Next<C(==)>(s: State<C>, a: Action<C>): State<C>
    requires Enabled(s, a)
  {
    match a
    case Restart(config) =>
      if config == s.currentConfig then s
      else
        var epoch := s.currentEpoch + 1;
        s.(currentEpoch := epoch,
           currentConfig := config,
           active := s.active + {epoch},
           abortCh := s.abortCh[epoch := 0],
           restart := Busy(epoch, config, s.currentEpoch, if s.active != {} then AskActive else Done))
    case ProbeActive => SetWait(s, if s.restart.previous in s.active then AskLive else Done)
    case ProbeLive(live) => SetWait(s, if live then Done else Select)
    case Tick => SetWait(s, AskActive)
    case Timeout => SetWait(s, Done)
    case Launch => s.(restart := Free, procs := s.procs[s.restart.epoch := Running])
    case TakeAbort(e) => s.(abortCh := s.abortCh[e := s.abortCh[e] - 1])
    case Exit(e) => s.(procs := s.procs[e := Exited])
    case Receive(e) => s.(loop := Handling(e), procs := s.procs[e := Reported])
    case Handle =>
      var active := s.active - {s.loop.epoch};
      s.(active := active, loop := if active == {} then NoMoreActive else Selecting)
    case Cancel => s.(loop := Draining)
    case StartAbort => s.(loop := Aborting(s.active))
    case SendAbort(e) => s.(abortCh := s.abortCh[e := s.abortCh[e] + 1], loop := Aborting(s.loop.todo - {e}))
    case FinishAbort => s.(loop := Terminated)
  }

  // -------------------------------------------------------------------------- runs

  type Run<C> = seq<Action<C>>

  function Last<T>(s: seq<T>): T
    requires s != []
  {
    s[|s| - 1]
  }

  function Front<T>(s: seq<T>): seq<T>
    requires s != []
  {
    s[..|s| - 1]
  }

  predicate Legal<C(==)>(run: Run<C>) {
    run == [] || (Legal(Front(run)) && Enabled(After(Front(run)), Last(run)))
  }

  /** The state a run ends in; an illegal run stops at its first impossible step. */
  function After<C(==)>(run: Run<C>): State<C> {
    if run == [] then Init()
    else
      var s := After(Front(run));
      if Enabled(s, Last(run)) then Next(s, Last(run)) else s
  }

  /** Arguments of Restart, in the order in which restartMutex was acquired. */
  function Requests<C>(run: Run<C>): seq<Option<C>> {
    if run == [] then []
    else Requests(Front(run)) + (if Last(run).Restart? then [Last(run).config] else [])
  }

  /** The simple specification: requests that differ from the one before (nil at first). */
  function Changes<C(==)>(requests: seq<Option<C>>): seq<Option<C>> {
    if requests == [] then []
    else
      var previous := if |requests| == 1 then None else requests[|requests| - 2];
      Changes(Front(requests)) + (if Last(requests) == previous then [] else [Last(requests)])
  }

  /** What the Launch steps of a run handed to proxy.Run. */
  function Launched<C(==)>(run: Run<C>): seq<(int, Option<C>)> {
    if run == [] then []
    else
      var s := After(Front(run));
      Launched(Front(run)) + (if Last(run).Launch? && s.restart.Busy? then [(s.restart.epoch, s.restart.config)] else [])
  }

  /** How often epoch e was sent the abort message. */
  function AbortsSent<C(==)>(run: Run<C>, e: int): nat {
    if run == [] then 0
    else AbortsSent(Front(run), e) + (if Last(run) == SendAbort(e) then 1 else 0)
  }

  /** Epochs 0, 1, ..., n - 1. */
  function Epochs(n: int): (es: set<int>)
    ensures forall e :: e in es <==> 0 <= e < n
    decreases if n < 0 then 0 else n
  {
    if n <= 0 then {} else Epochs(n - 1) + {n - 1}
  }

  /** Epochs whose exit the loop has received and dealt with. */
  function Handled<C>(s: State<C>): set<int> {
    set e | e in s.procs && s.procs[e] == Reported && s.loop != Handling(e)
  }

  // ------------------------------------------------------- which epochs are active

  ghost predicate EpochInv<C>(s: State<C>) {
    && s.currentEpoch >= -1
    && s.procs.Keys == Epochs(if s.restart.Busy? then s.currentEpoch else s.currentEpoch + 1)
    && (s.restart.Busy? ==> s.restart.epoch == s.currentEpoch >= 0 && s.restart.previous == s.currentEpoch - 1)
    && s.abortCh.Keys == Epochs(s.currentEpoch + 1)
    && s.active == Epochs(s.currentEpoch + 1) - Handled(s)
    && (s.loop.Handling? ==> s.loop.epoch in s.procs && s.procs[s.loop.epoch] == Reported)
    && (s.loop.Aborting? ==> s.loop.todo <= s.active)
  }

  lemma EpochInvStep<C>(s: State<C>, a: Action<C>)
    requires EpochInv(s) && Enabled(s, a)
    ensures EpochInv(Next(s, a))
  {
    match a {
      case Restart(_) => EpochInvRestart(s, a);
      case Launch => EpochInvLaunch(s);
      case Receive(_) => EpochInvLoop(s, a);
      case Handle => EpochInvLoop(s, a);
      case _ => EpochInvOther(s, a);
    }
    hide *;
  }

  lemma EpochInvOther<C>(s: State<C>, a: Action<C>)
    requires EpochInv(s) && Enabled(s, a) && !a.Restart? && !a.Launch? && !a.Receive? && !a.Handle?
    ensures EpochInv(Next(s, a))
  {
    hide Epochs;
    assert Handled(Next(s, a)) == Handled(s);
  }

  lemma EpochInvLaunch<C>(s: State<C>)
    requires EpochInv(s) && Enabled(s, Launch)
    ensures EpochInv(Next(s, Launch))
  {
    var t := Next(s, Launch);
    assert Handled(t) == Handled(s);
    assert Epochs(s.currentEpoch + 1) == Epochs(s.currentEpoch) + {s.currentEpoch};
    assert t.procs.Keys == s.procs.Keys + {s.currentEpoch};
  }

  lemma EpochInvRestart<C>(s: State<C>, a: Action<C>)
    requires EpochInv(s) && Enabled(s, a) && a.Restart?
    ensures EpochInv(Next(s, a))
  {
    var t := Next(s, a);
    assert Handled(t) == Handled(s);
    assert Epochs(s.currentEpoch + 2) == Epochs(s.currentEpoch + 1) + {s.currentEpoch + 1};
    hide Epochs;
    if a.config != s.currentConfig {
      assert t.abortCh.Keys == s.abortCh.Keys + {t.currentEpoch};
    }
  }

  lemma EpochInvLoop<C>(s: State<C>, a: Action<C>)
    requires EpochInv(s) && Enabled(s, a) && (a.Receive? || a.Handle?)
    ensures EpochInv(Next(s, a))
  {
    var t := Next(s, a);
    if a.Receive? {
      assert t.procs.Keys == s.procs.Keys;
      assert Handled(t) == Handled(s);
    } else {
      assert Handled(t) == Handled(s) + {s.loop.epoch};
    }
  }

  lemma {:induction false} EpochInvHolds<C>(run: Run<C>)
    requires Legal(run)
    ensures EpochInv(After(run))
  {
    if run != [] {
      EpochInvHolds(Front(run));
      EpochInvStep(After(Front(run)), Last(run));
    }
  }

  /** In every reachable state the keys of activeEpochs are exactly the registered epochs
      whose exit status has not been received and dealt with. */
  lemma ActiveEpochsExact<C>(run: Run<C>)
    requires Legal(run)
    ensures var s := After(run);
            s.active == Epochs(s.currentEpoch + 1) - Handled(s)
  {
    hide After, Legal, Epochs, Handled;
    EpochInvHolds(run);
  }

  /** The loop leaves through "no more active epochs" exactly when every epoch ever
      registered has exited and been received, launched ones and waiting ones alike. */
  lemma NoMoreActiveExact<C>(run: Run<C>)
    requires Legal(run) && run != [] && Last(run).Handle?
    ensures var s := After(run);
            && (s.loop == NoMoreActive <==> Handled(s) == Epochs(s.currentEpoch + 1))
            && (s.loop == NoMoreActive <==> s.restart.Free? && forall e :: e in s.procs ==> s.procs[e] == Reported)
  {
    hide After, Legal;
    EpochInvHolds(run);
    HandleStep(run);
    AllHandled(After(run));
  }

  lemma AllHandled<C>(s: State<C>)
    requires EpochInv(s) && !s.loop.Handling?
    ensures s.active == {} <==> Handled(s) == Epochs(s.currentEpoch + 1)
    ensures s.active == {} <==> s.restart.Free? && forall e :: e in s.procs ==> s.procs[e] == Reported
  {
    assert Handled(s) <= s.procs.Keys <= Epochs(s.currentEpoch + 1);
    if s.restart.Busy? {
      assert s.currentEpoch in s.active;
    }
    if s.active == {} {
      forall e | e in s.procs
        ensures s.procs[e] == Reported
      {
        assert e in Epochs(s.currentEpoch + 1) && e !in s.active;
      }
    }
  }

  lemma HandleStep<C>(run: Run<C>)
    requires Legal(run) && run != [] && Last(run).Handle?
    ensures var s := After(run);
            !s.loop.Handling? && (s.loop == NoMoreActive <==> s.active == {})
  {
  }

  /** A new epoch is above every active one. */
  lemma NewEpochIsAboveActive<C>(run: Run<C>, config: Option<C>)
    requires Legal(run + [Restart(config)])
    ensures var s, t := After(run), After(run + [Restart(config)]);
            && (t.currentEpoch == s.currentEpoch <==> config == s.currentConfig)
            && (config != s.currentConfig ==>
                  && t.currentEpoch == s.currentEpoch + 1
                  && t.currentEpoch in t.active
                  && forall e :: e in s.active ==> e < t.currentEpoch)
  {
    hide After, Legal;
    LegalAppend(run, Restart(config));
    EpochInvHolds(run);
  }

  /** At its registration it is exactly one above the highest key of activeEpochs if and
      only if the latest epoch is still a key. */
  lemma NewEpochIsNextIff<C>(run: Run<C>, highest: int)
    requires Legal(run)
    requires highest in After(run).active && forall e :: e in After(run).active ==> e <= highest
    ensures After(run).currentEpoch + 1 == highest + 1 <==> After(run).currentEpoch in After(run).active
  {
    EpochInvHolds(run);
  }

  /** A run at whose end epochs 0 and 1 are running. */
  lemma TwoRunning() returns (run: Run<int>)
    ensures Legal(run)
    ensures After(run) == State(1, Some(2), {0, 1}, map[0 := 0, 1 := 0], Free, Selecting, map[0 := Running, 1 := Running])
  {
    hide After, Legal;
    LegalEmpty<int>();
    run := Extend([], Restart(Some(1)));
    run := Extend(run, Launch);
    run := Extend(run, Restart(Some(2)));
    run := Extend(run, ProbeActive);
    run := Extend(run, ProbeLive(true));
    run := Extend(run, Launch);
  }

  /** A run in which epoch 1 exits before epoch 0: epoch 2 is then two above the only active one. */
  lemma NewEpochCanSkip() returns (run: Run<int>)
    ensures Legal(run) && After(run).active == {0}
    ensures Legal(run + [Restart(Some(3))])
    ensures After(run + [Restart(Some(3))]).currentEpoch == 2
  {
    hide After, Legal;
    run := TwoRunning();
    run := Extend(run, Exit(1));
    run := Extend(run, Receive(1));
    run := Extend(run, Handle);
    var r := Extend(run, Restart(Some(3)));
  }

  /** What the header demands: the epoch of a process that is launched is exactly one above
      the highest epoch of the processes running then.  It holds if and only if the process
      of the epoch before it is running at the launch. */
  lemma LaunchIsNextIff<C>(run: Run<C>, highest: int)
    requires Legal(run + [Launch])
    requires var procs := After(run).procs;
             && highest in procs && procs[highest] == Running
             && forall e :: e in procs && procs[e] == Running ==> e <= highest
    ensures var s := After(run);
            && s.restart.Busy?
            && (s.restart.epoch == highest + 1
                <==> s.restart.epoch - 1 in s.procs && s.procs[s.restart.epoch - 1] == Running)
  {
    hide After, Legal;
    LegalAppend(run, Launch);
    EpochInvHolds(run);
  }

  /** A run in which epoch 1 is active when epoch 2 is registered, but exits during the wait:
      epoch 2 is launched two above the only process that is running. */
  lemma LaunchCanSkip() returns (registered: Run<int>, launching: Run<int>)
    ensures Legal(registered) && After(registered).currentEpoch == 2 && 1 in After(registered).active
    ensures registered <= launching && Legal(launching + [Launch])
    ensures After(launching).restart.Busy? && After(launching).restart.epoch == 2
    ensures After(launching).procs == map[0 := Running, 1 := Reported]
  {
    hide After, Legal;
    registered := TwoRunning();
    registered := Extend(registered, Restart(Some(3)));
    launching := Extend(registered, Exit(1));
    launching := Extend(launching, Receive(1));
    launching := Extend(launching, Handle);
    launching := Extend(launching, ProbeActive);
    var r := Extend(launching, Launch);
  }

  lemma LegalEmpty<C>()
    ensures Legal<C>([]) && After<C>([]) == Init()
  {
  }

  lemma Extend<C>(run: Run<C>, a: Action<C>) returns (longer: Run<C>)
    requires Legal(run) && Enabled(After(run), a)
    ensures longer == run + [a]
    ensures Legal(longer) && After(longer) == Next(After(run), a)
  {
    longer := run + [a];
    LegalAppend(run, a);
  }

  lemma LegalAppend<C>(run: Run<C>, a: Action<C>)
    ensures Front(run + [a]) == run && Last(run + [a]) == a
    ensures Legal(run + [a]) <==> Legal(run) && Enabled(After(run), a)
    ensures Enabled(After(run), a) ==> After(run + [a]) == Next(After(run), a)
  {
    assert Front(run + [a]) == run;
  }

  // ----------------------------------------------- refinement of the request sequence

  ghost predicate HistoryInv<C>(run: Run<C>) {
    var s, changes, launched := After(run), Changes(Requests(run)), Launched(run);
    && EpochInv(s)
    && |changes| == s.currentEpoch + 1
    && s.currentConfig == (if Requests(run) == [] then None else Last(Requests(run)))
    && (changes != [] ==> Last(changes) == s.currentConfig)
    && (s.restart.Busy? ==> s.restart.config == s.currentConfig)
    && |launched| == (if s.restart.Busy? then s.currentEpoch else s.currentEpoch + 1)
    && forall e :: 0 <= e < |launched| ==> launched[e] == (e, changes[e])
  }

  lemma EpochFacts<C>(s: State<C>)
    requires EpochInv(s)
    ensures s.currentEpoch >= -1
    ensures s.restart.Busy? ==> s.restart.epoch == s.currentEpoch >= 0
    ensures s.currentEpoch + 1 !in s.abortCh
    ensures forall e :: e in s.active ==> e in s.abortCh
    ensures s.loop.Aborting? ==> s.loop.todo <= s.active
  {
  }

  lemma HistoryInvRestart<C>(run: Run<C>)
    requires run != [] && Legal(run) && HistoryInv(Front(run)) && Last(run).Restart?
    ensures HistoryInv(run)
  {
    hide EpochInv, Legal, After, Changes, Launched, Requests;
    var s, config := After(Front(run)), Last(run).config;
    LegalLast(run);
    HistoryAppend(run);
    EpochInvStep(s, Last(run));
    EpochFacts(s);
    ChangesAppend(Requests(Front(run)), config);
    RestartNext(s, config);
    hide Next, Enabled;
  }

  lemma HistoryAppend<C>(run: Run<C>)
    requires run != [] && Last(run).Restart?
    ensures Requests(run) == Requests(Front(run)) + [Last(run).config]
    ensures Launched(run) == Launched(Front(run))
  {
  }

  lemma RestartNext<C>(s: State<C>, config: Option<C>)
    requires Enabled(s, Restart(config))
    ensures var t := Next(s, Restart(config));
            && t.currentConfig == config
            && t.currentEpoch == s.currentEpoch + (if config == s.currentConfig then 0 else 1)
            && s.restart.Free?
            && (t.restart.Busy? <==> config != s.currentConfig)
            && (t.restart.Busy? ==> t.restart.config == config)
  {
  }

  lemma ChangesAppend<C>(requests: seq<Option<C>>, config: Option<C>)
    ensures Changes(requests + [config])
         == Changes(requests) + if config == (if requests == [] then None else Last(requests)) then [] else [config]
  {
    assert Front(requests + [config]) == requests;
  }

  lemma HistoryInvOther<C>(run: Run<C>)
    requires run != [] && Legal(run) && HistoryInv(Front(run)) && !Last(run).Restart?
    ensures HistoryInv(run)
  {
    hide EpochInv, Changes, Legal, After, Requests, Launched;
    LegalLast(run);
    OtherAppend(run);
    EpochInvStep(After(Front(run)), Last(run));
    EpochFacts(After(Front(run)));
    OtherNext(After(Front(run)), Last(run));
    hide Next, Enabled;
  }

  lemma OtherAppend<C>(run: Run<C>)
    requires run != [] && Legal(run) && !Last(run).Restart?
    ensures Requests(run) == Requests(Front(run))
    ensures var s := After(Front(run));
            Launched(run) == if Last(run).Launch? && s.restart.Busy?
                             then Launched(Front(run)) + [(s.restart.epoch, s.restart.config)]
                             else Launched(Front(run))
  {
    hide Legal, After;
  }

  lemma OtherNext<C>(s: State<C>, a: Action<C>)
    requires Enabled(s, a) && !a.Restart?
    ensures var t := Next(s, a);
            && t.currentEpoch == s.currentEpoch && t.currentConfig == s.currentConfig
            && (a.Launch? ==> s.restart.Busy? && t.restart.Free?)
            && (!a.Launch? ==> (t.restart.Busy? <==> s.restart.Busy?)
                               && (t.restart.Busy? ==> t.restart.config == s.restart.config))
  {
  }

  lemma {:induction false} HistoryInvHolds<C>(run: Run<C>)
    requires Legal(run)
    ensures HistoryInv(run)
  {
    if run != [] {
      HistoryInvHolds(Front(run));
      if Last(run).Restart? {
        HistoryInvRestart(run);
      } else {
        HistoryInvOther(run);
      }
    }
  }

  /** The agent refines its simple specification: epochs 0, 1, 2, ... are given to the
      requests that change the config; they are launched once each, in order, with that
      config, and at most one registered epoch is not launched yet. */
  lemma AgentRefinesChanges<C>(run: Run<C>)
    requires Legal(run)
    ensures var changes, launched := Changes(Requests(run)), Launched(run);
            && After(run).currentEpoch + 1 == |changes|
            && |launched| <= |changes| <= |launched| + 1
            && (forall e :: 0 <= e < |launched| ==> launched[e] == (e, changes[e]))
            && (|launched| < |changes| <==> After(run).restart.Busy?)
  {
    HistoryInvHolds(run);
  }

  // -------------------------------------------------------- waiting before a launch

  /** The step that registered the epoch now waiting, as an index into the run. */
  function LastRegistration<C(==)>(run: Run<C>): int {
    if run == [] then -1
    else if Last(run).Restart? && After(run) != After(Front(run)) then |run| - 1
    else LastRegistration(Front(run))
  }

  /** The three events that end the wait for epoch `previous`. */
  predicate EndsWait<C>(s: State<C>, a: Action<C>, previous: int) {
    || (a.ProbeActive? && previous !in s.active)
    || a == ProbeLive(true)
    || a.Timeout?
  }

  ghost predicate WaitEnded<C>(run: Run<C>, from: int, previous: int) {
    exists k :: from < k < |run| && 0 <= k && EndsWait(After(run[..k]), run[k], previous)
  }

  /** While a caller is in Restart: what was active when it registered, and why it may go on. */
  ghost predicate WaitInv<C>(run: Run<C>) {
    var s, i := After(run), LastRegistration(run);
    s.restart.Busy? ==>
      && 0 <= i < |run| && run[i].Restart?
      && run[i].config == s.restart.config
      && After(run[..i]).currentEpoch == s.restart.previous
      && (s.restart.wait == Done && After(run[..i]).active != {} ==> WaitEnded(run, i, s.restart.previous))
  }

  lemma WaitEndedGrows<C>(run: Run<C>, from: int, previous: int)
    requires run != [] && WaitEnded(Front(run), from, previous)
    ensures WaitEnded(run, from, previous)
  {
    var k :| from < k < |Front(run)| && 0 <= k && EndsWait(After(Front(run)[..k]), Front(run)[k], previous);
    assert Front(run)[..k] == run[..k];
    assert EndsWait(After(run[..k]), run[k], previous);
  }

  /** What one step can do to a caller in Restart. */
  lemma WaitNext<C>(s: State<C>, a: Action<C>)
    requires Enabled(s, a)
    ensures var t := Next(s, a);
            t.restart.Busy? ==>
              if s.restart.Free? then
                && a.Restart? && t != s
                && t.restart.config == a.config && t.restart.previous == s.currentEpoch
                && (t.restart.wait == Done ==> s.active == {})
              else
                && !a.Restart?
                && t.restart == s.restart.(wait := t.restart.wait)
                && (t.restart.wait == Done ==> s.restart.wait == Done || EndsWait(s, a, s.restart.previous))
  {
  }

  lemma WaitInvStep<C>(run: Run<C>)
    requires run != [] && Legal(run) && WaitInv(Front(run))
    ensures WaitInv(run)
  {
    hide After, Legal, Enabled, Next, EndsWait;
    LegalLast(run);
    var front, a, s := Front(run), Last(run), After(Front(run));
    WaitNext(s, a);
    assert run[..|run| - 1] == front;
    if After(run).restart.Busy? && s.restart.Busy? {
      var i := LastRegistration(front);
      assert front[..i] == run[..i];
      if After(run).restart.wait == Done && After(run[..i]).active != {} {
        if s.restart.wait == Done {
          WaitEndedGrows(run, i, s.restart.previous);
        } else {
          assert EndsWait(After(run[..|run| - 1]), run[|run| - 1], s.restart.previous);
        }
      }
    }
  }

  lemma {:induction false} WaitInvHolds<C>(run: Run<C>)
    requires Legal(run)
    ensures WaitInv(run)
  {
    if run != [] {
      WaitInvHolds(Front(run));
      WaitInvStep(run);
    }
  }

  /** If epochs were active when an epoch was registered, its launch comes only after a
      step at which the previous epoch was seen inactive, or the proxy was live, or the
      20 seconds were over. */
  lemma LaunchWaits<C>(run: Run<C>)
    requires Legal(run + [Launch])
    ensures var i, s := LastRegistration(run), After(run);
            && 0 <= i < |run| && run[i] == Restart(s.restart.config)
            && After(run[..i]).currentEpoch + 1 == s.restart.epoch
            && (After(run[..i]).active != {} ==> WaitEnded(run, i, s.restart.epoch - 1))
  {
    hide After, Legal, LastRegistration, WaitEnded;
    LegalAppend(run, Launch);
    WaitInvHolds(run);
    EpochInvHolds(run);
  }

  // ------------------------------------------------------------------- abort channels

  ghost predicate AbortInv<C>(run: Run<C>) {
    var s := After(run);
    && (forall e :: AbortsSent(run, e) <= 1)
    && (forall e :: e in s.abortCh ==> s.abortCh[e] <= AbortsSent(run, e))
    && (s.loop.Selecting? || s.loop.Handling? || s.loop.Draining? || s.loop.NoMoreActive? ==>
          forall e :: AbortsSent(run, e) == 0)
    && (s.loop.Aborting? ==> forall e :: e in s.loop.todo ==> AbortsSent(run, e) == 0)
    && (forall e :: AbortsSent(run, e) > 0 ==> e in s.abortCh)
  }

  lemma AbortInvSend<C>(run: Run<C>)
    requires run != [] && Legal(run) && AbortInv(Front(run)) && Last(run).SendAbort?
    ensures AbortInv(run)
  {
    hide Legal, Requests, Launched;
    var s, e := After(Front(run)), Last(run).epoch;
    LegalLast(run);
    assert After(run) == Next(s, Last(run));
    forall d
      ensures AbortsSent(run, d) == AbortsSent(Front(run), d) + if d == e then 1 else 0
    {
    }
  }

  /** Any other step sends nothing, empties channels at most, and starts aborting only from Draining. */
  lemma AbortNext<C>(s: State<C>, a: Action<C>)
    requires EpochInv(s) && Enabled(s, a) && !a.SendAbort?
    ensures var t := Next(s, a);
            && s.abortCh.Keys <= t.abortCh.Keys
            && (forall e :: e in t.abortCh ==> t.abortCh[e] <= if e in s.abortCh then s.abortCh[e] else 0)
            && (t.loop.Selecting? || t.loop.Handling? || t.loop.Draining? || t.loop.NoMoreActive? ==>
                  s.loop.Selecting? || s.loop.Handling? || s.loop.Draining? || s.loop.NoMoreActive?)
            && (t.loop.Aborting? ==> t.loop == s.loop || s.loop.Draining?)
  {
    EpochFacts(s);
    hide EpochInv;
  }

  lemma AbortInvOther<C>(run: Run<C>)
    requires run != [] && Legal(run) && EpochInv(After(Front(run))) && AbortInv(Front(run)) && !Last(run).SendAbort?
    ensures AbortInv(run)
  {
    LegalLast(run);
    AbortNext(After(Front(run)), Last(run));
    assert forall e :: AbortsSent(run, e) == AbortsSent(Front(run), e);
    hide Legal, After, Next, Enabled, EpochInv, AbortsSent;
  }

  lemma LegalLast<C>(run: Run<C>)
    requires run != [] && Legal(run)
    ensures Legal(Front(run)) && Enabled(After(Front(run)), Last(run))
    ensures After(run) == Next(After(Front(run)), Last(run))
  {
  }

  lemma {:induction false} AbortInvHolds<C>(run: Run<C>)
    requires Legal(run)
    ensures AbortInv(run)
  {
    if run != [] {
      AbortInvHolds(Front(run));
      EpochInvHolds(Front(run));
      if Last(run).SendAbort? {
        AbortInvSend(run);
      } else {
        AbortInvOther(run);
      }
    }
  }

  /** Over a whole run each abort channel receives at most one message and so never
      holds more than its capacity; abortAll, which keeps the state mutex, can always
      make its next send or finish. */
  lemma AbortAllNeverBlocks<C>(run: Run<C>)
    requires Legal(run)
    ensures forall e :: AbortsSent(run, e) <= 1
    ensures forall e :: e in After(run).abortCh ==> After(run).abortCh[e] <= 1
    ensures var s := After(run);
            s.loop.Aborting? ==>
              if s.loop.todo == {} then Legal(run + [FinishAbort])
              else forall e :: e in s.loop.todo ==> Legal(run + [SendAbort(e)])
  {
    hide After, Legal;
    AbortInvHolds(run);
    EpochInvHolds(run);
    var s := After(run);
    if s.loop.Aborting? {
      LegalAppend(run, FinishAbort);
      forall e | e in s.loop.todo
        ensures Legal(run + [SendAbort(e)])
      {
        LegalAppend(run, SendAbort(e));
        assert e in s.active && e in s.abortCh;
      }
    }
  }
}
