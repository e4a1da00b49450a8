/**
 The agent of pkg/envoy/agent.go as an object, with the control structure of the source:
 Restart with its waiting loop, and the control loop Run with its select and abortAll.
 What other goroutines do between the steps of these methods is a script of protocol
 steps, of which those that are impossible at their moment are passed over.  The methods
 are proved to perform legal runs of AgentProtocol, whatever the script says.
 */
module Agent {
  import opened Wire
  import opened AgentProtocol

  /** The two goroutines modelled here: the caller inside Restart, and the control loop. */
  datatype Goroutine = Caller | Control

  predicate By<C>(g: Goroutine, a: Action<C>) {
    match g
    case Caller => a.Restart? || a.ProbeActive? || a.ProbeLive? || a.Tick? || a.Timeout? || a.Launch?
    case Control => a.Receive? || a.Handle? || a.Cancel? || a.StartAbort? || a.SendAbort? || a.FinishAbort?
  }

  /** What happens before the caller's next step, and what that step is told: whether the
      proxy is live, and whether the timer's branch of the select is taken. */
  datatype CallerTurn<C> = CallerTurn(others: seq<Action<C>>, live: bool, timedOut: bool)

  datatype Choice = FromStatus(epoch: int) | FromContext

  /** What happens before the loop's next select, the branch it takes, and what happens
      before each of the steps inside that branch. */
  datatype LoopTurn<C> = LoopTurn(others: seq<Action<C>>, choice: Choice, meanwhile: seq<seq<Action<C>>>)

  /** Run is still selecting, or has returned through one of its two branches. */
  datatype Outcome = StillRunning | AllExited | AbortedAll

  /** The state after those of the actions that are possible at their moment and not steps
      of the goroutine `mine`. */
  function Interfered<C(==)>(s: State<C>, mine: Goroutine, actions: seq<Action<C>>): State<C> {
    if actions == [] then s
    else
      var t := Interfered(s, mine, Front(actions));
      if Enabled(t, Last(actions)) && !By(mine, Last(actions)) then Next(t, Last(actions)) else t
  }

  lemma NothingInterfered<C>(s: State<C>, mine: Goroutine)
    ensures Interfered(s, mine, []) == s
  {
  }

  lemma InterferedStep<C>(s: State<C>, mine: Goroutine, actions: seq<Action<C>>, i: nat)
    requires i < |actions|
    ensures var t := Interfered(s, mine, actions[..i]);
            Interfered(s, mine, actions[..i + 1])
            == if Enabled(t, actions[i]) && !By(mine, actions[i]) then Next(t, actions[i]) else t
  {
    assert Front(actions[..i + 1]) == actions[..i];
  }

  // ------------------------------------------------------------------ what the script tells

  function Max(a: nat, b: nat): nat {
    if a < b then b else a
  }

  ghost predicate KeepsMutex<C>(actions: seq<Action<C>>) {
    forall a <- actions :: !a.StartAbort? && !a.FinishAbort?
  }

  /** From turn `calm` on, abortAll neither takes the state mutex nor gives it back. */
  ghost predicate Calm<C>(script: seq<CallerTurn<C>>, calm: nat) {
    forall k :: calm <= k < |script| ==> KeepsMutex(script[k].others)
  }

  lemma CalmTurn<C>(script: seq<CallerTurn<C>>, calm: nat, k: nat)
    requires Calm(script, calm) && calm <= k < |script|
    ensures KeepsMutex(script[k].others)
  {
  }

  /** A round of the wait takes three turns: the select, the state mutex, the question to
      the proxy.  With a select at turn `select`, no turn in from..end in which the proxy
      was asked found it live, and no turn of a select found the time over. */
  ghost predicate Unheeded<C>(script: seq<CallerTurn<C>>, from: nat, end: nat, select: nat) {
    forall k :: from <= k < end && k < |script| ==>
                  && ((select - k) % 3 == 1 ==> !script[k].live)
                  && ((select - k) % 3 == 0 ==> !script[k].timedOut)
  }

  lemma NoRound<C>(script: seq<CallerTurn<C>>, from: nat, end: nat, select: nat)
    requires end <= from
    ensures Unheeded(script, from, end, select)
  {
  }

  lemma FirstRound<C>(script: seq<CallerTurn<C>>, from: nat, end: nat, select: nat)
    requires end <= |script| && end <= select <= from + 2
    requires 0 < end == select ==> !script[end - 1].live
    ensures Unheeded(script, from, end, select)
  {
  }

  lemma NextRound<C>(script: seq<CallerTurn<C>>, from: nat, n: nat, end: nat, select: nat)
    requires from <= n < end <= |script| && end <= select == n + 3
    requires Unheeded(script, from, n, n) && !script[n].timedOut
    requires end == select ==> !script[end - 1].live
    ensures Unheeded(script, from, end, select)
  {
    forall k | from <= k < end
      ensures (select - k) % 3 == 1 ==> !script[k].live
      ensures (select - k) % 3 == 0 ==> !script[k].timedOut
    {
      assert (select - k) % 3 == (n - k) % 3;
      if n < k {
        assert k == n + 1 || k == n + 2;
      }
    }
  }

  /** One round of the wait, entered at turn n. */
  lemma OneRound<C>(script: seq<CallerTurn<C>>, from: nat, calm: nat, n: nat, end: nat, select: nat)
    requires n < end <= |script| && end <= select && n + 3 <= select <= Max(n + 1, calm) + 2
    requires if n < from then from == calm else calm <= from && Unheeded(script, from, n, n)
    requires !script[n].timedOut && (end == select ==> !script[end - 1].live)
    ensures Unheeded(script, from, end, select) && (from <= n ==> select == n + 3)
  {
    hide Unheeded;
    if n < from {
      FirstRound(script, from, end, select);
    } else {
      NextRound(script, from, n, end, select);
    }
  }

  lemma UnheededLater<C>(script: seq<CallerTurn<C>>, from: nat, later: nat, end: nat, select: nat)
    requires Unheeded(script, from, end, select) && from <= later
    ensures Unheeded(script, later, end, select)
  {
  }

  /** A Restart that gets the mutex in turn 0 asks the proxy in turns 2, 5, 8, ... and
      selects in turns 3, 6, 9, ... */
  lemma UnheededFromStart<C>(script: seq<CallerTurn<C>>, select: nat)
    requires Unheeded(script, 1, |script|, select) && select % 3 == 0
    ensures forall k :: 1 <= k < |script| && k % 3 == 2 ==> !script[k].live
    ensures forall k :: 1 <= k < |script| && k % 3 == 0 ==> !script[k].timedOut
  {
    forall k | 1 <= k < |script|
      ensures k % 3 == 2 ==> !script[k].live
      ensures k % 3 == 0 ==> !script[k].timedOut
    {
      assert (select - k) % 3 == (3 - k % 3) % 3;
    }
  }

  /** The step that ends the wait, in a turn that says so. */
  predicate EndsAsTold<C>(a: Action<C>, turn: CallerTurn<C>) {
    match a
    case ProbeActive => true // possible as the last step of a wait only for an inactive epoch
    case ProbeLive(live) => live && turn.live
    case Timeout => turn.timedOut
    case _ => false
  }

  predicate HasExited<C>(s: State<C>, e: int) {
    e in s.procs && s.procs[e] == Exited
  }

  /** After turn k has taken its branch, epoch e does not exit in the turns before `end`. */
  ghost predicate NoExitAfter<C>(script: seq<LoopTurn<C>>, k: nat, end: nat, e: int) {
    && (forall j :: k < j < end && j < |script| ==> Exit(e) !in script[j].others)
    && (forall j, m :: k <= j < end && j < |script| && 0 <= m < |script[j].meanwhile| ==> Exit(e) !in script[j].meanwhile[m])
  }

  lemma NoExitLonger<C>(script: seq<LoopTurn<C>>, k: nat, end: nat, e: int)
    requires NoExitAfter(script, k, end + 1, e) && k <= end < |script|
    ensures NoExitAfter(script, k, end, e)
    ensures k < end ==> Exit(e) !in script[end].others
    ensures script[end].meanwhile != [] ==> Exit(e) !in script[end].meanwhile[0]
  {
  }

  /** A step of another goroutine leaves a goroutine where it stands. */
  lemma OthersKeep<C>(s: State<C>, a: Action<C>)
    requires Enabled(s, a)
    ensures var t := Next(s, a);
            && (!By(Caller, a) ==> t.restart == s.restart && t.currentEpoch == s.currentEpoch && t.currentConfig == s.currentConfig)
            && (!By(Control, a) ==> t.loop == s.loop)
            && (!By(Control, a) && s.loop.Aborting? ==> t.active == s.active)
            && (!By(Caller, a) ==> t.active <= s.active)
            && (!a.StartAbort? && !a.FinishAbort? ==> MutexFree(t) == MutexFree(s))
            && (forall e :: a != Exit(e) && HasExited(t, e) ==> HasExited(s, e))
  {
  }

  lemma OthersCount<C>(run: Run<C>, a: Action<C>, e: int)
    ensures !By(Caller, a) ==> Launched(run + [a]) == Launched(run)
    ensures !By(Control, a) ==> AbortsSent(run + [a], e) == AbortsSent(run, e)
  {
    assert Front(run + [a]) == run;
  }

  lemma NotALaunch<C>(run: Run<C>, a: Action<C>)
    requires !a.Launch?
    ensures Launched(run + [a]) == Launched(run)
  {
    assert Front(run + [a]) == run;
  }

  lemma LaunchCounts<C>(run: Run<C>)
    requires After(run).restart.Busy?
    ensures Launched(run + [Launch]) == Launched(run) + [(After(run).restart.epoch, After(run).restart.config)]
  {
    assert Front(run + [Launch]) == run;
  }

  lemma AbortCounts<C>(run: Run<C>, a: Action<C>, e: int)
    ensures AbortsSent(run + [a], e) == AbortsSent(run, e) + if a == SendAbort(e) then 1 else 0
  {
    assert Front(run + [a]) == run;
  }

  /** A wait that has ended stays ended when more happens. */
  lemma WaitStaysEnded<C>(run: Run<C>, longer: Run<C>, from: int, previous: int)
    requires WaitEnded(run, from, previous) && run <= longer
    ensures WaitEnded(longer, from, previous)
  {
    var k :| from < k < |run| && 0 <= k && EndsWait(After(run[..k]), run[k], previous);
    assert longer[..k] == run[..k] && longer[k] == run[k];
  }

  lemma WaitEndsNow<C>(run: Run<C>, a: Action<C>, from: int, previous: int)
    requires EndsWait(After(run), a, previous) && from < |run|
    ensures WaitEnded(run + [a], from, previous)
  {
    var longer := run + [a];
    assert longer[..|run|] == run && longer[|run|] == a;
  }

  class Agent<C(==)> {
    var currentEpoch: int
    var currentConfig: Option<C>
    // the keys of activeEpochs, and for every epoch's channel how many messages wait in it
    var activeEpochs: set<int>
    var abortCh: map<int, nat>
    // where the goroutines stand
    var restart: Restarting<Option<C>>
    var loop: Loop
    var procs: map<int, Proc>
    ghost var trace: Run<C> // everything that has happened

    function View(): State<C>
      reads this
    {
      State(currentEpoch, currentConfig, activeEpochs, abortCh, restart, loop, procs)
    }

    ghost predicate Valid()
      reads this
    {
      Legal(trace) && View() == After(trace)
    }

    constructor ()
      ensures Valid() && trace == [] && restart.Free? && loop.Selecting?
    {
      currentEpoch, currentConfig, activeEpochs := -1, None, {};
      abortCh, restart, loop, procs := map[], Free, Selecting, map[];
      trace := [];
    }

    /** The fields have just been changed by step `a`. */
    ghost method Record(a: Action<C>)
      requires Legal(trace) && Enabled(After(trace), a) && View() == Next(After(trace), a)
      modifies this`trace
      ensures Valid() && trace == old(trace) + [a]
    {
      LegalAppend(trace, a);
      trace := trace + [a];
    }

    // ------------------------------------------------------------------- interference

    /** A step of some other goroutine. */
    method Other(a: Action<C>)
      requires Valid() && Enabled(View(), a)
      modifies this
      ensures Valid() && trace == old(trace) + [a] && View() == Next(old(View()), a)
    {
      hide Legal, After, Enabled, Next;
      var t := Next(View(), a);
      currentEpoch, currentConfig, activeEpochs, abortCh := t.currentEpoch, t.currentConfig, t.active, t.abortCh;
      restart, loop, procs := t.restart, t.loop, t.procs;
      Record(a);
    }

    /** What other goroutines than `mine` do. */
    method Others(mine: Goroutine, actions: seq<Action<C>>)
      requires Valid()
      modifies this
      ensures Valid() && old(trace) <= trace && View() == Interfered(old(View()), mine, actions)
      ensures mine == Caller ==>
                && restart == old(restart) && currentEpoch == old(currentEpoch) && currentConfig == old(currentConfig)
                && Launched(trace) == Launched(old(trace)) && activeEpochs <= old(activeEpochs)
      ensures mine == Control ==> loop == old(loop) && forall e :: AbortsSent(trace, e) == AbortsSent(old(trace), e)
      ensures mine == Control && loop.Aborting? ==> activeEpochs == old(activeEpochs)
      ensures KeepsMutex(actions) ==> MutexFree(View()) == old(MutexFree(View()))
      ensures forall e :: Exit(e) !in actions && HasExited(View(), e) ==> HasExited(old(View()), e)
    {
      hide Legal, After, Enabled, Next, Launched, AbortsSent, By, Interfered, MutexFree, HasExited;
      NothingInterfered(View(), mine);
      for i := 0 to |actions|
        invariant Valid() && old(trace) <= trace && View() == Interfered(old(View()), mine, actions[..i])
        invariant mine == Caller ==>
                    && restart == old(restart) && currentEpoch == old(currentEpoch) && currentConfig == old(currentConfig)
                    && Launched(trace) == Launched(old(trace)) && activeEpochs <= old(activeEpochs)
        invariant mine == Control ==> loop == old(loop) && forall e :: AbortsSent(trace, e) == AbortsSent(old(trace), e)
        invariant mine == Control && loop.Aborting? ==> activeEpochs == old(activeEpochs)
        invariant KeepsMutex(actions) ==> MutexFree(View()) == old(MutexFree(View()))
        invariant forall e :: Exit(e) !in actions && HasExited(View(), e) ==> HasExited(old(View()), e)
      {
        var a := actions[i];
        InterferedStep(old(View()), mine, actions, i);
        if Enabled(View(), a) && !By(mine, a) {
          OthersKeep(View(), a);
          OthersCount(trace, a, 0);
          forall e
            ensures !By(Control, a) ==> AbortsSent(trace + [a], e) == AbortsSent(trace, e)
          {
            OthersCount(trace, a, e);
          }
          Other(a);
        }
      }
      assert actions[..|actions|] == actions;
    }

    // ------------------------------------------------------------------------- Restart

    /** Locking the state mutex, which abortAll may hold. */
    method Lock(script: seq<CallerTurn<C>>, next: nat, ghost calm: nat) returns (next': nat, locked: bool)
      requires Valid() && next <= |script|
      modifies this
      ensures Valid() && old(trace) <= trace && next <= next' <= |script|
      ensures restart == old(restart) && currentEpoch == old(currentEpoch) && currentConfig == old(currentConfig)
      ensures Launched(trace) == Launched(old(trace)) && activeEpochs <= old(activeEpochs)
      ensures if locked then MutexFree(View()) && next < next' else next' == |script|
      ensures Calm(script, calm) && calm <= next ==> MutexFree(View()) == old(MutexFree(View()))
      ensures Calm(script, calm) && MutexFree(View()) ==> next' <= Max(next, calm) + if locked then 1 else 0
    {
      hide Legal, After, Launched, Interfered, MutexFree, Calm, KeepsMutex, HasExited;
      next', locked := next, false;
      while next' < |script| && !locked
        invariant Valid() && old(trace) <= trace && next <= next' <= |script|
        invariant restart == old(restart) && currentEpoch == old(currentEpoch) && currentConfig == old(currentConfig)
        invariant Launched(trace) == Launched(old(trace)) && activeEpochs <= old(activeEpochs)
        invariant locked ==> MutexFree(View()) && next < next'
        invariant Calm(script, calm) && calm <= next ==> MutexFree(View()) == old(MutexFree(View()))
        invariant Calm(script, calm) && MutexFree(View()) ==> next' <= Max(next, calm) + if locked then 1 else 0
      {
        if Calm(script, calm) && calm <= next' {
          CalmTurn(script, calm, next');
        }
        Others(Caller, script[next'].others);
        next', locked := next' + 1, MutexFree(View());
      }
    }

    /** isDone in waitUntilLive: is the epoch gone, or the proxy live?  `select` is the turn
        of the next select, if the wait goes on, or would have been had it gone on. */
    method IsDone(epoch: int, script: seq<CallerTurn<C>>, next: nat, ghost calm: nat)
      returns (next': nat, answered: bool, done: bool, ghost select: nat)
      requires Valid() && next <= |script| && restart.Busy? && restart.wait == AskActive && restart.previous == epoch
      modifies this
      ensures Valid() && old(trace) <= trace && next <= next' <= |script|
      ensures currentEpoch == old(currentEpoch) && currentConfig == old(currentConfig) && Launched(trace) == Launched(old(trace))
      ensures activeEpochs <= old(activeEpochs)
      ensures answered ==> next < next' && restart == old(restart).(wait := if done then Done else Select)
      ensures answered && done ==> WaitEnded(trace, |old(trace)| - 1, epoch)
      ensures answered && done ==> trace != [] && EndsAsTold(Last(trace), script[next' - 1])
      ensures answered && !done ==> !script[next' - 1].live && select == next' && epoch in old(activeEpochs)
      ensures !answered ==>
                && next' == |script| && restart.Busy? && restart == old(restart).(wait := restart.wait) && restart.wait != Done
                && (epoch in old(activeEpochs) || (restart.wait == AskActive && select == next' + 2))
      ensures next + 2 <= select && next' <= select && (next' == select ==> answered)
      ensures Calm(script, calm) && calm <= next ==> MutexFree(View()) == old(MutexFree(View()))
      ensures Calm(script, calm) && MutexFree(View()) ==> select <= Max(next, calm) + 2
    {
      hide Legal, After, Launched, WaitEnded, Interfered, Calm, KeepsMutex, HasExited;
      answered, done := false, false;
      var locked;
      next', locked := Lock(script, next, calm);
      if !locked {
        select := next' + 2;
        return;
      }
      select := next' + 1;
      var active := epoch in activeEpochs;
      NotALaunch(trace, ProbeActive);
      if !active {
        WaitEndsNow(trace, ProbeActive, |old(trace)| - 1, epoch);
      }
      restart := restart.(wait := if active then AskLive else Done);
      Record(ProbeActive);
      if !active {
        return next', true, true, select;
      }
      if next' == |script| {
        return;
      }
      var turn := script[next'];
      if Calm(script, calm) && calm <= next' {
        CalmTurn(script, calm, next');
      }
      Others(Caller, turn.others);
      next', answered, done := next' + 1, true, turn.live;
      NotALaunch(trace, ProbeLive(done));
      if done {
        WaitEndsNow(trace, ProbeLive(true), |old(trace)| - 1, epoch);
      }
      restart := restart.(wait := if done then Done else Select);
      Record(ProbeLive(done));
    }

    /** The timer's branch of the select. */
    method TakeTimer(epoch: int, ghost from: int)
      requires Valid() && restart.Busy? && restart.wait == Select && restart.previous == epoch && from < |trace|
      modifies this
      ensures Valid() && trace == old(trace) + [Timeout] && WaitEnded(trace, from, epoch)
      ensures View() == old(View()).(restart := old(restart).(wait := Done)) && Launched(trace) == Launched(old(trace))
    {
      hide Legal, After, Launched, WaitEnded;
      NotALaunch(trace, Timeout);
      WaitEndsNow(trace, Timeout, from, epoch);
      restart := restart.(wait := Done);
      Record(Timeout);
    }

    /** The ticker's branch of the select. */
    method TakeTick()
      requires Valid() && restart.Busy? && restart.wait == Select
      modifies this
      ensures Valid() && trace == old(trace) + [Tick]
      ensures View() == old(View()).(restart := old(restart).(wait := AskActive)) && Launched(trace) == Launched(old(trace))
    {
      hide Legal, After, Launched;
      NotALaunch(trace, Tick);
      restart := restart.(wait := AskActive);
      Record(Tick);
    }

    /** One select of waitUntilLive, at turn n, in a wait that began at `since`. */
    method SelectOnce(epoch: int, script: seq<CallerTurn<C>>, n: nat, ghost calm: nat, ghost from: nat, ghost since: int)
      returns (next': nat, answered: bool, done: bool, ghost select: nat)
      requires Valid() && n < |script| && restart.Busy? && restart.wait == Select && restart.previous == epoch && since < |trace|
      modifies this
      ensures Valid() && old(trace) <= trace && n < next' <= |script|
      ensures currentEpoch == old(currentEpoch) && currentConfig == old(currentConfig) && Launched(trace) == Launched(old(trace))
      ensures answered ==> restart == old(restart).(wait := if done then Done else Select)
      ensures answered && done ==> WaitEnded(trace, since, epoch)
      ensures answered && done ==> trace != [] && EndsAsTold(Last(trace), script[next' - 1])
      ensures answered && !done ==> select == next'
      ensures !answered ==>
                next' == |script| && restart.Busy? && restart == old(restart).(wait := restart.wait) && restart.wait != Done
      ensures Calm(script, calm) && calm <= n ==> MutexFree(View()) == old(MutexFree(View()))
      ensures Calm(script, calm) && MutexFree(View()) && (if n < from then from == calm else calm <= from && Unheeded(script, from, n, n)) ==>
                && Unheeded(script, from, if answered && done then next' - 1 else next', select)
                && (from <= n ==> (select - n) % 3 == 0)
    {
      hide Legal, After, Launched, WaitEnded, Interfered, Calm, KeepsMutex, Unheeded, HasExited, Enabled, Next;
      var turn := script[n];
      if Calm(script, calm) && calm <= n {
        CalmTurn(script, calm, n);
      }
      Others(Caller, turn.others);
      next', answered, done, select := n + 1, true, true, n;
      if turn.timedOut {
        TakeTimer(epoch, since);
        if n < from {
          NoRound(script, from, n, n);
        }
        return;
      }
      TakeTick();
      ghost var asked := |trace| - 1;
      next', answered, done, select := IsDone(epoch, script, next', calm);
      if answered && done {
        WaitEndedSince(trace, asked, since, epoch);
      }
      if Calm(script, calm) && MutexFree(View()) && (if n < from then from == calm else calm <= from && Unheeded(script, from, n, n)) {
        OneRound(script, from, calm, n, if answered && done then next' - 1 else next', select);
      }
    }

    /** waitUntilLive: returns when the epoch is gone, the proxy live, or the time over, and
        only then.  From turn `calm` on, and if the mutex is free, it returns at the first
        turn that says so. */
    method WaitUntilLive(epoch: int, script: seq<CallerTurn<C>>, next: nat, ghost calm: nat)
      returns (next': nat, over: bool, ghost select: nat)
      requires Valid() && next <= |script| && restart.Busy? && restart.wait == AskActive && restart.previous == epoch
      modifies this
      ensures Valid() && old(trace) <= trace && next <= next' <= |script|
      ensures currentEpoch == old(currentEpoch) && currentConfig == old(currentConfig) && Launched(trace) == Launched(old(trace))
      ensures over ==> restart == old(restart).(wait := Done) && WaitEnded(trace, |old(trace)| - 1, epoch)
      ensures over ==> next < next' && trace != [] && EndsAsTold(Last(trace), script[next' - 1])
      ensures !over ==>
                next' == |script| && restart.Busy? && restart == old(restart).(wait := restart.wait) && restart.wait != Done
      ensures Calm(script, calm) && calm <= next ==> MutexFree(View()) == old(MutexFree(View()))
      ensures Calm(script, calm) && MutexFree(View()) ==>
                && Unheeded(script, Max(next, calm), if over then next' - 1 else next', select)
                && (calm <= next ==> (select - next) % 3 == 2)
                && (epoch !in old(activeEpochs) && Max(next, calm) < |script| ==> over)
    {
      hide Legal, After, Launched, WaitEnded, Interfered, Calm, KeepsMutex, Unheeded, HasExited, Enabled, Next;
      ghost var from, since := Max(next, calm), |trace| - 1;
      var answered, done;
      next', answered, done, select := IsDone(epoch, script, next, calm);
      over := answered && done;
      if Calm(script, calm) && MutexFree(View()) {
        FirstRound(script, from, if over then next' - 1 else next', select);
      }
      if !answered || done {
        return;
      }
      while next' < |script|
        invariant Valid() && old(trace) <= trace && next < next' <= |script|
        invariant currentEpoch == old(currentEpoch) && currentConfig == old(currentConfig)
        invariant Launched(trace) == Launched(old(trace))
        invariant restart == old(restart).(wait := Select) && !over && select == next'
        invariant Calm(script, calm) && calm <= next ==> MutexFree(View()) == old(MutexFree(View()))
        invariant Calm(script, calm) && MutexFree(View()) ==>
                    Unheeded(script, from, next', next') && (calm <= next ==> (next' - next) % 3 == 2)
        decreases |script| - next'
      {
        next', answered, done, select := SelectOnce(epoch, script, next', calm, from, since);
        over := answered && done;
        if !answered || done {
          return;
        }
      }
    }

    lemma WaitEndedSince(run: Run<C>, late: int, early: int, previous: int)
      requires WaitEnded(run, late, previous) && early <= late
      ensures WaitEnded(run, early, previous)
    {
    }

    /** Restart.  When it has finished, a config that differs from the current one has
        become the current one, with the next epoch, launched exactly once and, if any epoch
        was active at its registration, only after the end of a wait for the epoch before
        it; the current config is not launched again.  `registered` is where in the trace
        Restart acquires the state mutex.  If from turn `calm` on the mutex is free, only
        the wait can keep Restart from finishing, and that only while no turn of it finds
        the proxy live or the time over. */
    method Restart(config: Option<C>, script: seq<CallerTurn<C>>, ghost calm: nat)
      returns (launched: Option<int>, finished: bool, ghost registered: nat, ghost select: nat)
      requires Valid() && restart.Free?
      modifies this
      ensures Valid() && old(trace) <= trace
      ensures finished ==> restart.Free? && |old(trace)| <= registered < |trace| && trace[registered] == Action.Restart(config)
      ensures !finished || config == old(currentConfig) ==> launched == None && Launched(trace) == Launched(old(trace))
      ensures finished && config == old(currentConfig) ==> currentEpoch == old(currentEpoch)
      ensures finished && config != old(currentConfig) ==>
                && currentEpoch == old(currentEpoch) + 1 && currentConfig == config && launched == Some(currentEpoch)
                && Launched(trace) == Launched(old(trace)) + [(currentEpoch, config)]
                && (After(trace[..registered]).active != {} ==> WaitEnded(trace, registered, currentEpoch - 1))
      ensures !finished && Calm(script, calm) && MutexFree(View()) && calm < |script| ==>
                && config != old(currentConfig)
                && |old(trace)| <= registered < |trace| && After(trace[..registered]).active != {}
                && Unheeded(script, calm + 1, |script|, select)
                && (calm == 0 ==> forall k :: 1 <= k < |script| && k % 3 == 2 ==> !script[k].live)
                && (calm == 0 ==> forall k :: 1 <= k < |script| && k % 3 == 0 ==> !script[k].timedOut)
    {
      hide Legal, After, Launched, WaitEnded, Interfered, Calm, KeepsMutex, Unheeded, HasExited;
      launched, finished, registered, select := None, false, 0, 0;
      var next, locked := Lock(script, 0, calm);
      if !locked {
        return;
      }
      registered := |trace|;
      ghost var before := trace;
      NotALaunch(trace, Action.Restart(config));
      if currentConfig == config {
        Record(Action.Restart(config));
        finished := true;
        return;
      }
      var epoch, hasActiveEpoch := Register(config);
      if hasActiveEpoch {
        var over;
        ghost var entered := next;
        next, over, select := WaitUntilLive(epoch - 1, script, next, calm);
        if !over {
          assert trace[..registered] == before;
          if Calm(script, calm) && MutexFree(View()) {
            UnheededLater(script, Max(entered, calm), calm + 1, |script|, select);
            if calm == 0 {
              UnheededFromStart(script, select);
            }
          }
          return;
        }
      }
      ghost var waited := trace;
      StartProxy(epoch, if next < |script| then script[next].others else []);
      if hasActiveEpoch {
        WaitStaysEnded(waited, trace, registered, epoch - 1);
      }
      launched, finished := Some(epoch), true;
      assert trace[..registered] == before;
    }

    /** The part of Restart under the state mutex, for a new config. */
    method Register(config: Option<C>) returns (epoch: int, hasActiveEpoch: bool)
      requires Valid() && restart.Free? && MutexFree(View()) && config != currentConfig
      modifies this
      ensures Valid() && trace == old(trace) + [Action.Restart(config)] && Launched(trace) == Launched(old(trace))
      ensures epoch == currentEpoch == old(currentEpoch) + 1 && currentConfig == config
      ensures hasActiveEpoch <==> After(old(trace)).active != {}
      ensures restart == Busy(epoch, config, epoch - 1, if hasActiveEpoch then AskActive else Done)
    {
      hide Legal, After, Launched;
      NotALaunch(trace, Action.Restart(config));
      hasActiveEpoch := |activeEpochs| > 0;
      assert hasActiveEpoch == (activeEpochs != {});
      var activeEpoch := currentEpoch;
      epoch := currentEpoch + 1;
      currentEpoch := epoch;
      currentConfig := config;
      abortCh := abortCh[epoch := 0];
      activeEpochs := activeEpochs + {epoch};
      restart := Busy(epoch, config, activeEpoch, if hasActiveEpoch then AskActive else Done);
      Record(Action.Restart(config));
    }

    /** Starting the goroutine of the new epoch, after what others still do before that. */
    method StartProxy(epoch: int, others: seq<Action<C>>)
      requires Valid() && restart.Busy? && restart.wait == Done && restart.epoch == epoch
      modifies this
      ensures Valid() && old(trace) <= trace && restart.Free?
      ensures currentEpoch == old(currentEpoch) && currentConfig == old(currentConfig)
      ensures Launched(trace) == Launched(old(trace)) + [(epoch, old(restart).config)]
    {
      hide Legal, After, Launched;
      Others(Caller, others);
      LaunchCounts(trace);
      procs := procs[epoch := Running];
      restart := Free;
      Record(Launch);
    }

    // ----------------------------------------------------------------- the control loop

    method Meanwhile(script: seq<seq<Action<C>>>, k: nat)
      requires Valid()
      modifies this
      ensures Valid() && old(trace) <= trace
      ensures loop == old(loop) && forall e :: AbortsSent(trace, e) == AbortsSent(old(trace), e)
      ensures loop.Aborting? ==> activeEpochs == old(activeEpochs)
      ensures forall e :: HasExited(View(), e) ==> HasExited(old(View()), e) || (k < |script| && Exit(e) in script[k])
    {
      hide HasExited;
      if k < |script| {
        Others(Control, script[k]);
      }
    }

    /** abortAll, which keeps the state mutex: it sends one message to every epoch that is
        active, in any order, and never blocks. */
    method AbortAll(meanwhile: seq<seq<Action<C>>>)
      requires Valid() && loop.Draining?
      modifies this
      ensures Valid() && old(trace) <= trace && loop.Terminated?
      ensures forall e :: AbortsSent(trace, e) == if e in activeEpochs then 1 else 0
    {
      hide Legal, After, AbortsSent, AbortInv;
      NothingSent(trace);
      forall e
        ensures AbortsSent(trace + [StartAbort], e) == AbortsSent(trace, e)
      {
        AbortCounts(trace, StartAbort, e);
      }
      var todo := activeEpochs;
      ghost var epochs := activeEpochs;
      loop := Aborting(todo);
      Record(StartAbort);
      var k := 1;
      while todo != {}
        invariant Valid() && old(trace) <= trace && loop == Aborting(todo) && activeEpochs == epochs && todo <= epochs
        invariant forall e :: AbortsSent(trace, e) == if e in epochs && e !in todo then 1 else 0
        decreases todo
      {
        SomeEpoch(todo);
        var epoch :| epoch in todo;
        Meanwhile(meanwhile, k);
        k := k + 1;
        AbortAllNeverBlocks(trace);
        LegalAppend(trace, SendAbort(epoch));
        assert epoch in abortCh && abortCh[epoch] == 0; // so the send does not block
        forall e
          ensures AbortsSent(trace + [SendAbort(epoch)], e) == AbortsSent(trace, e) + if e == epoch then 1 else 0
        {
          AbortCounts(trace, SendAbort(epoch), e);
        }
        abortCh := abortCh[epoch := abortCh[epoch] + 1];
        todo := todo - {epoch};
        loop := Aborting(todo);
        Record(SendAbort(epoch));
      }
      Meanwhile(meanwhile, k);
      forall e
        ensures AbortsSent(trace + [FinishAbort], e) == AbortsSent(trace, e)
      {
        AbortCounts(trace, FinishAbort, e);
      }
      loop := Terminated;
      Record(FinishAbort);
    }

    lemma SomeEpoch(todo: set<int>)
      requires todo != {}
      ensures exists e :: e in todo
    {
      assert (forall e :: e !in todo) ==> todo == {};
    }

    lemma NothingSent(run: Run<C>)
      requires Legal(run) && After(run).loop.Draining?
      ensures forall e :: AbortsSent(run, e) == 0
    {
      AbortInvHolds(run);
    }

    /** The ctx.Done branch: draining, then abortAll. */
    method Terminate(meanwhile: seq<seq<Action<C>>>)
      requires Valid() && loop.Selecting?
      modifies this
      ensures Valid() && old(trace) <= trace && loop.Terminated?
      ensures forall e :: AbortsSent(trace, e) == if e in activeEpochs then 1 else 0
    {
      hide Legal, After, AbortsSent;
      loop := Draining;
      Record(Cancel);
      Meanwhile(meanwhile, 0);
      AbortAll(meanwhile);
    }

    /** The status branch: the epoch is deleted, and the others are counted. */
    method HandleStatus(epoch: int, meanwhile: seq<seq<Action<C>>>) returns (active: nat)
      requires Valid() && loop.Selecting? && epoch in procs && procs[epoch] == Exited
      modifies this
      ensures Valid() && old(trace) <= trace && |trace| > 0 && Last(trace) == Handle
      ensures active == |activeEpochs| && loop == if active == 0 then NoMoreActive else Selecting
      ensures forall e :: HasExited(View(), e) ==>
                            (e != epoch && HasExited(old(View()), e))
                            || (meanwhile != [] && Exit(e) in meanwhile[0])
    {
      hide Legal, After, AbortsSent;
      loop := Handling(epoch);
      procs := procs[epoch := Reported];
      Record(Receive(epoch));
      assert forall e :: HasExited(View(), e) ==> e != epoch && HasExited(old(View()), e);
      Meanwhile(meanwhile, 0);
      ghost var exited := View();
      activeEpochs := activeEpochs - {epoch};
      active := |activeEpochs|;
      loop := if active == 0 then NoMoreActive else Selecting;
      Record(Handle);
      assert forall e :: HasExited(View(), e) ==> HasExited(exited, e);
    }

    /** Run.  It returns through "no more active epochs" only when every epoch that was
        ever registered has exited and no Restart is under way, and through ctx.Done only
        after one abort message to every epoch still active, and none to any other.  While
        it has not returned, every status it was given is handled, and none of its turns
        took the branch of ctx.Done. */
    method Run(script: seq<LoopTurn<C>>) returns (outcome: Outcome)
      requires Valid() && loop.Selecting?
      modifies this
      ensures Valid() && old(trace) <= trace
      ensures outcome.StillRunning? <==> loop.Selecting?
      ensures outcome.AllExited? ==>
                && loop.NoMoreActive? && activeEpochs == {} && restart.Free?
                && Handled(View()) == Epochs(currentEpoch + 1)
                && forall e :: e in procs ==> procs[e] == Reported
      ensures outcome.AbortedAll? ==>
                && loop.Terminated? && (exists turn <- script :: turn.choice.FromContext?)
                && forall e :: AbortsSent(trace, e) == if e in activeEpochs then 1 else 0
      ensures outcome.StillRunning? ==>
                && (forall turn <- script :: !turn.choice.FromContext?)
                && forall k :: 0 <= k < |script| ==>
                                 && script[k].choice.FromStatus?
                                 && (HasExited(View(), script[k].choice.epoch) ==>
                                       !NoExitAfter(script, k, |script|, script[k].choice.epoch))
    {
      hide Legal, After, AbortsSent, Handled, Epochs, Interfered, NoExitAfter;
      for i := 0 to |script|
        invariant Valid() && old(trace) <= trace && loop.Selecting?
        invariant forall k :: 0 <= k < i ==>
                                && script[k].choice.FromStatus?
                                && (HasExited(View(), script[k].choice.epoch) ==>
                                      !NoExitAfter(script, k, i, script[k].choice.epoch))
      {
        var turn := script[i];
        ghost var before := View();
        Others(Control, turn.others);
        ghost var selecting := View();
        match turn.choice {
          case FromStatus(epoch) =>
            if epoch in procs && procs[epoch] == Exited {
              var active := HandleStatus(epoch, turn.meanwhile);
              if active == 0 {
                NoMoreActiveExact(trace);
                return AllExited;
              }
            }
          case FromContext =>
            Terminate(turn.meanwhile);
            return AbortedAll;
        }
        assert forall e :: HasExited(View(), e) ==>
                             || (HasExited(selecting, e) && turn.choice != FromStatus(e))
                             || (turn.meanwhile != [] && Exit(e) in turn.meanwhile[0]);
        forall k | 0 <= k <= i
          ensures script[k].choice.FromStatus?
          ensures var e := script[k].choice.epoch; HasExited(View(), e) ==> !NoExitAfter(script, k, i + 1, e)
        {
          var e := script[k].choice.epoch;
          if NoExitAfter(script, k, i + 1, e) {
            NoExitLonger(script, k, i, e);
          }
        }
      }
      return StillRunning;
    }
  }
}
