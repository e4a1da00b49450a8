/**
 pkg/envoy/watcher.go: watchFileEvents, which batches file events.  A run is the list of
 the branches its select takes, with the time of each on an abstract clock that never
 goes back; a timer may fire late but never early.
 */
module Watcher {
  import opened Wire

  datatype Choice =
    | FileEvent(at: int)
    | TimerFires(at: int)
    | ContextDone(at: int)

  type Run = seq<Choice>

  /** The deadline of the timer when one is armed, and whether the loop has returned. */
  datatype State = State(timer: Option<int>, returned: bool)

  predicate Enabled(s: State, c: Choice) {
    !s.returned && (c.TimerFires? ==> s.timer.Some? && c.at >= s.timer.value)
  }

  function Next(s: State, c: Choice, minDelay: int): State {
    match c
    case FileEvent(at) => if s.timer.Some? then s else s.(timer := Some(at + minDelay))
    case TimerFires(_) => s.(timer := None)
    case ContextDone(_) => s.(returned := true)
  }

  function After(run: Run, minDelay: int): State {
    if run == [] then State(None, false) else Next(After(run[..|run| - 1], minDelay), run[|run| - 1], minDelay)
  }

  predicate Legal(run: Run, minDelay: int) {
    && (forall i, j :: 0 <= i < j < |run| ==> run[i].at <= run[j].at)
    && (forall i :: 0 <= i < |run| ==> Enabled(After(run[..i], minDelay), run[i]))
  }

  /** The times at which notifyFn is called. */
  function Notifications(run: Run): seq<int> {
    if run == [] then []
    else Notifications(run[..|run| - 1]) + (if run[|run| - 1].TimerFires? then [run[|run| - 1].at] else [])
  }

  /** Event i is the first since the last notification, or would be if there was one. */
  predicate OpensBatch(run: Run, i: nat) {
    && i < |run| && run[i].FileEvent?
    && (forall k :: 0 <= k < i && run[k].FileEvent? ==> exists j :: k < j < i && run[j].TimerFires?)
  }

  predicate NotNotified(run: Run, i: nat) {
    i < |run| && forall j :: i < j < |run| ==> !run[j].TimerFires?
  }

  /** Some event has not been followed by a notification. */
  predicate Pending(run: Run) {
    exists i :: 0 <= i < |run| && run[i].FileEvent? && NotNotified(run, i)
  }

  lemma PendingNext(run: Run, c: Choice)
    ensures Pending(run + [c]) <==> c.FileEvent? || (Pending(run) && !c.TimerFires?)
  {
    var all := run + [c];
    assert all[|run|] == c;
    if c.FileEvent? {
      assert NotNotified(all, |run|);
    }
    if Pending(run) && !c.TimerFires? {
      var i :| 0 <= i < |run| && run[i].FileEvent? && NotNotified(run, i);
      assert all[i] == run[i] && NotNotified(all, i);
    }
    if Pending(all) && !c.FileEvent? {
      var i :| 0 <= i < |all| && all[i].FileEvent? && NotNotified(all, i);
      assert all[i] == run[i] && !all[|run|].TimerFires?;
      forall j | i < j < |run|
        ensures !run[j].TimerFires?
      {
        assert all[j] == run[j];
      }
      assert NotNotified(run, i);
    }
  }

  lemma AfterLast(run: Run, minDelay: int)
    requires run != []
    ensures After(run, minDelay) == Next(After(run[..|run| - 1], minDelay), run[|run| - 1], minDelay)
  {
  }

  lemma LastStep(run: Run, minDelay: int)
    requires Legal(run, minDelay) && run != []
    ensures var front, c := run[..|run| - 1], run[|run| - 1];
            && Legal(front, minDelay) && Enabled(After(front, minDelay), c)
            && run == front + [c]
            && After(run, minDelay) == Next(After(front, minDelay), c, minDelay)
  {
    AfterLast(run, minDelay);
    hide After, Enabled, Next;
    var front := run[..|run| - 1];
    forall i | 0 <= i < |front|
      ensures Enabled(After(front[..i], minDelay), front[i])
    {
      assert front[..i] == run[..i];
    }
  }

  /** A timer is armed exactly when an event has arrived since the last notification; so
      every event is followed by a notification or still has a timer running for it. */
  lemma {:induction false} ArmedExactly(run: Run, minDelay: int)
    requires Legal(run, minDelay)
    ensures After(run, minDelay).timer.Some? <==> Pending(run)
  {
    if run != [] {
      LastStep(run, minDelay);
      hide Legal, Pending, After;
      ArmedExactly(run[..|run| - 1], minDelay);
      PendingNext(run[..|run| - 1], run[|run| - 1]);
    }
  }

  lemma AfterNothing(minDelay: int)
    ensures After([], minDelay) == State(None, false)
  {
  }

  /** The event that an armed timer counts from. */
  lemma {:induction false} BatchOpener(run: Run, minDelay: int) returns (i: nat)
    requires Legal(run, minDelay) && After(run, minDelay).timer.Some?
    ensures i < |run| && OpensBatch(run, i) && NotNotified(run, i)
    ensures After(run, minDelay).timer.value == run[i].at + minDelay
  {
    AfterNothing(minDelay);
    hide Legal, OpensBatch, NotNotified, Pending, After;
    LastStep(run, minDelay);
    var front, c := run[..|run| - 1], run[|run| - 1];
    if After(front, minDelay).timer.Some? {
      i := BatchOpener(front, minDelay);
      BatchKept(front, c, i);
    } else {
      ArmedExactly(front, minDelay);
      BatchOpened(front, c);
      i := |front|;
    }
  }

  /** An armed timer counts from the first event since the last notification. */
  lemma DeadlineIsOfFirstEvent(run: Run, minDelay: int)
    requires Legal(run, minDelay) && After(run, minDelay).timer.Some?
    ensures exists i :: && 0 <= i < |run| && OpensBatch(run, i) && NotNotified(run, i)
                        && After(run, minDelay).timer.value == run[i].at + minDelay
  {
    hide *;
    var i := BatchOpener(run, minDelay);
  }

  lemma BatchOpened(run: Run, c: Choice)
    requires !Pending(run) && c.FileEvent?
    ensures OpensBatch(run + [c], |run|) && NotNotified(run + [c], |run|)
  {
    AllNotified(run);
    var all := run + [c];
    forall k | 0 <= k < |run| && all[k].FileEvent?
      ensures exists j :: k < j < |run| && all[j].TimerFires?
    {
      assert run[k] == all[k];
      var j :| k < j < |run| && run[j].TimerFires?;
      assert all[j] == run[j];
    }
  }

  lemma BatchKept(run: Run, c: Choice, i: nat)
    requires OpensBatch(run, i) && NotNotified(run, i) && !c.TimerFires?
    ensures OpensBatch(run + [c], i) && NotNotified(run + [c], i)
  {
    var all := run + [c];
    forall k | 0 <= k < i && all[k].FileEvent?
      ensures exists j :: k < j < i && all[j].TimerFires?
    {
      assert run[k] == all[k];
      var j :| k < j < i && run[j].TimerFires?;
      assert all[j] == run[j];
    }
  }

  lemma AllNotified(run: Run)
    requires !Pending(run)
    ensures forall k :: 0 <= k < |run| && run[k].FileEvent? ==> exists j :: k < j < |run| && run[j].TimerFires?
  {
    forall k | 0 <= k < |run| && run[k].FileEvent?
      ensures exists j :: k < j < |run| && run[j].TimerFires?
    {
      assert !NotNotified(run, k);
    }
  }

  // -------------------------------------------------------------------------- spacing

  ghost predicate Spaced(times: seq<int>, minDelay: int) {
    forall i :: 0 < i < |times| ==> times[i] - times[i - 1] >= minDelay
  }

  /** The last notification lies in the past, and an armed timer at least minDelay after it. */
  ghost predicate SpacingInv(times: seq<int>, timer: Option<int>, now: int, minDelay: int) {
    && Spaced(times, minDelay)
    && (times != [] ==> times[|times| - 1] <= now)
    && (times != [] && timer.Some? ==> timer.value >= times[|times| - 1] + minDelay)
  }

  lemma SpacingStep(times: seq<int>, s: State, now: int, c: Choice, minDelay: int)
    requires SpacingInv(times, s.timer, now, minDelay) && now <= c.at && Enabled(s, c)
    ensures SpacingInv(if c.TimerFires? then times + [c.at] else times, Next(s, c, minDelay).timer, c.at, minDelay)
  {
  }

  /** notifyFn is called no more than once per minDelay. */
  lemma {:induction false} NotificationsAreSpaced(run: Run, minDelay: int)
    requires Legal(run, minDelay)
    ensures Spaced(Notifications(run), minDelay)
    ensures SpacingInv(Notifications(run), After(run, minDelay).timer, if run == [] then 0 else run[|run| - 1].at, minDelay)
  {
    if run != [] {
      var front, c := run[..|run| - 1], run[|run| - 1];
      LastStep(run, minDelay);
      TimesGrow(run, minDelay);
      NotificationsAreSpaced(front, minDelay);
      hide Legal, Next, Enabled;
      SpacingStep(Notifications(front), After(front, minDelay), if front == [] then c.at else front[|front| - 1].at, c, minDelay);
      assert Notifications(front) + [] == Notifications(front);
    }
  }

  lemma TimesGrow(run: Run, minDelay: int)
    requires Legal(run, minDelay)
    ensures |run| > 1 ==> run[..|run| - 1][|run| - 2].at <= run[|run| - 1].at
  {
    assert |run| > 1 ==> run[..|run| - 1][|run| - 2] == run[|run| - 2];
  }

  // ------------------------------------------------------------------------- the loop

  /** One round of the loop: the branches of its select. */
  method Select(c: Choice, minDelay: int, timer: Option<int>, notified: seq<int>)
    returns (timer': Option<int>, notified': seq<int>, returned: bool)
    ensures State(timer', returned) == Next(State(timer, false), c, minDelay)
    ensures notified' == if c.TimerFires? then notified + [c.at] else notified
  {
    timer', notified', returned := timer, notified, false;
    match c {
      case FileEvent(at) =>
        if timer.None? {
          timer' := Some(at + minDelay);
        }
      case TimerFires(at) =>
        timer' := None;
        notified' := notified + [at];
      case ContextDone(_) =>
        returned := true;
    }
  }

  /** watchFileEvents, taking the branches of its select as they come. */
  method WatchFileEvents(run: Run, minDelay: int) returns (notified: seq<int>, timer: Option<int>)
    requires Legal(run, minDelay)
    requires run != [] && run[|run| - 1].ContextDone?
    ensures notified == Notifications(run) && Spaced(notified, minDelay)
    ensures timer.Some? <==> Pending(run)
  {
    hide *;
    Prefixes(run, minDelay, 0);
    notified, timer := [], None;
    var i, returned := 0, false;
    while !returned
      invariant 0 <= i <= |run| && (!returned ==> i < |run|) && (returned ==> i == |run|)
      invariant notified == Notifications(run[..i]) && After(run[..i], minDelay) == State(timer, returned)
      decreases |run| - i
    {
      Prefixes(run, minDelay, i);
      EndsOnce(run, minDelay, i);
      timer, notified, returned := Select(run[i], minDelay, timer, notified);
      i := i + 1;
    }
    NotificationsAreSpaced(run, minDelay);
    ArmedExactly(run, minDelay);
  }

  lemma Prefixes(run: Run, minDelay: int, i: nat)
    requires i < |run|
    ensures i == 0 ==> After(run[..i], minDelay) == State(None, false) && Notifications(run[..i]) == []
    ensures After(run[..i + 1], minDelay) == Next(After(run[..i], minDelay), run[i], minDelay)
    ensures Notifications(run[..i + 1]) == if run[i].TimerFires? then Notifications(run[..i]) + [run[i].at] else Notifications(run[..i])
    ensures run[..|run|] == run
  {
    assert run[..i + 1][..i] == run[..i];
  }

  /** The loop returns at the first ContextDone, which in a legal run is the last step. */
  lemma EndsOnce(run: Run, minDelay: int, i: nat)
    requires Legal(run, minDelay) && i < |run| && run[|run| - 1].ContextDone?
    ensures After(run[..i + 1], minDelay).returned <==> After(run[..i], minDelay).returned || run[i].ContextDone?
    ensures After(run[..i + 1], minDelay).returned <==> i + 1 == |run|
  {
    Prefixes(run, minDelay, i);
    if i + 1 < |run| {
      assert Enabled(After(run[..i + 1], minDelay), run[i + 1]);
    }
  }
}
