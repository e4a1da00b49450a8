/**
 pkg/queue/instance.go: the work queue.  The protocol's steps are the critical sections
 of the source; clients, retry timers, the stop goroutine and the loop of Run interleave
 in any order.  The theorems speak about every finite run, the class at the end makes
 exactly these steps.
 */
module Queue {
  import opened Wire

  /** Where Run stands: about to take the lock, in cond.Wait (signalled or not), in a task. */
  datatype Loop<T> = Checking | Waiting | Woken | Working(task: T) | Returned

  datatype State<T> = State(
    tasks: seq<T>,
    closing: bool,
    loop: Loop<T>,
    retrying: multiset<T>) // timers of time.AfterFunc that have not fired

  function Init<T>(): State<T> {
    State([], false, Checking, multiset{})
  }

  datatype Action<T> =
    | Push(item: T)
    | Fire(item: T)        // the timer of a failed task pushes it again
    | Stop                 // the stop goroutine sets closing; it does not signal
    | Check                // Run holds the lock: take a task, wait, or return
    | Finish(failed: bool) // the task returns

  predicate Enabled<T(==)>(s: State<T>, a: Action<T>) {
    match a
    case Push(_) => true
    case Fire(item) => item in s.retrying
    case Stop => true
    case Check => s.loop.Checking? || s.loop.Woken?
    case Finish(_) => s.loop.Working?
  }

  function Pushed<T>(s: State<T>, item: T): State<T> {
    s.(tasks := if s.closing then s.tasks else s.tasks + [item],
       loop := if s.loop.Waiting? then Woken else s.loop)
  }

  function Next<T(==)>(s: State<T>, a: Action<T>): State<T>
    requires Enabled(s, a)
  {
    match a
    case Push(item) => Pushed(s, item)
    case Fire(item) => Pushed(s.(retrying := s.retrying - multiset{item}), item)
    case Stop => s.(closing := true)
    case Check =>
      if s.tasks != [] then s.(tasks := s.tasks[1..], loop := Working(s.tasks[0]))
      else s.(loop := if s.closing then Returned else Waiting)
    case Finish(failed) =>
      s.(loop := Checking, retrying := if failed then s.retrying + multiset{s.loop.task} else s.retrying)
  }

  // ------------------------------------------------------------------- runs and history

  type Run<T> = seq<Action<T>>

  predicate Legal<T(==)>(run: Run<T>) {
    run == [] || (Legal(run[..|run| - 1]) && Enabled(After(run[..|run| - 1]), run[|run| - 1]))
  }

  /** The state a run ends in; an illegal run ignores its impossible steps. */
  function After<T(==)>(run: Run<T>): State<T> {
    if run == [] then Init()
    else
      var s, a := After(run[..|run| - 1]), run[|run| - 1];
      if Enabled(s, a) then Next(s, a) else s
  }

  /** The last step of a run. */
  lemma LastStep<T>(run: Run<T>)
    requires Legal(run) && run != []
    ensures var before, a := run[..|run| - 1], run[|run| - 1];
            && Legal(before) && Enabled(After(before), a)
            && After(run) == Next(After(before), a)
            && HistoryOf(run) == Observe(HistoryOf(before), After(before), a)
  {
  }

  /** What an observer of a run has seen happen to the tasks. */
  datatype History<T> = History(
    submitted: multiset<T>, // pushed by clients
    accepted: seq<T>,       // pushed, by clients or timers, before closing
    dropped: multiset<T>,   // pushed, by clients or timers, after closing
    started: seq<T>,
    completed: multiset<T>,
    failed: multiset<T>)

  function Observe<T(==)>(h: History<T>, s: State<T>, a: Action<T>): History<T>
    requires Enabled(s, a)
  {
    match a
    case Push(item) =>
      var h' := h.(submitted := h.submitted + multiset{item});
      if s.closing then h'.(dropped := h.dropped + multiset{item}) else h'.(accepted := h.accepted + [item])
    case Fire(item) =>
      if s.closing then h.(dropped := h.dropped + multiset{item}) else h.(accepted := h.accepted + [item])
    case Stop => h
    case Check => if s.tasks != [] then h.(started := h.started + [s.tasks[0]]) else h
    case Finish(failed) =>
      if failed then h.(failed := h.failed + multiset{s.loop.task}) else h.(completed := h.completed + multiset{s.loop.task})
  }

  function HistoryOf<T(==)>(run: Run<T>): History<T> {
    if run == [] then History(multiset{}, [], multiset{}, [], multiset{}, multiset{})
    else
      var s, h, a := After(run[..|run| - 1]), HistoryOf(run[..|run| - 1]), run[|run| - 1];
      if Enabled(s, a) then Observe(h, s, a) else h
  }

  // ------------------------------------------------------------------------- invariants

  function InTask<T>(s: State<T>): multiset<T> {
    if s.loop.Working? then multiset{s.loop.task} else multiset{}
  }

  /** Tasks start in the order in which they were accepted. */
  ghost predicate Fifo<T>(s: State<T>, h: History<T>) {
    h.accepted == h.started + s.tasks
  }

  /** No task is lost, and none is duplicated. */
  ghost predicate Conserved<T>(s: State<T>, h: History<T>) {
    h.submitted == Total(h.completed, multiset(s.tasks), InTask(s), s.retrying, h.dropped)
  }

  /** The tasks that are accounted for. */
  function Total<T>(completed: multiset<T>, queued: multiset<T>, inTask: multiset<T>, retrying: multiset<T>, dropped: multiset<T>): multiset<T> {
    completed + queued + inTask + retrying + dropped
  }

  /** Every task started is still in work, completed, or failed. */
  ghost predicate Accounted<T>(s: State<T>, h: History<T>) {
    multiset(h.started) == h.completed + h.failed + InTask(s)
  }

  /** Run waits only while there is nothing to do, and returns only at the end. */
  ghost predicate NothingLeft<T>(s: State<T>) {
    && (s.loop.Waiting? ==> s.tasks == [])
    && (s.loop.Returned? ==> s.closing && s.tasks == [])
  }

  lemma FifoStep<T>(s: State<T>, h: History<T>, a: Action<T>)
    requires Fifo(s, h) && Enabled(s, a)
    ensures Fifo(Next(s, a), Observe(h, s, a))
  {
    match a {
      case Push(item) =>
        assert h.started + (s.tasks + [item]) == (h.started + s.tasks) + [item];
      case Fire(item) =>
        assert h.started + (s.tasks + [item]) == (h.started + s.tasks) + [item];
      case Check =>
        if s.tasks != [] {
          assert h.started + [s.tasks[0]] + s.tasks[1..] == h.started + s.tasks;
        }
      case Stop =>
      case Finish(_) =>
    }
  }

  lemma PushConserved<T>(s: State<T>, h: History<T>, item: T)
    requires h.submitted == Total(h.completed, multiset(s.tasks), InTask(s), s.retrying, h.dropped) + multiset{item}
    ensures s.closing ==> Conserved(Pushed(s, item), h.(dropped := h.dropped + multiset{item}))
    ensures !s.closing ==> Conserved(Pushed(s, item), h.(accepted := h.accepted + [item]))
  {
    assert multiset(s.tasks + [item]) == multiset(s.tasks) + multiset{item};
    assert InTask(Pushed(s, item)) == InTask(s);
  }

  lemma CheckConserved<T>(s: State<T>, h: History<T>)
    requires Conserved(s, h) && Enabled(s, Check)
    ensures Conserved(Next(s, Check), Observe(h, s, Check))
  {
    hide Total;
    if s.tasks != [] {
      TakeFirst(s.tasks);
      MoveOne(h.completed, multiset(s.tasks[1..]), multiset{s.tasks[0]}, s.retrying, h.dropped);
    }
  }

  lemma TakeFirst<T>(tasks: seq<T>)
    requires tasks != []
    ensures multiset(tasks) == multiset(tasks[1..]) + multiset{tasks[0]}
  {
    assert tasks == [tasks[0]] + tasks[1..];
  }

  lemma MoveOne<T>(completed: multiset<T>, queued: multiset<T>, one: multiset<T>, retrying: multiset<T>, dropped: multiset<T>)
    ensures Total(completed, queued + one, multiset{}, retrying, dropped) == Total(completed, queued, one, retrying, dropped)
  {
  }

  lemma FinishConserved<T>(s: State<T>, h: History<T>, failed: bool)
    requires Conserved(s, h) && Enabled(s, Finish(failed))
    ensures Conserved(Next(s, Finish(failed)), Observe(h, s, Finish(failed)))
  {
  }

  lemma ConservedStep<T>(s: State<T>, h: History<T>, a: Action<T>)
    requires Conserved(s, h) && Enabled(s, a)
    ensures Conserved(Next(s, a), Observe(h, s, a))
  {
    match a {
      case Push(item) =>
        PushConserved(s, h.(submitted := h.submitted + multiset{item}), item);
      case Fire(item) =>
        assert s.retrying == s.retrying - multiset{item} + multiset{item};
        PushConserved(s.(retrying := s.retrying - multiset{item}), h, item);
      case Check =>
        CheckConserved(s, h);
      case Stop =>
      case Finish(failed) =>
        FinishConserved(s, h, failed);
    }
  }

  lemma AccountedStep<T>(s: State<T>, h: History<T>, a: Action<T>)
    requires Accounted(s, h) && Enabled(s, a)
    ensures Accounted(Next(s, a), Observe(h, s, a))
  {
    match a {
      case Check =>
        assert s.tasks != [] ==> multiset(h.started + [s.tasks[0]]) == multiset(h.started) + multiset{s.tasks[0]};
      case Finish(failed) =>
        FinishAccounted(s, h, failed);
      case Push(_) =>
      case Fire(_) =>
      case Stop =>
    }
  }

  lemma FinishAccounted<T>(s: State<T>, h: History<T>, failed: bool)
    requires Accounted(s, h) && Enabled(s, Finish(failed))
    ensures Accounted(Next(s, Finish(failed)), Observe(h, s, Finish(failed)))
  {
  }

  lemma NothingLeftStep<T>(s: State<T>, a: Action<T>)
    requires NothingLeft(s) && Enabled(s, a)
    ensures NothingLeft(Next(s, a))
  {
  }

  /** In every run: first in, first out; conservation; and no lost wakeup. */
  lemma {:induction false} RunsKeep<T>(run: Run<T>)
    requires Legal(run)
    ensures Fifo(After(run), HistoryOf(run))
    ensures Conserved(After(run), HistoryOf(run))
    ensures Accounted(After(run), HistoryOf(run))
    ensures NothingLeft(After(run))
  {
    if run != [] {
      var before, a := run[..|run| - 1], run[|run| - 1];
      LastStep(run);
      RunsKeep(before);
      FifoStep(After(before), HistoryOf(before), a);
      ConservedStep(After(before), HistoryOf(before), a);
      AccountedStep(After(before), HistoryOf(before), a);
      NothingLeftStep(After(before), a);
      hide *;
    }
  }

  /** When Run has returned, the tasks started are exactly those accepted, in order, and
      every submitted task has been completed, is awaiting its retry or was dropped. */
  lemma ReturnedExactly<T>(run: Run<T>)
    requires Legal(run) && After(run).loop.Returned?
    ensures HistoryOf(run).started == HistoryOf(run).accepted
    ensures HistoryOf(run).submitted == HistoryOf(run).completed + After(run).retrying + HistoryOf(run).dropped
  {
    RunsKeep(run);
    var h := HistoryOf(run);
    assert h.started + [] == h.started;
  }

  /** After the return nothing is started and nothing accepted any more. */
  lemma {:induction false} ReturnIsFinal<T>(run: Run<T>, more: Run<T>)
    requires Legal(run + more) && Legal(run) && After(run).loop.Returned?
    ensures After(run + more).loop.Returned?
    ensures HistoryOf(run + more).started == HistoryOf(run).started
    ensures HistoryOf(run + more).accepted == HistoryOf(run).accepted
  {
    if more == [] {
      assert run + more == run;
    } else {
      Shorten(run, more);
      LastStep(run + more);
      hide Legal, After, HistoryOf;
      ReturnIsFinal(run, more[..|more| - 1]);
      RunsKeep(run + more[..|more| - 1]);
    }
  }

  lemma Shorten<T>(run: Run<T>, more: Run<T>)
    requires more != []
    ensures run + more != []
    ensures (run + more)[..|run + more| - 1] == run + more[..|more| - 1] && (run + more)[|run + more| - 1] == more[|more| - 1]
    ensures forall a :: a in more <==> a in more[..|more| - 1] || a == more[|more| - 1]
  {
    assert more == more[..|more| - 1] + [more[|more| - 1]];
  }

  // --------------------------------------------------------------------- after a stop

  /** No step of Run itself can be taken, though it could return. */
  predicate Blocked<T>(s: State<T>) {
    s.closing && s.loop.Waiting?
  }

  /** Setting closing without a signal can leave Run waiting. */
  lemma StopCanBlock()
    ensures Legal<int>([Check, Stop]) && Blocked(After<int>([Check, Stop]))
  {
    var none: Run<int>, checked: Run<int>, stopped: Run<int> := [], [Check], [Check, Stop];
    assert checked[..0] == none && stopped[..1] == checked;
    assert Legal(none) && After(none) == Init();
    assert Legal(checked) && After(checked).loop.Waiting?;
  }

  predicate IsPush<T>(a: Action<T>) {
    a.Push? || a.Fire?
  }

  /** Run is blocked after a stop exactly when it was waiting at the stop (or blocked
      before) and nothing was pushed since, be it only to be dropped. */
  lemma {:induction false} BlockedExactly<T>(run: Run<T>, more: Run<T>)
    requires Legal(run + more) && Legal(run) && After(run).closing
    ensures Blocked(After(run + more)) <==> Blocked(After(run)) && forall a :: a in more ==> !IsPush(a)
  {
    if more == [] {
      assert run + more == run;
    } else {
      Shorten(run, more);
      LastStep(run + more);
      hide Legal, After;
      BlockedExactly(run, more[..|more| - 1]);
      StaysClosed(run, more[..|more| - 1]);
      BlockedStep(After(run + more[..|more| - 1]), more[|more| - 1]);
      hide Next, Enabled, Blocked, IsPush;
    }
  }

  lemma BlockedStep<T>(s: State<T>, a: Action<T>)
    requires s.closing && Enabled(s, a)
    ensures Next(s, a).closing
    ensures Blocked(Next(s, a)) <==> Blocked(s) && !IsPush(a)
  {
  }

  lemma {:induction false} StaysClosed<T>(run: Run<T>, more: Run<T>)
    requires Legal(run + more) && Legal(run) && After(run).closing
    ensures After(run + more).closing
  {
    if more == [] {
      assert run + more == run;
    } else {
      Shorten(run, more);
      LastStep(run + more);
      hide Legal, After;
      StaysClosed(run, more[..|more| - 1]);
      BlockedStep(After(run + more[..|more| - 1]), more[|more| - 1]);
      hide Next, Enabled;
    }
  }

  // -------------------------------------------------------------------------- the class

  /** Steps that do not belong to Run. */
  predicate IsForeign<T>(a: Action<T>) {
    a.Push? || a.Fire? || a.Stop?
  }

  /** What others do before Run takes the lock again or its task returns, and how that
      task ends; steps that are impossible at their moment are passed over. */
  datatype Turn<T> = Turn(others: seq<Action<T>>, failed: bool)

  /** What clients push. */
  function Pushes<T>(actions: seq<Action<T>>): multiset<T> {
    if actions == [] then multiset{}
    else Pushes(actions[..|actions| - 1])
         + if actions[|actions| - 1].Push? then multiset{actions[|actions| - 1].item} else multiset{}
  }

  function AllPushes<T>(script: seq<Turn<T>>): multiset<T> {
    if script == [] then multiset{}
    else AllPushes(script[..|script| - 1]) + Pushes(script[|script| - 1].others)
  }

  ghost predicate IsQuiet<T>(turn: Turn<T>) {
    forall a :: a in turn.others ==> !IsPush(a)
  }

  lemma PushesNext<T>(actions: seq<Action<T>>, i: nat)
    requires i < |actions|
    ensures Pushes(actions[..i + 1])
         == if actions[i].Push? then Pushes(actions[..i]) + multiset{actions[i].item} else Pushes(actions[..i])
  {
    assert actions[..i + 1][..i] == actions[..i];
  }

  lemma AllPushesNext<T>(script: seq<Turn<T>>, i: nat)
    requires i < |script|
    ensures AllPushes(script[..i + 1]) == AllPushes(script[..i]) + Pushes(script[i].others)
  {
    assert script[..i + 1][..i] == script[..i];
  }

  /** The clients' pushes of the first `used` turns have been submitted. */
  ghost predicate Fed<T>(base: multiset<T>, h: History<T>, script: seq<Turn<T>>, used: nat)
    requires used <= |script|
  {
    h.submitted == base + AllPushes(script[..used])
  }

  lemma FedNext<T>(base: multiset<T>, h: History<T>, h': History<T>, script: seq<Turn<T>>, used: nat)
    requires used < |script| && Fed(base, h, script, used)
    requires h'.submitted == h.submitted + Pushes(script[used].others)
    ensures Fed(base, h', script, used + 1)
  {
    AllPushesNext(script, used);
    hide AllPushes, Pushes;
  }

  /** No task has been started or finished. */
  ghost predicate Kept<T>(h: History<T>, h': History<T>) {
    h'.started == h.started && h'.completed == h.completed && h'.failed == h.failed && |h'.accepted| >= |h.accepted|
  }

  /** Tasks end as the script says, as far as that can be told without looking at the turns
      one by one. */
  ghost predicate EndAsTold<T>(h: History<T>, h': History<T>, script: seq<Turn<T>>) {
    && ((forall k :: 0 <= k < |script| ==> script[k].failed) ==> h'.completed == h.completed)
    && ((forall k :: 0 <= k < |script| ==> !script[k].failed) ==> h'.failed == h.failed)
  }

  /** How a round of Run's loop ends. */
  datatype Round = GoesOn | StillWaiting | StillWorking | HasReturned

  /** What a step adds to the history. */
  lemma HistoryAppend<T>(run: Run<T>, a: Action<T>)
    requires Enabled(After(run), a)
    ensures HistoryOf(run + [a]) == Observe(HistoryOf(run), After(run), a)
  {
    assert (run + [a])[..|run|] == run;
  }

  class Queue<T(==)> {
    var tasks: seq<T>
    var closing: bool
    var loop: Loop<T>          // where the goroutine of Run stands
    var retrying: multiset<T>  // the timers it has started
    ghost var trace: Run<T>    // everything that has happened

    function View(): State<T>
      reads this
    {
      State(tasks, closing, loop, retrying)
    }

    ghost predicate Valid()
      reads this
    {
      Legal(trace) && View() == After(trace)
    }

    constructor ()
      ensures Valid() && trace == [] && loop.Checking?
    {
      tasks, closing, loop, retrying := [], false, Checking, multiset{};
      trace := [];
    }

    /** The fields have just been changed by step `a`. */
    ghost method Record(a: Action<T>)
      requires Legal(trace) && Enabled(After(trace), a) && View() == Next(After(trace), a)
      modifies this`trace
      ensures Valid() && trace == old(trace) + [a]
    {
      LegalAppend(trace, a);
      trace := trace + [a];
    }

    // ------------------------------------------------------------------------- others

    /** The body of Push, for a client or for a timer. */
    method Append(item: T)
      modifies this`tasks, this`loop
      ensures View() == Pushed(old(View()), item)
    {
      if !closing {
        tasks := tasks + [item];
      }
      if loop.Waiting? { // cond.Signal
        loop := Woken;
      }
    }

    /** A step of a client, a timer, or the stop goroutine. */
    method Other(a: Action<T>)
      requires Valid() && Enabled(View(), a) && IsForeign(a)
      modifies this
      ensures Valid() && trace == old(trace) + [a]
      ensures if old(loop).Waiting? then loop == (if IsPush(a) then Woken else Waiting) else loop == old(loop)
    {
      hide Legal, After;
      match a {
        case Push(item) =>
          Append(item);
        case Fire(item) =>
          retrying := retrying - multiset{item};
          Append(item);
        case Stop =>
          closing := true;
      }
      Record(a);
    }

    /** Every client's push is made; a push of anybody wakes Run. */
    method Others(turn: Turn<T>)
      requires Valid()
      modifies this
      ensures Valid() && old(trace) <= trace
      ensures if old(loop).Waiting? then loop.Waiting? || loop.Woken? else loop == old(loop)
      ensures IsQuiet(turn) ==> loop == old(loop) && HistoryOf(trace).accepted == HistoryOf(old(trace)).accepted
      ensures HistoryOf(trace).submitted == HistoryOf(old(trace)).submitted + Pushes(turn.others)
      ensures Kept(HistoryOf(old(trace)), HistoryOf(trace))
    {
      hide Legal, After, Enabled, HistoryOf, Pushes;
      var actions := turn.others;
      NoPushes(actions);
      assert actions[..|actions|] == actions;
      for i := 0 to |actions|
        invariant Valid() && old(trace) <= trace
        invariant if old(loop).Waiting? then loop.Waiting? || loop.Woken? else loop == old(loop)
        invariant IsQuiet(turn) ==> loop == old(loop) && HistoryOf(trace).accepted == HistoryOf(old(trace)).accepted
        invariant HistoryOf(trace).submitted == HistoryOf(old(trace)).submitted + Pushes(actions[..i])
        invariant Kept(HistoryOf(old(trace)), HistoryOf(trace))
      {
        var a := actions[i];
        PushesNext(actions, i);
        if IsForeign(a) && Enabled(View(), a) {
          ForeignHistory(trace, a);
          assert a in turn.others;
          Other(a);
        } else {
          PushIsForeign(View(), a);
        }
      }
    }

    lemma NoPushes(actions: seq<Action<T>>)
      ensures Pushes(actions[..0]) == multiset{}
    {
    }

    lemma PushIsForeign(s: State<T>, a: Action<T>)
      ensures a.Push? ==> IsForeign(a) && Enabled(s, a)
    {
    }

    lemma ForeignHistory(run: Run<T>, a: Action<T>)
      requires Enabled(After(run), a) && IsForeign(a)
      ensures var h, h' := HistoryOf(run), HistoryOf(run + [a]);
              && h'.started == h.started && h'.completed == h.completed && h'.failed == h.failed
              && h'.submitted == (if a.Push? then h.submitted + multiset{a.item} else h.submitted)
              && |h'.accepted| >= |h.accepted| && (!IsPush(a) ==> h'.accepted == h.accepted)
    {
      HistoryAppend(run, a);
      hide HistoryOf, After;
    }

    // ---------------------------------------------------------------------------- Run

    /** Waiting changes nothing in the history, and nothing else. */
    lemma WaitHistory(run: Run<T>)
      requires Enabled(After(run), Check) && After(run).tasks == []
      ensures HistoryOf(run + [Check]) == HistoryOf(run)
    {
      HistoryAppend(run, Check);
      hide HistoryOf, After;
    }

    /** The inner loop, with the lock: cond.Wait releases it until a signal.  It gives up only
        at the end of the script, and from `quiet` on, where nobody pushes, it can only go on
        without waiting. */
    method AwaitWork(script: seq<Turn<T>>, next: nat, ghost quiet: nat, ghost base: multiset<T>) returns (next': nat, ready: bool)
      requires Valid() && loop.Checking? && next <= |script| && Fed(base, HistoryOf(trace), script, next)
      requires forall k :: quiet <= k < |script| ==> IsQuiet(script[k])
      modifies this
      ensures Valid() && old(trace) <= trace && next <= next' <= |script|
      ensures if ready then (loop.Checking? || loop.Woken?) && (closing || tasks != []) else loop.Waiting? && next' == |script|
      ensures ready ==> next' == next || next' <= quiet
      ensures Fed(base, HistoryOf(trace), script, next')
      ensures Kept(HistoryOf(old(trace)), HistoryOf(trace))
    {
      hide Legal, After, HistoryOf, AllPushes, IsQuiet;
      next' := next;
      while !closing && |tasks| == 0
        invariant Valid() && old(trace) <= trace && next <= next' <= |script|
        invariant loop.Checking? || loop.Woken?
        invariant next' == next || next' <= quiet
        invariant Fed(base, HistoryOf(trace), script, next')
        invariant Kept(HistoryOf(old(trace)), HistoryOf(trace))
        decreases |script| - next'
      {
        next', ready := Wait(script, next', quiet, base);
        if !ready {
          return;
        }
      }
      ready := true;
    }

    /** cond.Wait. */
    method Wait(script: seq<Turn<T>>, next: nat, ghost quiet: nat, ghost base: multiset<T>) returns (next': nat, woken: bool)
      requires Valid() && (loop.Checking? || loop.Woken?) && !closing && tasks == [] && next <= |script|
      requires Fed(base, HistoryOf(trace), script, next)
      requires forall k :: quiet <= k < |script| ==> IsQuiet(script[k])
      modifies this
      ensures Valid() && old(trace) <= trace && next <= next' <= |script|
      ensures if woken then loop.Woken? && next < next' <= quiet else loop.Waiting? && next' == |script|
      ensures Fed(base, HistoryOf(trace), script, next')
      ensures Kept(HistoryOf(old(trace)), HistoryOf(trace))
    {
      hide Legal, After, HistoryOf, AllPushes, IsQuiet, Pushes;
      WaitHistory(trace);
      loop := Waiting;
      Record(Check);
      next' := next;
      while loop.Waiting?
        invariant Valid() && old(trace) <= trace && next <= next' <= |script|
        invariant loop.Waiting? || (loop.Woken? && next < next' <= quiet)
        invariant Fed(base, HistoryOf(trace), script, next')
        invariant Kept(HistoryOf(old(trace)), HistoryOf(trace))
        decreases |script| - next'
      {
        if next' == |script| {
          return next', false;
        }
        ghost var h := HistoryOf(trace);
        Others(script[next']);
        FedNext(base, h, HistoryOf(trace), script, next');
        next' := next' + 1;
      }
      woken := true;
    }

    /** Run.  When it has returned, the tasks started are exactly those accepted, in order,
        and every submitted task is completed, awaiting its retry, or dropped.  Otherwise it
        has gone on to the end of the script.  Every push of the script is made.  And
        whatever fails, it gets through its work: if nobody pushes from turn `quiet` on and
        the script has more than two further turns for every task accepted, all are started. */
    method Run(script: seq<Turn<T>>, ghost quiet: nat) returns (returned: bool, used: nat)
      requires Valid() && loop.Checking? && quiet <= |script|
      requires forall k :: quiet <= k < |script| ==> IsQuiet(script[k])
      modifies this
      ensures Valid() && old(trace) <= trace && used <= |script|
      ensures returned <==> loop.Returned?
      ensures !returned ==> used == |script|
      ensures returned ==> closing && tasks == []
      ensures returned ==> HistoryOf(trace).started == HistoryOf(trace).accepted
      ensures returned ==> HistoryOf(trace).submitted == HistoryOf(trace).completed + retrying + HistoryOf(trace).dropped
      ensures HistoryOf(trace).submitted == HistoryOf(old(trace)).submitted + AllPushes(script[..used])
      ensures |script| > quiet + 2 * |HistoryOf(trace).accepted| ==> HistoryOf(trace).started == HistoryOf(trace).accepted
      ensures (forall k :: 0 <= k < |script| ==> script[k].failed) ==> HistoryOf(trace).completed == HistoryOf(old(trace)).completed
      ensures (forall k :: 0 <= k < |script| ==> !script[k].failed) ==> HistoryOf(trace).failed == HistoryOf(old(trace)).failed
    {
      hide Legal, After, HistoryOf, IsQuiet, Fed, EndAsTold;
      ghost var h, base := HistoryOf(trace), HistoryOf(trace).submitted;
      used := 0;
      FedFromNothing(h, script);
      var round := GoesOn;
      while used < |script|
        invariant Valid() && old(trace) <= trace && loop.Checking? && used <= |script|
        invariant used <= quiet + 2 * |HistoryOf(trace).started|
        invariant Fed(base, HistoryOf(trace), script, used) && EndAsTold(h, HistoryOf(trace), script)
        decreases |script| - used
      {
        ghost var before := HistoryOf(trace);
        used, round := RunRound(script, used, quiet, base);
        EndTwice(h, before, HistoryOf(trace), script);
        if round != GoesOn {
          FedMeans(base, h, HistoryOf(trace), script, used);
          return round == HasReturned, used;
        }
      }
      StartedAreAccepted(trace);
      FedMeans(base, h, HistoryOf(trace), script, used);
      returned := false;
    }

    lemma FedFromNothing(h: History<T>, script: seq<Turn<T>>)
      ensures Fed(h.submitted, h, script, 0) && EndAsTold(h, h, script)
    {
    }

    lemma EndTwice(h0: History<T>, h1: History<T>, h2: History<T>, script: seq<Turn<T>>)
      requires EndAsTold(h0, h1, script) && EndAsTold(h1, h2, script)
      ensures EndAsTold(h0, h2, script)
    {
    }

    lemma FedMeans(base: multiset<T>, h0: History<T>, h: History<T>, script: seq<Turn<T>>, used: nat)
      requires used <= |script| && Fed(base, h, script, used) && EndAsTold(h0, h, script)
      ensures h.submitted == base + AllPushes(script[..used])
      ensures (forall k :: 0 <= k < |script| ==> script[k].failed) ==> h.completed == h0.completed
      ensures (forall k :: 0 <= k < |script| ==> !script[k].failed) ==> h.failed == h0.failed
    {
    }

    /** The body of the loop. */
    method RunRound(script: seq<Turn<T>>, used: nat, ghost quiet: nat, ghost base: multiset<T>) returns (used': nat, round: Round)
      requires Valid() && loop.Checking? && used < |script| && used <= quiet + 2 * |HistoryOf(trace).started|
      requires Fed(base, HistoryOf(trace), script, used)
      requires forall k :: quiet <= k < |script| ==> IsQuiet(script[k])
      modifies this
      ensures Valid() && old(trace) <= trace && used < used' <= |script|
      ensures Fed(base, HistoryOf(trace), script, used')
      ensures EndAsTold(HistoryOf(old(trace)), HistoryOf(trace), script)
      ensures round.HasReturned? <==> loop.Returned?
      ensures match round
              case GoesOn => loop.Checking? && used' <= quiet + 2 * |HistoryOf(trace).started|
              case StillWaiting => used' == |script| && HistoryOf(trace).started == HistoryOf(trace).accepted
              case StillWorking => used' == |script| <= quiet + 2 * |HistoryOf(trace).accepted|
              case HasReturned =>
                && closing && tasks == [] && HistoryOf(trace).started == HistoryOf(trace).accepted
                && HistoryOf(trace).submitted == HistoryOf(trace).completed + retrying + HistoryOf(trace).dropped
    {
      hide Legal, After, HistoryOf, IsQuiet, Fed, AllPushes, Pushes;
      ghost var h := HistoryOf(trace);
      Others(script[used]);
      FedNext(base, h, HistoryOf(trace), script, used);
      var ready;
      used', ready := AwaitWork(script, used + 1, quiet, base);
      if !ready {
        WaitsForNothing(trace);
        return used', StillWaiting;
      }
      ghost var h1 := HistoryOf(trace);
      if |tasks| == 0 {
        WaitHistory(trace);
        loop := Returned;
        Record(Check);
        ReturnedExactly(trace);
        return used', HasReturned;
      }
      Take();
      FedSame(base, h1, HistoryOf(trace), script, used');
      if used' == |script| {
        StartedAreAccepted(trace);
        return used', StillWorking;
      }
      ghost var h2 := HistoryOf(trace);
      Others(script[used']);
      FedNext(base, h2, HistoryOf(trace), script, used');
      ghost var h3 := HistoryOf(trace);
      FinishTask(script[used'].failed);
      used' := used' + 1;
      FedSame(base, h3, HistoryOf(trace), script, used');
      round := GoesOn;
    }

    lemma FedSame(base: multiset<T>, h: History<T>, h': History<T>, script: seq<Turn<T>>, used: nat)
      requires used <= |script| && Fed(base, h, script, used) && h'.submitted == h.submitted
      ensures Fed(base, h', script, used)
    {
    }

    method Take()
      requires Valid() && (loop.Checking? || loop.Woken?) && tasks != []
      modifies this
      ensures Valid() && trace == old(trace) + [Check] && loop.Working?
      ensures HistoryOf(trace) == HistoryOf(old(trace)).(started := HistoryOf(old(trace)).started + [old(tasks)[0]])
    {
      HistoryAppend(trace, Check);
      hide Legal, After, HistoryOf;
      var task := tasks[0];
      tasks := tasks[1..];
      loop := Working(task);
      Record(Check);
    }

    /** The task has returned; if it failed, a timer will push it again. */
    method FinishTask(failed: bool)
      requires Valid() && loop.Working?
      modifies this
      ensures Valid() && trace == old(trace) + [Finish(failed)] && loop.Checking?
      ensures var h, task := HistoryOf(old(trace)), old(loop).task;
              HistoryOf(trace) == if failed then h.(failed := h.failed + multiset{task}) else h.(completed := h.completed + multiset{task})
    {
      HistoryAppend(trace, Finish(failed));
      hide Legal, After, HistoryOf;
      if failed {
        retrying := retrying + multiset{loop.task};
      }
      loop := Checking;
      Record(Finish(failed));
    }

    lemma NoTurns(script: seq<Turn<T>>)
      ensures AllPushes(script[..0]) == multiset{}
    {
    }

    lemma WaitsForNothing(run: Run<T>)
      requires Legal(run) && After(run).loop.Waiting?
      ensures HistoryOf(run).started == HistoryOf(run).accepted
    {
      RunsKeep(run);
      assert HistoryOf(run).started + [] == HistoryOf(run).started;
    }

    lemma StartedAreAccepted(run: Run<T>)
      requires Legal(run)
      ensures |HistoryOf(run).started| <= |HistoryOf(run).accepted|
    {
      RunsKeep(run);
    }
  }

  lemma LegalAppend<T>(run: Run<T>, a: Action<T>)
    requires Legal(run) && Enabled(After(run), a)
    ensures Legal(run + [a]) && After(run + [a]) == Next(After(run), a)
  {
    assert (run + [a])[..|run|] == run;
  }
}
