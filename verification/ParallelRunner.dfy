/**
 The bounded parallel runner as a concurrent state machine: one runner goroutine that pops tasks and
 hands them to a pool of five workers, an unbuffered error channel that the runner reads only after
 the last hand-over, a wait group, and a goroutine that closes the channel when the group is empty.

 Every step below is one atomic action of one goroutine; any enabled step may come next.
 */
module ParallelRunner {
  import opened Basics

  const POOL: nat := 5

  /** Where a task is: in the list, counted by the wait group, in a worker, or gone. */
  datatype Status =
    | Listed      // still in p.list
    | Added       // popped, wg.Add(1) done, Invoke not yet accepted
    | Executing   // the function runs in a pool worker
    | Sending     // it failed; the worker is blocked on errChan <- err
    | Sent        // the error was received; the deferred wg.Done is still to come
    | Returned    // wg.Done happened; the worker still holds its pool slot
    | Freed       // the slot is free again

  /** Where the runner goroutine is. */
  datatype Phase =
    | Popping     // about to pop
    | Invoking    // blocked in cp.Invoke until a slot is free
    | Selecting   // the select on ctx.Done after a hand-over
    | Draining    // ranging over errChan; the closer goroutine exists
    | Finished    // the range ended: the error handler has run and Wait returns
    | Cancelled   // left early through ctx.Done

  datatype State = State(
    fails: seq<bool>,        // which tasks return an error
    status: seq<Status>,
    next: nat,               // tasks popped so far
    phase: Phase,
    wg: int,
    closed: bool,
    errs: seq<nat>,          // tasks whose error was received, in order
    started: seq<nat>)       // tasks handed to a worker, in order

  function Init(fails: seq<bool>): State {
    State(fails, seq(|fails|, i => Listed), 0, Popping, 0, false, [], [])
  }

  predicate InPool(t: Status) {
    t.Executing? || t.Sending? || t.Sent? || t.Returned?
  }

  predicate Counted(t: Status) {
    t.Added? || t.Executing? || t.Sending? || t.Sent?
  }

  ghost function Busy(s: State): set<nat> {
    set i | 0 <= i < |s.status| && InPool(s.status[i])
  }

  ghost function Active(s: State): set<nat> {
    set i | 0 <= i < |s.status| && Counted(s.status[i])
  }

  datatype Step =
    | Pop | PopEmpty | Invoke | NotCancelled | Cancel
    | Succeed(task: nat) | Fail(task: nat) | Receive(task: nat) | Done(task: nat) | Free(task: nat)
    | Close | Finish

  predicate At(s: State, i: nat, t: Status) {
    i < |s.status| && s.status[i] == t
  }

  /** The guard of each step. */
  ghost predicate Enabled(s: State, step: Step) {
    match step
    case Pop => s.phase.Popping? && s.next < |s.status|
    case PopEmpty => s.phase.Popping? && s.next >= |s.status|
    case Invoke => s.phase.Invoking? && |Busy(s)| < POOL
    case NotCancelled => s.phase.Selecting?
    case Cancel => s.phase.Selecting?
    case Succeed(i) => At(s, i, Executing) && i < |s.fails| && !s.fails[i]
    case Fail(i) => At(s, i, Executing) && i < |s.fails| && s.fails[i]
    case Receive(i) => s.phase.Draining? && At(s, i, Sending)
    case Done(i) => At(s, i, Sent)
    case Free(i) => At(s, i, Returned)
    case Close => s.phase.Draining? && !s.closed && s.wg == 0
    case Finish => s.phase.Draining? && s.closed
  }

  function Set(s: State, i: nat, t: Status): State {
    if i < |s.status| then s.(status := s.status[i := t]) else s
  }

  /** What each step does. */
  function Apply(s: State, step: Step): State {
    match step
    case Pop => Set(s, s.next, Added).(phase := Invoking, wg := s.wg + 1, next := s.next + 1)
    case PopEmpty => s.(phase := Draining)
    case Invoke => if s.next == 0 then s
            else Set(s, s.next - 1, Executing).(phase := Selecting, started := s.started + [s.next - 1])
    case NotCancelled => s.(phase := Popping)
    case Cancel => s.(phase := Cancelled)
    case Succeed(i) => Set(s, i, Returned).(wg := s.wg - 1)
    case Fail(i) => Set(s, i, Sending)
    case Receive(i) => Set(s, i, Sent).(errs := s.errs + [i])
    case Done(i) => Set(s, i, Returned).(wg := s.wg - 1)
    case Free(i) => Set(s, i, Freed)
    case Close => s.(closed := true)
    case Finish => s.(phase := Finished)
  }

  ghost predicate Next(s: State, s': State) {
    exists step :: Enabled(s, step) && s' == Apply(s, step)
  }

  /** A run starts in a state and goes on step by step. */
  datatype Run = Start(state: State) | Then(before: Run, state: State)

  ghost predicate IsRun(run: Run, fails: seq<bool>) {
    match run
    case Start(s) => s == Init(fails)
    case Then(before, s) => IsRun(before, fails) && Next(before.state, s)
  }

  /** The number of steps. */
  function Length(run: Run): nat {
    match run
    case Start(_) => 0
    case Then(before, _) => Length(before) + 1
  }

  // ---------- the invariant ----------

  ghost function FailingBefore(fails: seq<bool>, k: int): set<nat> {
    set i: nat | i < k && i < |fails| && fails[i]
  }

  /** Fewer than five of the tasks before the last one fail. */
  ghost predicate NeverClogs(fails: seq<bool>) {
    |FailingBefore(fails, |fails| - 1)| < POOL
  }

  /** Which tasks the error list must hold: the failing ones whose error was received. */
  predicate Reported(s: State, i: nat)
    requires |s.fails| == |s.status|
  {
    i < |s.status| && s.fails[i] && (s.status[i].Sent? || s.status[i].Returned? || s.status[i].Freed?)
  }

  ghost predicate Inv(s: State) {
    PhaseInv(s) && TasksInv(s) && CountsInv(s) && ErrorsInv(s) && HandOverInv(s)
  }

  ghost predicate PhaseInv(s: State) {
    && |s.fails| == |s.status| && s.next <= |s.status|
    && (s.phase.Invoking? ==> s.next > 0 && s.status[s.next - 1] == Added)
    && (s.phase.Selecting? ==> s.next > 0)
    && (s.phase.Draining? || s.phase.Finished? ==> s.next == |s.status|)
    && (s.phase.Finished? ==> s.closed)
    && (s.closed ==> s.wg == 0 && (s.phase.Draining? || s.phase.Finished?))
  }

  /** Popped tasks are no longer listed, and only the one being invoked is still outside the pool. */
  ghost predicate TasksInv(s: State)
    requires PhaseInv(s)
  {
    && (forall i :: 0 <= i < |s.status| ==> (s.status[i].Listed? <==> s.next <= i))
    && (forall i :: 0 <= i < |s.status| && s.status[i].Added? ==> s.phase.Invoking? && i == s.next - 1)
    && (forall i :: 0 <= i < |s.status| && (s.status[i].Sending? || s.status[i].Sent?) ==> s.fails[i])
  }

  /** The wait group counts the active tasks, and the pool is respected. */
  ghost predicate CountsInv(s: State) {
    s.wg == |Active(s)| && |Busy(s)| <= POOL
  }

  /** The errors are those of the reported tasks, each once, and none is received before draining. */
  ghost predicate ErrorsInv(s: State)
    requires PhaseInv(s)
  {
    && (forall i: nat :: i in s.errs <==> Reported(s, i))
    && (forall i, j :: 0 <= i < j < |s.errs| ==> s.errs[i] != s.errs[j])
    && (s.errs != [] ==> s.phase.Draining? || s.phase.Finished?)
  }

  /** The popped tasks were handed over in order, each once; the last one only if a slot was left for it. */
  ghost predicate HandOverInv(s: State) {
    && |s.started| == (if s.phase.Invoking? then s.next - 1 else s.next)
    && (forall i :: 0 <= i < |s.started| ==> s.started[i] == i)
    && (s.next == |s.status| && !s.phase.Invoking? ==> NeverClogs(s.fails))
  }

  /** Moving one task between states moves it in or out of the two counted sets. */
  lemma SetCounts(s: State, i: nat, t: Status)
    requires i < |s.status|
    ensures Busy(Set(s, i, t)) == if InPool(t) then Busy(s) + {i} else Busy(s) - {i}
    ensures Active(Set(s, i, t)) == if Counted(t) then Active(s) + {i} else Active(s) - {i}
  {
  }

  lemma PhaseCounts(s: State, s': State)
    requires s.status == s'.status
    ensures Busy(s) == Busy(s') && Active(s) == Active(s')
  {
  }

  /** The effect on the counts of moving one task, whatever else a step changes. */
  lemma CountsOfMove(s: State, i: nat, t: Status, s': State)
    requires i < |s.status| && s'.status == s.status[i := t]
    ensures |Active(s')| == |Active(s)| + (if Counted(t) then 1 else 0) - (if Counted(s.status[i]) then 1 else 0)
    ensures |Busy(s')| == |Busy(s)| + (if InPool(t) then 1 else 0) - (if InPool(s.status[i]) then 1 else 0)
  {
    SetCounts(s, i, t);
    PhaseCounts(Set(s, i, t), s');
    PutOrRemove(Active(s), i);
    PutOrRemove(Busy(s), i);
  }

  lemma PutOrRemove(a: set<nat>, i: nat)
    ensures |a + {i}| == |a| + (if i in a then 0 else 1)
    ensures |a - {i}| == |a| - (if i in a then 1 else 0)
  {
    assert i in a ==> a + {i} == a;
    assert i !in a ==> a - {i} == a;
  }

  lemma InitInv(fails: seq<bool>)
    ensures Inv(Init(fails))
  {
    var s := Init(fails);
    assert Active(s) == {} && Busy(s) == {};
    if fails == [] {
      assert FailingBefore(fails, -1) == {};
    }
  }

  /** As long as nothing is received, every failing task that was handed over holds a pool slot. */
  lemma FailingHoldSlots(s: State)
    requires Inv(s) && s.phase.Invoking?
    ensures FailingBefore(s.fails, s.next - 1) <= Busy(s)
  {
    forall i | i in FailingBefore(s.fails, s.next - 1) ensures i in Busy(s) {
      assert !Reported(s, i);
    }
  }

  lemma PhaseKept(s: State, step: Step)
    requires Inv(s) && Enabled(s, step)
    ensures PhaseInv(Apply(s, step))
  {
    match step
    case Succeed(i) => assert i in Active(s);
    case Done(i) => assert i in Active(s);
    case _ =>
  }

  /** Moving a popped task that is in a worker keeps what is known about the others. */
  lemma MoveKeepsTasks(s: State, i: nat, t: Status, s': State)
    requires PhaseInv(s) && TasksInv(s) && PhaseInv(s')
    requires i < |s.status| && InPool(s.status[i]) && s' == Set(s, i, t).(wg := s'.wg, errs := s'.errs)
    requires !t.Listed? && !t.Added? && (t.Sending? || t.Sent? ==> s.fails[i])
    ensures TasksInv(s')
  {
  }

  lemma TasksKept(s: State, step: Step)
    requires Inv(s) && Enabled(s, step) && PhaseInv(Apply(s, step))
    ensures TasksInv(Apply(s, step))
  {
    match step
    case Succeed(i) => MoveKeepsTasks(s, i, Returned, Apply(s, step));
    case Fail(i) => MoveKeepsTasks(s, i, Sending, Apply(s, step));
    case Receive(i) => MoveKeepsTasks(s, i, Sent, Apply(s, step));
    case Done(i) => MoveKeepsTasks(s, i, Returned, Apply(s, step));
    case Free(i) => MoveKeepsTasks(s, i, Freed, Apply(s, step));
    case _ =>
  }

  lemma CountsKept(s: State, step: Step)
    requires Inv(s) && Enabled(s, step)
    ensures CountsInv(Apply(s, step))
  {
    match step
    case Pop => CountsOfMove(s, s.next, Added, Apply(s, step));
    case Invoke => CountsOfMove(s, s.next - 1, Executing, Apply(s, step));
    case Succeed(i) => CountsOfMove(s, i, Returned, Apply(s, step));
    case Fail(i) => CountsOfMove(s, i, Sending, Apply(s, step));
    case Receive(i) => CountsOfMove(s, i, Sent, Apply(s, step));
    case Done(i) => CountsOfMove(s, i, Returned, Apply(s, step));
    case Free(i) => CountsOfMove(s, i, Freed, Apply(s, step));
    case _ => PhaseCounts(s, Apply(s, step));
  }

  lemma ReceiveKeepsErrors(s: State, task: nat)
    requires Inv(s) && Enabled(s, Receive(task)) && PhaseInv(Apply(s, Receive(task)))
    ensures ErrorsInv(Apply(s, Receive(task)))
  {
    var s' := Apply(s, Receive(task));
    assert !Reported(s, task);
    forall i: nat ensures i in s'.errs <==> Reported(s', i) {
      assert i in s.errs <==> Reported(s, i);
    }
  }

  lemma ErrorsKept(s: State, step: Step)
    requires Inv(s) && Enabled(s, step) && PhaseInv(Apply(s, step))
    ensures ErrorsInv(Apply(s, step))
  {
    if step.Receive? {
      ReceiveKeepsErrors(s, step.task);
    } else {
      SameReports(s, step);
    }
  }

  lemma SameReports(s: State, step: Step)
    requires Inv(s) && Enabled(s, step) && PhaseInv(Apply(s, step)) && !step.Receive?
    ensures forall i: nat :: Reported(Apply(s, step), i) <==> Reported(s, i)
  {
  }

  lemma HandOverKept(s: State, step: Step)
    requires Inv(s) && Enabled(s, step)
    ensures HandOverInv(Apply(s, step))
  {
    if step == Invoke {
      FailingHoldSlots(s);
      SubsetSize(FailingBefore(s.fails, s.next - 1), Busy(s));
    }
  }

  lemma StepKeepsInv(s: State, step: Step)
    requires Inv(s) && Enabled(s, step)
    ensures Inv(Apply(s, step))
  {
    PhaseKept(s, step);
    TasksKept(s, step);
    CountsKept(s, step);
    ErrorsKept(s, step);
    HandOverKept(s, step);
  }

  // ---------- progress and termination ----------

  function Rank(t: Status): nat {
    match t
    case Listed => 0
    case Added => 1
    case Executing => 2
    case Sending => 3
    case Sent => 4
    case Returned => 5
    case Freed => 6
  }

  function Work(status: seq<Status>): nat {
    if status == [] then 0 else 6 - Rank(status[|status| - 1]) + Work(status[..|status| - 1])
  }

  function PhaseRank(s: State): nat {
    match s.phase
    case Selecting => 5
    case Popping => 4
    case Invoking => 4
    case Draining => if s.closed then 2 else 3
    case Finished => 1
    case Cancelled => 0
  }

  /** Bounds the number of steps still to come. */
  function Measure(s: State): nat {
    8 * Work(s.status) + PhaseRank(s)
  }

  lemma {:induction false} WorkUpdate(status: seq<Status>, i: nat, t: Status)
    requires i < |status|
    ensures Work(status[i := t]) == Work(status) + Rank(status[i]) - Rank(t)
  {
    var n := |status| - 1;
    if i < n {
      WorkUpdate(status[..n], i, t);
      assert status[i := t][..n] == status[..n][i := t];
    } else {
      assert status[i := t][..n] == status[..n];
    }
  }

  lemma MoveDecreases(s: State, i: nat, t: Status, s': State)
    requires i < |s.status| && s'.status == s.status[i := t] && Rank(s.status[i]) < Rank(t)
    ensures Measure(s') < Measure(s)
  {
    WorkUpdate(s.status, i, t);
  }

  /** Every step brings the end closer, so no run goes on for ever. */
  lemma StepDecreases(s: State, step: Step)
    requires Inv(s) && Enabled(s, step)
    ensures Measure(Apply(s, step)) < Measure(s)
  {
    var s' := Apply(s, step);
    match step
    case Pop => MoveDecreases(s, s.next, Added, s');
    case Invoke => MoveDecreases(s, s.next - 1, Executing, s');
    case Succeed(i) => MoveDecreases(s, i, Returned, s');
    case Fail(i) => MoveDecreases(s, i, Sending, s');
    case Receive(i) => MoveDecreases(s, i, Sent, s');
    case Done(i) => MoveDecreases(s, i, Returned, s');
    case Free(i) => MoveDecreases(s, i, Freed, s');
    case _ => assert s'.status == s.status;
  }

  /** The step some goroutine can take next, other than noticing a cancellation. */
  lemma SomeStepEnabled(s: State) returns (step: Step)
    requires Inv(s) && !s.phase.Finished? && !s.phase.Cancelled? && NeverClogs(s.fails)
    ensures Enabled(s, step) && step != Cancel
  {
    match s.phase
    case Popping => step := if s.next < |s.status| then Pop else PopEmpty;
    case Selecting => step := NotCancelled;
    case Invoking =>
      if |Busy(s)| < POOL {
        step := Invoke;
      } else {
        if Busy(s) <= FailingBefore(s.fails, |s.fails| - 1) {
          SubsetSize(Busy(s), FailingBefore(s.fails, |s.fails| - 1));
          assert false;
        }
        var i :| i in Busy(s) && i !in FailingBefore(s.fails, |s.fails| - 1);
        assert i != s.next - 1;
        step := if s.status[i].Executing? then Succeed(i) else Free(i);
      }
    case Draining =>
      if s.closed {
        step := Finish;
      } else if s.wg == 0 {
        step := Close;
      } else {
        assert Active(s) != {};
        var i :| i in Active(s);
        step := if s.status[i].Executing? then (if s.fails[i] then Fail(i) else Succeed(i))
                else if s.status[i].Sending? then Receive(i)
                else Done(i);
      }
    case _ =>
      assert false;
  }

  // ---------- what holds in every run ----------

  lemma {:induction false} RunInv(run: Run, fails: seq<bool>)
    requires IsRun(run, fails)
    ensures Inv(run.state) && run.state.fails == fails
    ensures Length(run) + Measure(run.state) <= Measure(Init(fails))
  {
    match run
    case Start(_) => InitInv(fails);
    case Then(before, s) =>
      RunInv(before, fails);
      var step :| Enabled(before.state, step) && s == Apply(before.state, step);
      StepKeepsInv(before.state, step);
      StepDecreases(before.state, step);
  }

  /** Every run is finite: it has at most 48 steps per task and a few for the runner. */
  lemma RunsAreBounded(run: Run, fails: seq<bool>)
    requires IsRun(run, fails)
    ensures Length(run) <= 48 * |fails| + 4
  {
    RunInv(run, fails);
    InitialWork(|fails|);
  }

  lemma {:induction false} InitialWork(n: nat)
    ensures Work(seq(n, i => Listed)) == 6 * n
  {
    if n > 0 {
      InitialWork(n - 1);
      assert seq(n, i => Listed)[..n - 1] == seq(n - 1, i => Listed);
    }
  }

  /** Once the channel is closed nobody sends on it, nor will: in every run, cancelled or not. */
  lemma NoSendAfterClose(run: Run, fails: seq<bool>)
    requires IsRun(run, fails) && run.state.closed
    ensures forall i :: !At(run.state, i, Sending) && !Enabled(run.state, Fail(i)) && !Enabled(run.state, Receive(i))
    ensures forall s :: Next(run.state, s) ==> s.closed
  {
    RunInv(run, fails);
    var s := run.state;
    forall i: nat ensures !At(s, i, Sending) && !At(s, i, Executing) {
      assert i !in Active(s);
    }
  }

  /** At most five tasks are in the pool at any time. */
  lemma PoolIsBounded(run: Run, fails: seq<bool>)
    requires IsRun(run, fails)
    ensures |Busy(run.state)| <= 5
  {
    RunInv(run, fails);
  }

  /**
   When the runner finishes, every task has run exactly once and the errors are exactly those of the
   failing tasks.
   */
  lemma FinishedMeansAllDone(run: Run, fails: seq<bool>)
    requires IsRun(run, fails) && run.state.phase.Finished?
    ensures var s := run.state;
            && |s.status| == |fails| && s.started == seq(|fails|, i => i)
            && (forall i: nat :: i in s.errs <==> i < |fails| && fails[i])
            && (forall i, j :: 0 <= i < j < |s.errs| ==> s.errs[i] != s.errs[j])
            && (forall i :: 0 <= i < |fails| ==> s.status[i].Returned? || s.status[i].Freed?)
  {
    RunInv(run, fails);
    var s := run.state;
    forall i: nat | i < |fails| ensures s.status[i].Returned? || s.status[i].Freed? {
      assert i !in Active(s);
    }
    assert forall i: nat :: i in s.errs <==> Reported(s, i);
  }

  /** With fewer than five failing tasks before the last one, no uncancelled run is ever stuck. */
  lemma NeverStuck(run: Run, fails: seq<bool>) returns (step: Step)
    requires IsRun(run, fails) && NeverClogs(fails)
    requires !run.state.phase.Finished? && !run.state.phase.Cancelled?
    ensures Enabled(run.state, step) && step != Cancel
  {
    RunInv(run, fails);
    step := SomeStepEnabled(run.state);
  }

  /** Some run of these tasks finishes. */
  ghost predicate CanFinish(fails: seq<bool>) {
    exists run :: IsRun(run, fails) && run.state.phase.Finished?
  }

  /**
   The exact condition: the runner can finish if and only if fewer than five of the tasks before the
   last one fail. Otherwise five failing workers wait for a reader that never comes.
   */
  lemma FinishesIff(fails: seq<bool>)
    ensures CanFinish(fails) <==> |set i: nat | i < |fails| - 1 && fails[i]| < 5
    ensures CanFinish(fails) <==> NeverClogs(fails)
  {
    assert FailingBefore(fails, |fails| - 1) == set i: nat | i < |fails| - 1 && fails[i];
    if NeverClogs(fails) {
      var run := Start(Init(fails));
      RunInv(run, fails);
      while !run.state.phase.Finished?
        invariant IsRun(run, fails) && !run.state.phase.Cancelled?
        decreases Measure(run.state)
      {
        var step := NeverStuck(run, fails);
        RunInv(run, fails);
        StepDecreases(run.state, step);
        var s := Apply(run.state, step);
        assert Next(run.state, s);
        run := Then(run, s);
      }
    }
    if run :| IsRun(run, fails) && run.state.phase.Finished? {
      RunInv(run, fails);
    }
  }

  /** With five or more, every uncancelled run that can go no further is stuck before the drain. */
  lemma CloggedRunsGetStuck(run: Run, fails: seq<bool>)
    requires IsRun(run, fails) && !NeverClogs(fails) && !run.state.phase.Cancelled?
    requires forall step :: !Enabled(run.state, step)
    ensures run.state.phase.Invoking? && |Busy(run.state)| == POOL
    ensures forall i :: i in Busy(run.state) ==> At(run.state, i, Sending)
  {
    RunInv(run, fails);
    StuckPhase(run.state);
    StuckTasks(run.state);
  }

  lemma StuckPhase(s: State)
    requires Inv(s) && !NeverClogs(s.fails) && !s.phase.Cancelled?
    requires forall step :: !Enabled(s, step)
    ensures s.phase.Invoking? && |Busy(s)| == POOL
  {
    assert !Enabled(s, Pop) && !Enabled(s, PopEmpty) && !Enabled(s, NotCancelled) && !Enabled(s, Invoke);
  }

  lemma StuckTasks(s: State)
    requires Inv(s) && forall step :: !Enabled(s, step)
    ensures forall i :: i in Busy(s) ==> At(s, i, Sending)
  {
    forall i | i in Busy(s) ensures At(s, i, Sending) {
      assert !Enabled(s, Succeed(i)) && !Enabled(s, Fail(i)) && !Enabled(s, Done(i)) && !Enabled(s, Free(i));
    }
  }

  /** All lists of n tasks are safe, whatever fails, if and only if there are at most five. */
  lemma SafeForAllIff(n: nat)
    ensures (forall fails: seq<bool> | |fails| == n :: CanFinish(fails)) <==> n <= 5
  {
    if n <= 5 {
      forall fails: seq<bool> | |fails| == n ensures CanFinish(fails) {
        FiveTasksNeverClog(fails);
        FinishesIff(fails);
      }
    } else {
      var fails := seq(n, i => true);
      AllFail(fails, n - 1);
      FinishesIff(fails);
      assert |fails| == n && !CanFinish(fails);
    }
  }

  lemma {:induction false} AllFail(fails: seq<bool>, k: nat)
    requires k <= |fails| && forall i :: 0 <= i < k ==> fails[i]
    ensures |FailingBefore(fails, k)| == k
  {
    if k > 0 {
      AllFail(fails, k - 1);
      assert FailingBefore(fails, k) == FailingBefore(fails, k - 1) + {k - 1};
    }
  }

  /** Five tasks at most never clog, whatever fails (the use in the token loader). */
  lemma FiveTasksNeverClog(fails: seq<bool>)
    requires |fails| <= POOL
    ensures NeverClogs(fails)
  {
    var before := FailingBefore(fails, |fails| - 1);
    BoundedSize(before, if |fails| == 0 then 0 else |fails| - 1);
  }

  lemma {:induction false} BoundedSize(s: set<nat>, n: nat)
    requires forall i :: i in s ==> i < n
    ensures |s| <= n
  {
    if n == 0 {
      assert s == {};
    } else {
      BoundedSize(s - {n - 1}, n - 1);
    }
  }
}