/**
 The closed-loop measurement: a main thread starts workers, sets the deadline and meets them
 at a barrier; a worker that fails records its error and breaks the barrier.  Threads
 interleave at every atomic step, and the clock passes the deadline at any time after it is set.
 */
module ClosedLoop {
  import opened Prelude

  /** A barrier that fills, drains after the last arrival, and may be broken at any time. */
  datatype Barrier = Filling | Draining | Broken

  datatype Error = Genuine(worker: nat) | Induced(worker: nat)

  datatype Worker = Starting | Waiting | Running | Failing(error: Error) | Aborting | Finished

  datatype Main = Launching(started: nat) | Arriving | AtBarrier | Joining(joined: nat) | Returned

  /**
   `inside` counts the threads inside the barrier's wait, `deadline` says whether the deadline
   has been assigned and `expired` whether it has passed, and `released` whether the barrier has
   ever been released.
   */
  datatype State = State(
    main: Main, workers: seq<Worker>, barrier: Barrier, inside: nat,
    deadline: bool, expired: bool, errors: seq<Error>, released: bool)

  function Initial(n: nat): State {
    State(Launching(0), seq(n, _ => Starting), Filling, 0, false, false, [], false)
  }

  /** `Again` is one more iteration of the serving loop. */
  datatype Choice = Fail | Go | Again

  datatype Step = MainStep | WorkerStep(i: nat, choice: Choice) | Expire

  predicate Started(s: State, i: nat) {
    i < |s.workers| && (s.main.Launching? ==> i < s.main.started)
  }

  predicate Enabled(s: State, step: Step) {
    match step
    case MainStep =>
      (match s.main
       case Launching(_) => true
       case Arriving => s.barrier != Draining
       case AtBarrier => s.barrier != Filling
       case Joining(k) => k < |s.workers| ==> s.workers[k].Finished?
       case Returned => false)
    case WorkerStep(i, choice) =>
      && Started(s, i)
      && (match s.workers[i]
          case Starting => choice.Fail? || (choice.Go? && s.barrier != Draining)
          case Waiting => choice.Go? && s.barrier != Filling
          case Running => choice.Fail? || (choice.Again? <==> !s.expired)
          case Finished => false
          case _ => choice.Go?)
    case Expire => s.deadline && !s.expired
  }

  /** A thread leaving the barrier's wait; the last one out makes a drained barrier fill again. */
  function Leave(s: State, inside: nat): State {
    s.(inside := inside, barrier := if s.barrier == Draining && inside == 0 then Filling else s.barrier)
  }

  /** Whether an arriving thread is the last party. */
  predicate LastParty(s: State) { s.inside + 1 == |s.workers| + 1 }

  function MainNext(s: State): State {
    match s.main
    case Launching(k) =>
      if k < |s.workers| then s.(main := Launching(k + 1)) else s.(main := Arriving, deadline := true)
    case Arriving =>
      if s.barrier == Broken then s.(main := Joining(0))
      else if LastParty(s) then Leave(s.(barrier := Draining, released := true, main := Joining(0)), s.inside)
      else s.(inside := s.inside + 1, main := AtBarrier)
    case AtBarrier => Leave(s.(main := Joining(0)), if s.inside == 0 then 0 else s.inside - 1)
    case Joining(k) => if k < |s.workers| then s.(main := Joining(k + 1)) else s.(main := Returned)
    case Returned => s
  }

  function WithWorker(s: State, i: nat, w: Worker): State
    requires i < |s.workers|
  {
    s.(workers := s.workers[i := w])
  }

  function WorkerNext(s: State, i: nat, choice: Choice): State
    requires i < |s.workers|
  {
    match s.workers[i]
    case Starting =>
      if choice.Fail? then WithWorker(s, i, Failing(Genuine(i)))
      else if s.barrier == Broken then WithWorker(s, i, Failing(Induced(i)))
      else if LastParty(s) then Leave(WithWorker(s, i, Running).(barrier := Draining, released := true), s.inside)
      else WithWorker(s, i, Waiting).(inside := s.inside + 1)
    case Waiting =>
      var woken := if s.barrier == Broken then Failing(Induced(i)) else Running;
      Leave(WithWorker(s, i, woken), if s.inside == 0 then 0 else s.inside - 1)
    case Running =>
      if choice.Again? then s else WithWorker(s, i, if choice.Fail? then Failing(Genuine(i)) else Finished)
    case Failing(e) => WithWorker(s, i, Aborting).(errors := s.errors + [e])
    case Aborting => WithWorker(s, i, Finished).(barrier := Broken)
    case Finished => s
  }

  function Next(s: State, step: Step): State
    requires Enabled(s, step)
  {
    match step
    case MainStep => MainNext(s)
    case WorkerStep(i, choice) => WorkerNext(s, i, choice)
    case Expire => s.(expired := true)
  }

  ghost predicate Run(n: nat, states: seq<State>, steps: seq<Step>) {
    && |states| == |steps| + 1 && states[0] == Initial(n)
    && forall i | 0 <= i < |steps| :: Enabled(states[i], steps[i]) && states[i + 1] == Next(states[i], steps[i])
  }

  // ----- Counting -----

  function WaitingCount(ws: seq<Worker>): (c: nat)
    ensures c <= |ws|
  {
    if ws == [] then 0 else WaitingCount(ws[..|ws| - 1]) + if ws[|ws| - 1].Waiting? then 1 else 0
  }

  lemma {:induction false} CountUpdate(ws: seq<Worker>, i: nat, w: Worker)
    requires i < |ws|
    ensures WaitingCount(ws[i := w])
            == WaitingCount(ws) - (if ws[i].Waiting? then 1 else 0) + (if w.Waiting? then 1 else 0)
  {
    var n := |ws| - 1;
    if i == n {
      assert ws[i := w][..n] == ws[..n];
    } else {
      assert ws[i := w][..n] == ws[..n][i := w];
      CountUpdate(ws[..n], i, w);
    }
  }

  /** As many waiting as there are workers means every worker is. */
  lemma {:induction false} AllWaiting(ws: seq<Worker>)
    requires WaitingCount(ws) == |ws|
    ensures forall i | 0 <= i < |ws| :: ws[i].Waiting?
  {
    if ws != [] { AllWaiting(ws[..|ws| - 1]); }
  }

  /** All but one waiting, and that one not, leaves no other. */
  lemma OthersWaiting(ws: seq<Worker>, i: nat)
    requires i < |ws| && !ws[i].Waiting? && WaitingCount(ws) == |ws| - 1
    ensures forall j | 0 <= j < |ws| && j != i :: ws[j].Waiting?
  {
    CountUpdate(ws, i, Waiting);
    AllWaiting(ws[i := Waiting]);
    assert forall j | 0 <= j < |ws| && j != i :: ws[i := Waiting][j] == ws[j];
  }

  // ----- The invariant -----

  predicate MainArrived(m: Main) { m.AtBarrier? || m.Joining? || m.Returned? }

  predicate MainLeft(m: Main) { m.Joining? || m.Returned? }

  ghost predicate CountOk(s: State) {
    && s.inside == WaitingCount(s.workers) + (if s.main.AtBarrier? then 1 else 0)
    && (!s.released ==> s.inside <= |s.workers| && s.barrier != Draining)
    && (s.released ==> s.deadline && MainArrived(s.main))
    && (s.released ==> forall i | 0 <= i < |s.workers| :: !s.workers[i].Starting?)
    && (s.released && s.barrier == Filling ==> s.inside == 0)
  }

  ghost predicate WorkerOk(s: State, w: Worker) {
    && (w.Running? ==> s.released)
    && (w.Finished? ==> s.released || s.barrier == Broken)
    && (w.Aborting? ==> s.errors != [])
    && (w.Failing? && w.error.Induced? ==> s.errors != [])
  }

  ghost predicate MainOk(s: State) {
    && (s.deadline <==> !s.main.Launching?) && (s.expired ==> s.deadline)
    && (s.main.Launching? ==>
          && s.main.started <= |s.workers|
          && forall i | s.main.started <= i < |s.workers| :: s.workers[i].Starting?)
    && (MainLeft(s.main) ==> s.released || s.barrier == Broken)
    && (s.main.Joining? ==> s.main.joined <= |s.workers| && forall i | 0 <= i < s.main.joined :: s.workers[i].Finished?)
    && (s.main.Returned? ==> forall i | 0 <= i < |s.workers| :: s.workers[i].Finished?)
  }

  ghost predicate ErrorsOk(s: State) {
    && (s.barrier == Broken ==> s.errors != [])
    && (s.errors != [] ==> s.errors[0].Genuine?)
  }

  ghost predicate Inv(s: State) {
    && CountOk(s) && MainOk(s) && ErrorsOk(s)
    && forall i | 0 <= i < |s.workers| :: WorkerOk(s, s.workers[i])
  }

  lemma {:induction false} NoneWaiting(n: nat)
    ensures WaitingCount(seq(n, _ => Starting)) == 0
  {
    if n > 0 {
      NoneWaiting(n - 1);
      assert seq(n, _ => Starting)[..n - 1] == seq(n - 1, _ => Starting);
    }
  }

  lemma InitialInv(n: nat)
    ensures Inv(Initial(n))
  {
    NoneWaiting(n);
  }

  lemma MainKeepsInv(s: State)
    requires Inv(s) && Enabled(s, MainStep)
    ensures Inv(MainNext(s))
  {
    if s.main.Arriving? && s.barrier != Broken && LastParty(s) { AllWaiting(s.workers); }
    var after := MainNext(s);
    forall i | 0 <= i < |after.workers| ensures WorkerOk(after, after.workers[i]) {
      assert after.workers[i] == s.workers[i] && WorkerOk(s, s.workers[i]);
    }
  }

  lemma ArrivalKeepsInv(s: State, i: nat)
    requires Inv(s) && Enabled(s, WorkerStep(i, Go)) && s.workers[i].Starting?
    ensures Inv(WorkerNext(s, i, Go))
  {
    var after := WorkerNext(s, i, Go);
    CountUpdate(s.workers, i, after.workers[i]);
    if s.barrier != Broken && LastParty(s) {
      if s.main.AtBarrier? { OthersWaiting(s.workers, i); } else { AllWaiting(s.workers); }
    }
    forall j | 0 <= j < |after.workers| ensures WorkerOk(after, after.workers[j]) {
      if j != i { assert after.workers[j] == s.workers[j] && WorkerOk(s, s.workers[j]); }
    }
  }

  lemma WakingKeepsInv(s: State, i: nat, choice: Choice)
    requires Inv(s) && Enabled(s, WorkerStep(i, choice)) && s.workers[i].Waiting?
    ensures Inv(WorkerNext(s, i, choice))
  {
    var after := WorkerNext(s, i, choice);
    CountUpdate(s.workers, i, after.workers[i]);
    PositiveCount(s.workers, i);
    forall j | 0 <= j < |after.workers| ensures WorkerOk(after, after.workers[j]) {
      if j != i { assert after.workers[j] == s.workers[j] && WorkerOk(s, s.workers[j]); }
    }
  }

  /** Errors, a release and a broken barrier stay, so what holds of one worker still does when another steps. */
  lemma OthersKeepOk(s: State, after: State, i: nat)
    requires i < |s.workers| == |after.workers| && forall j | 0 <= j < |s.workers| :: WorkerOk(s, s.workers[j])
    requires forall j | 0 <= j < |s.workers| && j != i :: after.workers[j] == s.workers[j]
    requires (s.released ==> after.released) && (s.errors != [] ==> after.errors != [])
    requires s.barrier == Broken ==> after.barrier == Broken
    requires WorkerOk(after, after.workers[i])
    ensures forall j | 0 <= j < |after.workers| :: WorkerOk(after, after.workers[j])
  {
    forall j | 0 <= j < |after.workers| ensures WorkerOk(after, after.workers[j]) {
      if j != i { assert WorkerOk(s, s.workers[j]); }
    }
  }

  lemma WorkerKeepsInv(s: State, i: nat, choice: Choice)
    requires Inv(s) && Enabled(s, WorkerStep(i, choice)) && !s.workers[i].Waiting?
    requires s.workers[i].Starting? ==> choice.Fail?
    ensures Inv(WorkerNext(s, i, choice))
  {
    var after := WorkerNext(s, i, choice);
    CountUpdate(s.workers, i, after.workers[i]);
    assert WorkerOk(s, s.workers[i]);
    OthersKeepOk(s, after, i);
  }

  lemma ExpireKeepsInv(s: State)
    requires Inv(s) && s.deadline
    ensures Inv(s.(expired := true))
  {
    var after := s.(expired := true);
    forall i | 0 <= i < |after.workers| ensures WorkerOk(after, after.workers[i]) {
      assert WorkerOk(s, s.workers[i]);
    }
  }

  lemma StepKeepsInv(s: State, step: Step)
    requires Inv(s) && Enabled(s, step)
    ensures Inv(Next(s, step)) && |Next(s, step).workers| == |s.workers|
  {
    match step
    case MainStep => MainKeepsInv(s);
    case WorkerStep(i, choice) =>
      if s.workers[i].Starting? && choice.Go? {
        ArrivalKeepsInv(s, i);
      } else if s.workers[i].Waiting? {
        WakingKeepsInv(s, i, choice);
      } else {
        WorkerKeepsInv(s, i, choice);
      }
    case Expire => ExpireKeepsInv(s);
  }

  lemma {:induction false} RunInv(n: nat, states: seq<State>, steps: seq<Step>, k: nat)
    requires Run(n, states, steps) && k < |states|
    ensures Inv(states[k]) && |states[k].workers| == n
  {
    if k == 0 {
      InitialInv(n);
    } else {
      RunInv(n, states, steps, k - 1);
      var s, step := states[k - 1], steps[k - 1];
      assert Enabled(s, step) && states[k] == Next(s, step);
      StepKeepsInv(s, step);
    }
  }

  // ----- What the protocol promises -----

  /** No worker reads the deadline before the main thread has set it. */
  lemma DeadlineSetBeforeRead(n: nat, states: seq<State>, steps: seq<Step>, k: nat, i: nat)
    requires Run(n, states, steps) && k < |states| && i < n
    ensures |states[k].workers| == n && (states[k].workers[i].Running? ==> states[k].deadline)
  {
    RunInv(n, states, steps, k);
    assert WorkerOk(states[k], states[k].workers[i]);
  }

  /** A step that is neither a failure nor one more iteration of a serving loop. */
  predicate Advances(step: Step) {
    step.WorkerStep? ==> step.choice.Go?
  }

  /**
   Until the main thread has returned something can always advance, even when workers fail early:
   no thread waits for ever, and none has to fail to get on.
   */
  lemma NoDeadlock(n: nat, states: seq<State>, steps: seq<Step>, k: nat)
    requires Run(n, states, steps) && k < |states| && !states[k].main.Returned?
    ensures exists step :: Enabled(states[k], step) && Advances(step)
  {
    RunInv(n, states, steps, k);
    CanStep(states[k]);
  }

  lemma CanStep(s: State)
    requires Inv(s) && !s.main.Returned?
    ensures exists step :: Enabled(s, step) && Advances(step)
  {
    if Enabled(s, MainStep) {
      assert Advances(MainStep);
    } else if s.deadline && !s.expired {
      assert Enabled(s, Expire) && Advances(Expire);
    } else if s.main.Arriving? || s.main.AtBarrier? {
      WorkerCanStep(s);
    } else {
      var k := s.main.joined;
      assert WorkerOk(s, s.workers[k]);
      if s.workers[k].Waiting? { PositiveCount(s.workers, k); }
      StuckNowhere(s, k);
    }
  }

  /** Once the deadline has passed, a started worker that has not finished can go on unless the barrier holds it. */
  lemma StuckNowhere(s: State, i: nat)
    requires Started(s, i) && !s.workers[i].Finished? && s.expired
    requires s.workers[i].Starting? ==> s.barrier != Draining
    requires s.workers[i].Waiting? ==> s.barrier != Filling
    ensures exists step :: Enabled(s, step) && Advances(step)
  {
    assert Enabled(s, WorkerStep(i, Go)) && Advances(WorkerStep(i, Go));
  }

  lemma {:induction false} PositiveCount(ws: seq<Worker>, i: nat)
    requires i < |ws| && ws[i].Waiting?
    ensures WaitingCount(ws) > 0
  {
    if i < |ws| - 1 { PositiveCount(ws[..|ws| - 1], i); }
  }

  /** While the barrier holds the main thread up, some worker can go on. */
  lemma WorkerCanStep(s: State)
    requires Inv(s) && s.expired && (s.main.Arriving? || s.main.AtBarrier?) && !Enabled(s, MainStep)
    ensures exists step :: Enabled(s, step) && Advances(step)
  {
    if s.main.Arriving? {
      DrainingHolds(s);
    } else {
      if forall i | 0 <= i < |s.workers| :: s.workers[i].Waiting? { FullCount(s.workers); }
      var i: nat :| i < |s.workers| && !s.workers[i].Waiting?;
      assert WorkerOk(s, s.workers[i]);
      StuckNowhere(s, i);
    }
  }

  /** A barrier that is draining has been released, and then the main thread has arrived. */
  lemma DrainingHolds(s: State)
    requires Inv(s) && s.barrier == Draining
    ensures MainArrived(s.main)
  {
  }

  lemma {:induction false} FullCount(ws: seq<Worker>)
    requires forall i | 0 <= i < |ws| :: ws[i].Waiting?
    ensures WaitingCount(ws) == |ws|
  {
    if ws != [] { FullCount(ws[..|ws| - 1]); }
  }

  /**
   The error re-raised is one a worker had by itself, never a broken barrier caused by another
   worker's failure; and without an error every worker passed the barrier and finished.
   */
  lemma FirstErrorIsGenuine(n: nat, states: seq<State>, steps: seq<Step>, k: nat)
    requires Run(n, states, steps) && k < |states|
    ensures var s := states[k];
            && (s.errors != [] ==> s.errors[0].Genuine?)
            && (s.main.Returned? ==> forall i | 0 <= i < |s.workers| :: s.workers[i].Finished?)
            && (s.main.Returned? && s.errors == [] ==> s.released)
  {
    RunInv(n, states, steps, k);
  }

  // ----- Failures are reported -----

  /** Worker `i` is about to record its failure, or has. */
  ghost predicate Noted(s: State, i: nat) {
    i < |s.workers| && (s.workers[i] == Failing(Genuine(i)) || Genuine(i) in s.errors)
  }

  lemma NotedStays(s: State, step: Step, i: nat)
    requires Noted(s, i) && Enabled(s, step)
    ensures Noted(Next(s, step), i)
  {
    if step.WorkerStep? && s.workers[step.i].Failing? {
      assert Next(s, step).errors == s.errors + [s.workers[step.i].error];
    }
  }

  predicate Fails(step: Step, i: nat) { step.WorkerStep? && step.i == i && step.choice.Fail? }

  lemma FailingIsNoted(s: State, step: Step, i: nat)
    requires Enabled(s, step) && Fails(step, i)
    ensures Noted(Next(s, step), i)
  {
  }

  /** Step `j` notes the failure of worker `i`, or keeps it noted. */
  ghost predicate KeepsNote(states: seq<State>, steps: seq<Step>, j: nat, i: nat)
    requires j < |steps| && |states| == |steps| + 1
  {
    Fails(steps[j], i) || Noted(states[j], i) ==> Noted(states[j + 1], i)
  }

  lemma StepKeepsNote(n: nat, states: seq<State>, steps: seq<Step>, j: nat, i: nat)
    requires Run(n, states, steps) && j < |steps|
    ensures KeepsNote(states, steps, j, i)
  {
    assert Enabled(states[j], steps[j]) && states[j + 1] == Next(states[j], steps[j]);
    if Fails(steps[j], i) { FailingIsNoted(states[j], steps[j], i); }
    if Noted(states[j], i) { NotedStays(states[j], steps[j], i); }
  }

  lemma {:induction false} NotedFromThenOn(states: seq<State>, steps: seq<Step>, j: nat, k: nat, i: nat)
    requires |states| == |steps| + 1 && j < k < |states| && Fails(steps[j], i)
    requires forall m | 0 <= m < |steps| :: KeepsNote(states, steps, m, i)
    ensures Noted(states[k], i)
  {
    if j < k - 1 { NotedFromThenOn(states, steps, j, k - 1, i); }
    assert KeepsNote(states, steps, k - 1, i);
  }

  /** From the moment a worker fails, its failure is recorded or about to be. */
  lemma FailureIsNoted(n: nat, states: seq<State>, steps: seq<Step>, j: nat, k: nat, i: nat)
    requires Run(n, states, steps) && j < k < |states| && Fails(steps[j], i)
    ensures Noted(states[k], i)
  {
    forall m | 0 <= m < |steps| ensures KeepsNote(states, steps, m, i) { StepKeepsNote(n, states, steps, m, i); }
    NotedFromThenOn(states, steps, j, k, i);
  }

  ghost predicate FailedBefore(steps: seq<Step>, k: nat, i: nat) {
    k <= |steps| && exists j | 0 <= j < k :: Fails(steps[j], i)
  }

  /** Every genuine error, recorded or about to be, comes from a step in which that worker failed. */
  ghost predicate Caused(s: State, steps: seq<Step>, k: nat) {
    && (forall i | Genuine(i) in s.errors :: FailedBefore(steps, k, i))
    && (forall w: nat, i: nat | w < |s.workers| && s.workers[w] == Failing(Genuine(i)) :: FailedBefore(steps, k, i))
  }

  lemma {:induction false} ErrorsAreCaused(n: nat, states: seq<State>, steps: seq<Step>, k: nat)
    requires Run(n, states, steps) && k < |states|
    ensures Caused(states[k], steps, k)
  {
    if k > 0 {
      ErrorsAreCaused(n, states, steps, k - 1);
      var s, step := states[k - 1], steps[k - 1];
      assert Enabled(s, step) && states[k] == Next(s, step);
      assert forall i | FailedBefore(steps, k - 1, i) :: FailedBefore(steps, k, i);
      if step.WorkerStep? && step.choice.Fail? {
        assert Fails(steps[k - 1], step.i);
        assert FailedBefore(steps, k, step.i);
      }
      StepKeepsCause(s, step, steps, k);
    }
  }

  lemma StepKeepsCause(s: State, step: Step, steps: seq<Step>, k: nat)
    requires Enabled(s, step) && Caused(s, steps, k)
    requires step.WorkerStep? && step.choice.Fail? ==> FailedBefore(steps, k, step.i)
    ensures Caused(Next(s, step), steps, k)
  {
    var after := Next(s, step);
    forall w: nat, i: nat | w < |after.workers| && after.workers[w] == Failing(Genuine(i))
      ensures FailedBefore(steps, k, i)
    {
      if step.WorkerStep? && w == step.i && s.workers[w] != Failing(Genuine(i)) { assert i == step.i; }
    }
  }

  /**
   The main thread returns without an error if and only if no worker failed; and every worker that
   failed has its own error recorded by then.
   */
  lemma FailuresAreReported(n: nat, states: seq<State>, steps: seq<Step>, k: nat)
    requires Run(n, states, steps) && k < |states| && states[k].main.Returned?
    ensures forall i | FailedBefore(steps, k, i) :: Genuine(i) in states[k].errors
    ensures states[k].errors == [] <==> forall i :: !FailedBefore(steps, k, i)
  {
    RunInv(n, states, steps, k);
    forall i | FailedBefore(steps, k, i) ensures Genuine(i) in states[k].errors {
      var j :| 0 <= j < k && Fails(steps[j], i);
      assert Enabled(states[j], steps[j]);
      FailureIsNoted(n, states, steps, j, k, i);
    }
    ErrorsAreCaused(n, states, steps, k);
    if states[k].errors != [] { assert FailedBefore(steps, k, states[k].errors[0].worker); }
  }

  // ----- Termination -----

  function WorkerRank(w: Worker): nat {
    match w
    case Starting => 5
    case Waiting => 4
    case Running => 3
    case Failing(_) => 2
    case Aborting => 1
    case Finished => 0
  }

  function Ranks(ws: seq<Worker>): nat {
    if ws == [] then 0 else Ranks(ws[..|ws| - 1]) + WorkerRank(ws[|ws| - 1])
  }

  lemma {:induction false} RanksUpdate(ws: seq<Worker>, i: nat, w: Worker)
    requires i < |ws|
    ensures Ranks(ws[i := w]) == Ranks(ws) - WorkerRank(ws[i]) + WorkerRank(w)
  {
    var n := |ws| - 1;
    if i == n {
      assert ws[i := w][..n] == ws[..n];
    } else {
      assert ws[i := w][..n] == ws[..n][i := w];
      RanksUpdate(ws[..n], i, w);
    }
  }

  lemma {:induction false} RanksAtStart(n: nat)
    ensures Ranks(seq(n, _ => Starting)) == 5 * n
  {
    if n > 0 {
      RanksAtStart(n - 1);
      assert seq(n, _ => Starting)[..n - 1] == seq(n - 1, _ => Starting);
    }
  }

  function MainRank(m: Main, n: nat): int {
    match m
    case Launching(k) => 2 * n + 4 - k
    case Arriving => n + 3
    case AtBarrier => n + 2
    case Joining(k) => n + 1 - k
    case Returned => 0
  }

  /** How many steps are left at most, not counting iterations of serving loops. */
  function Measure(s: State): int {
    MainRank(s.main, |s.workers|) + Ranks(s.workers) + if s.expired then 0 else 1
  }

  predicate Iterates(step: Step) { step.WorkerStep? && step.choice.Again? }

  lemma MeasureNonNegative(s: State)
    requires MainOk(s)
    ensures 0 <= Measure(s)
  {
  }

  lemma MainShrinks(s: State)
    requires MainOk(s) && Enabled(s, MainStep)
    ensures Measure(MainNext(s)) < Measure(s)
  {
    assert MainNext(s).workers == s.workers && MainNext(s).expired == s.expired;
  }

  lemma WorkerShrinks(s: State, i: nat, choice: Choice)
    requires Enabled(s, WorkerStep(i, choice)) && !choice.Again?
    ensures Measure(WorkerNext(s, i, choice)) < Measure(s)
  {
    var after := WorkerNext(s, i, choice);
    WorkerMoves(s, i, choice);
    RanksUpdate(s.workers, i, after.workers[i]);
  }

  /** A worker's step changes no other worker, and lowers its own rank. */
  lemma WorkerMoves(s: State, i: nat, choice: Choice)
    requires Enabled(s, WorkerStep(i, choice)) && !choice.Again?
    ensures var after := WorkerNext(s, i, choice);
            && after.main == s.main && after.expired == s.expired && |after.workers| == |s.workers|
            && after.workers == s.workers[i := after.workers[i]]
            && WorkerRank(after.workers[i]) < WorkerRank(s.workers[i])
  {
  }

  lemma StepsShrink(s: State, step: Step)
    requires MainOk(s) && Enabled(s, step)
    ensures if Iterates(step) then Next(s, step) == s else Measure(Next(s, step)) < Measure(s)
  {
    match step
    case MainStep => MainShrinks(s);
    case WorkerStep(i, choice) => if !choice.Again? { WorkerShrinks(s, i, choice); }
    case Expire =>
  }

  function OtherSteps(steps: seq<Step>): nat {
    if steps == [] then 0 else OtherSteps(steps[..|steps| - 1]) + if Iterates(steps[|steps| - 1]) then 0 else 1
  }

  lemma {:induction false} AllCounted(steps: seq<Step>)
    requires forall i | 0 <= i < |steps| :: !Iterates(steps[i])
    ensures OtherSteps(steps) == |steps|
  {
    if steps != [] { AllCounted(steps[..|steps| - 1]); }
  }

  /** In every run all but the iterations of serving loops are at most seven steps per worker and five. */
  lemma {:induction false} BoundedRun(n: nat, states: seq<State>, steps: seq<Step>, k: nat)
    requires Run(n, states, steps) && k < |states|
    ensures 0 <= Measure(states[k])
    ensures OtherSteps(steps[..k]) + Measure(states[k]) <= 7 * n + 5
  {
    RunInv(n, states, steps, k);
    MeasureNonNegative(states[k]);
    if k == 0 {
      RanksAtStart(n);
    } else {
      RunInv(n, states, steps, k - 1);
      BoundedRun(n, states, steps, k - 1);
      assert Enabled(states[k - 1], steps[k - 1]) && states[k] == Next(states[k - 1], steps[k - 1]);
      StepsShrink(states[k - 1], steps[k - 1]);
      assert steps[..k][..k - 1] == steps[..k - 1];
    }
  }

  /** A run without such iterations is no longer than that. */
  lemma BoundedWithoutServing(n: nat, states: seq<State>, steps: seq<Step>)
    requires Run(n, states, steps) && forall i | 0 <= i < |steps| :: !Iterates(steps[i])
    ensures |steps| <= 7 * n + 5
  {
    BoundedRun(n, states, steps, |steps|);
    assert steps[..|steps|] == steps;
    AllCounted(steps);
  }

  /**
   Once the deadline has passed no worker serves again, so what is left of any run is bounded, and a
   run that can go no further has the main thread returned and every worker finished.
   */
  lemma {:induction false} FinishesAfterDeadline(n: nat, states: seq<State>, steps: seq<Step>, p: nat, k: nat)
    requires Run(n, states, steps) && p <= k < |states| && states[p].expired
    ensures states[k].expired && 0 <= Measure(states[k]) <= Measure(states[p]) - (k - p)
    ensures (forall step :: !(Enabled(states[k], step) && Advances(step))) ==>
              states[k].main.Returned? && forall i | 0 <= i < |states[k].workers| :: states[k].workers[i].Finished?
  {
    RunInv(n, states, steps, k);
    BoundedRun(n, states, steps, k);
    if k > p {
      RunInv(n, states, steps, k - 1);
      FinishesAfterDeadline(n, states, steps, p, k - 1);
      assert Enabled(states[k - 1], steps[k - 1]) && states[k] == Next(states[k - 1], steps[k - 1]);
      StepsShrink(states[k - 1], steps[k - 1]);
    }
    if !states[k].main.Returned? { CanStep(states[k]); }
  }
}
