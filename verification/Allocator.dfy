/**
 The counting allocator: LIVE and PEAK are atomics that allocator calls update in several
 steps, interleaved with those of other threads.  A machine word wraps at 2^64.
 */
module Allocator {
  import opened Prelude
  import opened Checksums

  /**
   A thread inside an allocator call.  `Counting` has memory it has not added yet, `Publishing`
   has added it and holds the value it saw, `Releasing` has returned memory it has not
   subtracted yet (and will count `regrow` afterwards if it is reallocating).
   */
  datatype Thread =
    | Idle
    | Counting(size: nat)
    | Publishing(size: nat, seen: nat)
    | Releasing(size: nat, regrow: Option<nat>)

  /**
   `owned` are the sizes of the blocks the program was given, emptied when it gives them back.
   `loaded` is what a probe has read of LIVE and not stored in PEAK yet.  `top` is the largest value
   LIVE has had since the last probe read it, `missed` the largest value published in PEAK between
   that read and the store, and `ever` the largest value LIVE has had at all.
   */
  datatype State = State(
    live: nat, peak: nat, owned: seq<Option<nat>>, threads: seq<Thread>,
    loaded: Option<nat>, top: nat, missed: nat, ever: nat)

  function Initial(n: nat): State {
    State(0, 0, [], seq(n, _ => Idle), None, 0, 0, 0)
  }

  datatype Step =
    | Allocate(t: nat, size: nat)
    | Free(t: nat, k: nat)
    | Reallocate(t: nat, k: nat, size: nat)
    | Advance(t: nat)
    | ProbeLoad
    | ProbeStore

  function WrappingAdd(a: nat, b: nat): nat { (a + b) % TWO_64 }

  function WrappingSub(a: nat, b: nat): nat
    requires b < TWO_64
  {
    (a + TWO_64 - b) % TWO_64
  }

  predicate Holds(s: State, k: nat) { k < |s.owned| && s.owned[k].Some? }

  predicate IsIdle(s: State, t: nat) { t < |s.threads| && s.threads[t].Idle? }

  predicate Enabled(s: State, step: Step) {
    match step
    case Allocate(t, size) => IsIdle(s, t)
    case Free(t, k) => IsIdle(s, t) && Holds(s, k)
    case Reallocate(t, k, size) => IsIdle(s, t) && Holds(s, k)
    case Advance(t) =>
      && t < |s.threads| && !s.threads[t].Idle?
      && (s.threads[t].Counting? ==> Counted(s) + s.threads[t].size < TWO_64)
      && (s.threads[t].Releasing? ==> s.threads[t].size < TWO_64)
    case ProbeLoad => s.loaded.None?
    case ProbeStore => s.loaded.Some?
  }

  function With(s: State, t: nat, thread: Thread): State
    requires t < |s.threads|
  {
    s.(threads := s.threads[t := thread])
  }

  /** The next atomic operation of a call in progress: fetch_add, fetch_max or fetch_sub. */
  function AdvanceThread(s: State, t: nat): State
    requires t < |s.threads| && (s.threads[t].Releasing? ==> s.threads[t].size < TWO_64)
  {
    match s.threads[t]
    case Idle => s
    case Counting(size) =>
      var live := WrappingAdd(s.live, size);
      With(s, t, Publishing(size, live)).(live := live, top := Max(s.top, live), ever := Max(s.ever, live))
    case Publishing(size, seen) =>
      var missed := if s.loaded.Some? then Max(s.missed, seen) else s.missed;
      With(s, t, Idle).(peak := Max(s.peak, seen), missed := missed, owned := s.owned + [Some(size)])
    case Releasing(size, regrow) =>
      With(s, t, if regrow.Some? then Counting(regrow.value) else Idle).(live := WrappingSub(s.live, size))
  }

  function Next(s: State, step: Step): State
    requires Enabled(s, step)
  {
    match step
    case Allocate(t, size) => With(s, t, Counting(size))
    case Free(t, k) => With(s, t, Releasing(s.owned[k].value, None)).(owned := s.owned[k := None])
    case Reallocate(t, k, size) => With(s, t, Releasing(s.owned[k].value, Some(size))).(owned := s.owned[k := None])
    case Advance(t) => AdvanceThread(s, t)
    case ProbeLoad => s.(loaded := Some(s.live), top := s.live, missed := 0)
    case ProbeStore => s.(peak := s.loaded.value, loaded := None)
  }

  ghost predicate Run(states: seq<State>, steps: seq<Step>) {
    && |states| == |steps| + 1
    && forall i | 0 <= i < |steps| :: Enabled(states[i], steps[i]) && states[i + 1] == Next(states[i], steps[i])
  }

  // ----- What is counted -----

  function Sum(s: seq<Option<nat>>): nat {
    if s == [] then 0 else Sum(s[..|s| - 1]) + s[|s| - 1].GetOr(0)
  }

  lemma {:induction false} SumUpdate(s: seq<Option<nat>>, k: nat, block: Option<nat>)
    requires k < |s|
    ensures Sum(s[k := block]) + s[k].GetOr(0) == Sum(s) + block.GetOr(0)
  {
    var n := |s| - 1;
    if k == n {
      assert s[k := block][..n] == s[..n];
    } else {
      assert s[k := block][..n] == s[..n][k := block];
      SumUpdate(s[..n], k, block);
    }
  }

  lemma SumAppend(s: seq<Option<nat>>, block: Option<nat>)
    ensures Sum(s + [block]) == Sum(s) + block.GetOr(0)
  {
    assert (s + [block])[..|s|] == s;
  }

  function HeldBy(t: Thread): nat {
    match t
    case Publishing(size, _) => size
    case Releasing(size, _) => size
    case _ => 0
  }

  function InFlight(threads: seq<Thread>): nat {
    if threads == [] then 0 else InFlight(threads[..|threads| - 1]) + HeldBy(threads[|threads| - 1])
  }

  lemma {:induction false} InFlightUpdate(threads: seq<Thread>, t: nat, thread: Thread)
    requires t < |threads|
    ensures InFlight(threads[t := thread]) + HeldBy(threads[t]) == InFlight(threads) + HeldBy(thread)
  {
    var n := |threads| - 1;
    if t == n {
      assert threads[t := thread][..n] == threads[..n];
    } else {
      assert threads[t := thread][..n] == threads[..n][t := thread];
      InFlightUpdate(threads[..n], t, thread);
    }
  }

  /** The bytes added and not yet subtracted: blocks the program holds and those in calls. */
  function Counted(s: State): nat {
    Sum(s.owned) + InFlight(s.threads)
  }

  ghost predicate LiveExact(s: State) {
    s.live == Counted(s) < TWO_64
  }

  lemma AddExact(a: nat, b: nat)
    requires a + b < TWO_64
    ensures WrappingAdd(a, b) == a + b
  {
  }

  lemma SubExact(a: nat, b: nat)
    requires b <= a < TWO_64
    ensures WrappingSub(a, b) == a - b
  {
  }

  /** Taking a thread's bytes out of the sum in flight. */
  lemma InFlightChange(threads: seq<Thread>, t: nat, thread: Thread)
    requires t < |threads|
    ensures InFlight(threads[t := thread]) == InFlight(threads) - HeldBy(threads[t]) + HeldBy(thread)
    ensures HeldBy(threads[t]) <= InFlight(threads)
  {
    InFlightUpdate(threads, t, thread);
    InFlightUpdate(threads, t, Idle);
  }

  lemma AdvanceLive(s: State, t: nat)
    requires LiveExact(s) && Enabled(s, Advance(t))
    ensures LiveExact(AdvanceThread(s, t))
    ensures s.threads[t].Releasing? ==> s.threads[t].size <= s.live
  {
    InFlightChange(s.threads, t, AdvanceThread(s, t).threads[t]);
    match s.threads[t]
    case Counting(size) => AddExact(s.live, size);
    case Publishing(size, _) => SumAppend(s.owned, Some(size));
    case Releasing(size, _) => SubExact(s.live, size);
  }

  /** Every subtraction finds its bytes counted, so LIVE stays the exact sum and never wraps. */
  lemma StepLive(s: State, step: Step)
    requires LiveExact(s) && Enabled(s, step)
    ensures LiveExact(Next(s, step))
    ensures step.Advance? && s.threads[step.t].Releasing? ==> s.threads[step.t].size <= s.live
  {
    match step
    case Allocate(t, size) => InFlightUpdate(s.threads, t, Counting(size));
    case Free(t, k) =>
      SumUpdate(s.owned, k, None);
      InFlightUpdate(s.threads, t, Releasing(s.owned[k].value, None));
    case Reallocate(t, k, size) =>
      SumUpdate(s.owned, k, None);
      InFlightUpdate(s.threads, t, Releasing(s.owned[k].value, Some(size)));
    case Advance(t) => AdvanceLive(s, t);
    case ProbeLoad =>
    case ProbeStore =>
  }

  lemma {:induction false} NothingInFlight(n: nat)
    ensures InFlight(seq(n, _ => Idle)) == 0
  {
    if n > 0 {
      NothingInFlight(n - 1);
      assert seq(n, _ => Idle)[..n - 1] == seq(n - 1, _ => Idle);
    }
  }

  /** Under every interleaving LIVE is the sum of the sizes currently counted. */
  lemma {:induction false} LiveIsTheSum(n: nat, states: seq<State>, steps: seq<Step>, i: nat)
    requires Run(states, steps) && states[0] == Initial(n) && i < |states|
    ensures LiveExact(states[i])
  {
    if i == 0 {
      NothingInFlight(n);
    } else {
      LiveIsTheSum(n, states, steps, i - 1);
      StepLive(states[i - 1], steps[i - 1]);
    }
  }

  // ----- What the program asked for -----

  /** What a thread will have been given, or will own, when its call is finished. */
  function Promised(t: Thread): nat {
    match t
    case Idle => 0
    case Counting(size) => size
    case Publishing(size, _) => size
    case Releasing(_, regrow) => regrow.GetOr(0)
  }

  function AllPromised(threads: seq<Thread>): nat {
    if threads == [] then 0 else AllPromised(threads[..|threads| - 1]) + Promised(threads[|threads| - 1])
  }

  lemma {:induction false} PromisedUpdate(threads: seq<Thread>, t: nat, thread: Thread)
    requires t < |threads|
    ensures AllPromised(threads[t := thread]) == AllPromised(threads) - Promised(threads[t]) + Promised(thread)
  {
    var n := |threads| - 1;
    if t == n {
      assert threads[t := thread][..n] == threads[..n];
    } else {
      assert threads[t := thread][..n] == threads[..n][t := thread];
      PromisedUpdate(threads[..n], t, thread);
    }
  }

  /** The size a call of the program asks for. */
  function Requested(step: Step): nat {
    match step
    case Allocate(_, size) => size
    case Reallocate(_, _, size) => size
    case _ => 0
  }

  /** The size of the block it gives back. */
  function GivenBack(s: State, step: Step): nat
    requires Enabled(s, step)
  {
    match step
    case Free(_, k) => s.owned[k].value
    case Reallocate(_, k, _) => s.owned[k].value
    case _ => 0
  }

  function Asked(s: State, step: Step): int
    requires Enabled(s, step)
  {
    Requested(step) - GivenBack(s, step)
  }

  /** What the first `i` steps of a run ask for, less what they give back. */
  ghost function Balance(states: seq<State>, steps: seq<Step>, i: nat): int
    requires Run(states, steps) && i <= |steps|
  {
    if i == 0 then 0 else Balance(states, steps, i - 1) + Asked(states[i - 1], steps[i - 1])
  }

  lemma StepBalances(s: State, step: Step)
    requires Enabled(s, step)
    ensures var after := Next(s, step);
            Sum(after.owned) + AllPromised(after.threads) == Sum(s.owned) + AllPromised(s.threads) + Asked(s, step)
  {
    var after := Next(s, step);
    match step
    case Allocate(t, size) => PromisedUpdate(s.threads, t, after.threads[t]);
    case Free(t, k) =>
      SumUpdate(s.owned, k, None);
      PromisedUpdate(s.threads, t, after.threads[t]);
    case Reallocate(t, k, size) =>
      SumUpdate(s.owned, k, None);
      PromisedUpdate(s.threads, t, after.threads[t]);
    case Advance(t) =>
      PromisedUpdate(s.threads, t, after.threads[t]);
      if s.threads[t].Publishing? { SumAppend(s.owned, Some(s.threads[t].size)); }
    case ProbeLoad =>
    case ProbeStore =>
  }

  lemma {:induction false} NothingPromised(threads: seq<Thread>)
    requires forall t | 0 <= t < |threads| :: threads[t].Idle?
    ensures AllPromised(threads) == 0 && InFlight(threads) == 0
  {
    if threads != [] { NothingPromised(threads[..|threads| - 1]); }
  }

  lemma {:induction false} RunBalances(n: nat, states: seq<State>, steps: seq<Step>, i: nat)
    requires Run(states, steps) && states[0] == Initial(n) && i <= |steps|
    ensures Sum(states[i].owned) + AllPromised(states[i].threads) == Balance(states, steps, i)
  {
    if i == 0 {
      NothingPromised(states[0].threads);
    } else {
      RunBalances(n, states, steps, i - 1);
      StepBalances(states[i - 1], steps[i - 1]);
    }
  }

  /** When all calls are finished, LIVE is what the program asked for and did not give back. */
  lemma LiveIsTheBalance(n: nat, states: seq<State>, steps: seq<Step>, i: nat)
    requires Run(states, steps) && states[0] == Initial(n) && i <= |steps|
    requires forall t | 0 <= t < |states[i].threads| :: states[i].threads[t].Idle?
    ensures states[i].live == Balance(states, steps, i)
  {
    LiveIsTheSum(n, states, steps, i);
    RunBalances(n, states, steps, i);
    NothingPromised(states[i].threads);
  }

  // ----- The peak -----

  ghost predicate Pending(s: State) {
    exists t: nat | t < |s.threads| :: s.threads[t].Publishing? && s.top <= s.threads[t].seen
  }

  /** The largest value since the probe is recorded, or about to be published by some call. */
  ghost predicate Covered(s: State) {
    s.top <= s.peak || Pending(s)
  }

  /** What PEAK starts the interval from: the value the probe read, then PEAK itself. */
  function Recorded(s: State): nat { s.loaded.GetOr(s.peak) }

  /** The same, counting what was published while the probe was between its read and its store. */
  ghost predicate CoveredWithMissed(s: State) {
    s.top <= Max(Recorded(s), s.missed) || Pending(s)
  }

  /** Nothing recorded or about to be is above a value LIVE had. */
  ghost predicate Attained(s: State) {
    && s.live <= s.top <= s.ever && s.peak <= s.ever && Recorded(s) <= s.ever && s.missed <= s.ever
    && forall t: nat | t < |s.threads| && s.threads[t].Publishing? :: s.threads[t].seen <= s.ever
  }

  lemma StepPeak(s: State, step: Step)
    requires LiveExact(s) && CoveredWithMissed(s) && Attained(s) && Enabled(s, step)
    ensures CoveredWithMissed(Next(s, step)) && Attained(Next(s, step))
  {
    StepLive(s, step);
    var after := Next(s, step);
    if Pending(s) && !step.ProbeLoad? {
      var t: nat :| t < |s.threads| && s.threads[t].Publishing? && s.top <= s.threads[t].seen;
      if after.top == s.top && !(step.Advance? && step.t == t) { assert after.threads[t] == s.threads[t]; }
    }
    if step.Advance? && s.threads[step.t].Counting? { assert after.threads[step.t].seen == after.live; }
  }

  /**
   Under every interleaving, also with the two halves of a probe, no value LIVE has had since a probe
   read it escapes PEAK, the calls in flight, and what was published between the halves.  PEAK and
   the calls alone cover it unless a value above PEAK was.
   */
  lemma {:induction false} PeakCovers(n: nat, states: seq<State>, steps: seq<Step>, i: nat)
    requires Run(states, steps) && states[0] == Initial(n) && i < |states|
    ensures CoveredWithMissed(states[i]) && Attained(states[i])
    ensures states[i].loaded.None? && states[i].missed <= states[i].peak ==> Covered(states[i])
  {
    if i > 0 {
      LiveIsTheSum(n, states, steps, i - 1);
      PeakCovers(n, states, steps, i - 1);
      StepPeak(states[i - 1], steps[i - 1]);
    }
  }

  /** Step `j` of the run is a call publishing `v`. */
  predicate Publishes(states: seq<State>, steps: seq<Step>, j: nat, v: nat)
    requires j < |steps| && |states| == |steps| + 1
  {
    && steps[j].Advance? && steps[j].t < |states[j].threads|
    && states[j].threads[steps[j].t].Publishing? && states[j].threads[steps[j].t].seen == v
  }

  predicate ProbeStep(step: Step) { step.ProbeLoad? || step.ProbeStore? }

  /** One probe: it reads LIVE at `p` and stores at `q`, and other threads may run in between. */
  ghost predicate ProbeAt(states: seq<State>, steps: seq<Step>, p: nat, q: nat) {
    && p < q < |steps| && steps[p] == ProbeLoad && steps[q] == ProbeStore
    && forall j | p < j < q :: !ProbeStep(steps[j])
  }

  /** Everything published between `p` and `q` is at most `bound`. */
  ghost predicate PublishedAtMost(states: seq<State>, steps: seq<Step>, p: nat, q: nat, bound: nat)
    requires q <= |steps| && |states| == |steps| + 1
  {
    forall j: nat, v: nat | p < j < q && Publishes(states, steps, j, v) :: v <= bound
  }

  /** `missed` is the largest value published since the read: it is below a bound exactly when all of them are. */
  lemma {:induction false} MissedExact(states: seq<State>, steps: seq<Step>, p: nat, q: nat, bound: nat)
    requires Run(states, steps) && p < q <= |steps| && steps[p] == ProbeLoad
    requires forall j | p < j < q :: !ProbeStep(steps[j])
    ensures states[q].loaded == Some(states[p].live)
    ensures states[q].missed <= bound <==> PublishedAtMost(states, steps, p, q, bound)
  {
    assert Enabled(states[q - 1], steps[q - 1]) && states[q] == Next(states[q - 1], steps[q - 1]);
    if q > p + 1 {
      var j := q - 1;
      assert !ProbeStep(steps[j]);
      MissedExact(states, steps, p, j, bound);
      if steps[j].Advance? && states[j].threads[steps[j].t].Publishing? {
        var v := states[j].threads[steps[j].t].seen;
        assert Publishes(states, steps, j, v);
      }
    }
  }

  ghost predicate Quiet(s: State) {
    forall t: nat | t < |s.threads| :: !s.threads[t].Publishing?
  }

  /** Everything recorded or about to be since the probe's read is a value LIVE has had since it. */
  ghost predicate SinceProbe(s: State) {
    && Recorded(s) <= s.top && s.missed <= s.top
    && forall t: nat | t < |s.threads| && s.threads[t].Publishing? :: s.threads[t].seen <= s.top
  }

  lemma {:induction false} SinceQuietRead(
    n: nat, states: seq<State>, steps: seq<Step>, p: nat, i: nat)
    requires Run(states, steps) && states[0] == Initial(n) && p < i < |states|
    requires steps[p] == ProbeLoad && Quiet(states[p]) && forall j | p < j < i :: steps[j] != ProbeLoad
    ensures SinceProbe(states[i])
  {
    assert Enabled(states[i - 1], steps[i - 1]) && states[i] == Next(states[i - 1], steps[i - 1]);
    if i > p + 1 { SinceQuietRead(n, states, steps, p, i - 1); }
  }

  lemma {:induction false} MissedStays(states: seq<State>, steps: seq<Step>, q: nat, i: nat)
    requires Run(states, steps) && q < i < |states| && steps[q] == ProbeStore
    requires forall j | q < j < i :: !ProbeStep(steps[j])
    ensures states[i].loaded.None? && states[i].missed == states[q].missed
    ensures states[i].peak >= states[q].loaded.GetOr(0)
  {
    assert Enabled(states[i - 1], steps[i - 1]) && states[i] == Next(states[i - 1], steps[i - 1]);
    if i > q + 1 {
      assert !ProbeStep(steps[i - 1]);
      MissedStays(states, steps, q, i - 1);
    }
  }

  /**
   After a probe no value LIVE has had since its read escapes PEAK and the calls in flight, if
   nothing above the value it read was published between its two halves.
   */
  lemma ProbeCovers(n: nat, states: seq<State>, steps: seq<Step>, p: nat, q: nat, i: nat)
    requires Run(states, steps) && states[0] == Initial(n) && ProbeAt(states, steps, p, q)
    requires q < i < |states| && forall j | q < j < i :: !ProbeStep(steps[j])
    requires PublishedAtMost(states, steps, p, q, states[p].live)
    ensures Covered(states[i])
  {
    MissedExact(states, steps, p, q, states[p].live);
    MissedStays(states, steps, q, i);
    PeakCovers(n, states, steps, i);
  }

  /** The value `v` is at most the loaded one, or some value published after the store and before `i` reaches it. */
  ghost predicate Recovered(states: seq<State>, steps: seq<Step>, loaded: nat, q: nat, i: nat, v: nat)
    requires i <= |steps| && |states| == |steps| + 1
  {
    v <= loaded || exists j: nat, u: nat | q < j < i && Publishes(states, steps, j, u) :: v <= u
  }

  /** After the store PEAK is the largest of the loaded value and what was published since. */
  lemma {:induction false} PeakAfterStore(states: seq<State>, steps: seq<Step>, q: nat, i: nat, v: nat)
    requires Run(states, steps) && q < i < |states| && steps[q] == ProbeStore
    requires forall j | q < j < i :: !ProbeStep(steps[j])
    ensures v <= states[i].peak <==> Recovered(states, steps, states[q].loaded.GetOr(0), q, i, v)
  {
    var j := i - 1;
    assert Enabled(states[j], steps[j]) && states[i] == Next(states[j], steps[j]);
    if i > q + 1 {
      assert !ProbeStep(steps[j]);
      PeakAfterStore(states, steps, q, j, v);
      if steps[j].Advance? && states[j].threads[steps[j].t].Publishing? {
        assert Publishes(states, steps, j, states[j].threads[steps[j].t].seen);
      }
    }
  }

  /**
   For a probe that reads LIVE with no growth in flight and a report that finds none, PEAK is exactly
   the maximum of LIVE since the read, if and only if every value published between the probe's two
   halves is at most the value read or one published after the store.
   */
  lemma ProbeIsExact(n: nat, states: seq<State>, steps: seq<Step>, p: nat, q: nat, i: nat)
    requires Run(states, steps) && states[0] == Initial(n) && ProbeAt(states, steps, p, q) && Quiet(states[p])
    requires q < i < |states| && (forall j | q < j < i :: !ProbeStep(steps[j])) && Quiet(states[i])
    ensures states[i].peak == states[i].top <==>
            forall j: nat, v: nat | p < j < q && Publishes(states, steps, j, v) ::
              Recovered(states, steps, states[p].live, q, i, v)
  {
    MissedExact(states, steps, p, q, states[i].peak);
    MissedStays(states, steps, q, i);
    PeakCovers(n, states, steps, i);
    SinceQuietRead(n, states, steps, p, i);
    forall v: nat ensures v <= states[i].peak <==> Recovered(states, steps, states[p].live, q, i, v) {
      PeakAfterStore(states, steps, q, i, v);
    }
  }

  /** The states of one thread that allocates while a probe is between its halves. */
  const PROBED: State := Initial(1).(loaded := Some(0))

  function Asking(size: nat): State { PROBED.(threads := [Counting(size)]) }

  function Grown(size: nat): State {
    PROBED.(live := size, threads := [Publishing(size, size)], top := size, ever := size)
  }

  function Given(size: nat): State {
    Grown(size).(threads := [Idle], peak := size, missed := size, owned := [Some(size)])
  }

  function Stored(size: nat): State { Given(size).(peak := 0, loaded := None) }

  lemma OneAllocation(size: nat)
    requires 0 < size < TWO_64
    ensures Enabled(PROBED, Allocate(0, size)) && Next(PROBED, Allocate(0, size)) == Asking(size)
    ensures Enabled(Asking(size), Advance(0)) && Next(Asking(size), Advance(0)) == Grown(size)
    ensures Enabled(Grown(size), Advance(0)) && Next(Grown(size), Advance(0)) == Given(size)
  {
    assert Initial(1).threads == [Idle];
    assert InFlight([Counting(size)]) == 0;
  }

  /** An allocation that starts and finishes between the two halves is lost from the peak. */
  lemma SplitProbeForgets(size: nat)
    requires 0 < size < TWO_64
    ensures var states := [Initial(1), PROBED, Asking(size), Grown(size), Given(size), Stored(size)];
            var steps := [ProbeLoad, Allocate(0, size), Advance(0), Advance(0), ProbeStore];
            && Run(states, steps) && ProbeAt(states, steps, 0, 4) && Quiet(states[0]) && Quiet(Stored(size))
            && Publishes(states, steps, 3, size)
            && Stored(size).peak == 0 < Stored(size).top && !Covered(Stored(size))
  {
    OneAllocation(size);
    assert Initial(1).threads == [Idle];
    assert Enabled(Initial(1), ProbeLoad) && Next(Initial(1), ProbeLoad) == PROBED;
    assert Enabled(Given(size), ProbeStore) && Next(Given(size), ProbeStore) == Stored(size);
  }
}
