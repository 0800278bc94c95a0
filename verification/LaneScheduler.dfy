/** `Runner.runLanes` with MaxParallel of two or more: one goroutine a lane, a
    channel of capacity `limit` as semaphore, and a wait group. Every interleaving
    is a sequence of the steps below. */
module LaneScheduler {
  import opened Results
  import opened Seqs
  import opened Wrappers

  /** Where a lane's goroutine is: not yet started, at the send on the semaphore, past
      it, inside runLane, past it with the outcome stored, and past the receive. */
  datatype Pc = Unspawned | Waiting | Holding | Executing | Ran | Released

  datatype State = State(
    spawned: nat,
    pcs: seq<Pc>,
    tokens: nat,
    outcomes: seq<Option<Outcome>>,
    returned: bool,
    /** Which lane ran and what its run returned, in order of completion. */
    log: seq<(nat, Outcome)>)

  datatype Step = Spawn | Acquire(lane: nat) | Start(lane: nat) | Complete(lane: nat, outcome: Outcome) | Release(lane: nat) | Return

  function Initial(lanes: nat): State {
    State(0, seq(lanes, _ => Unspawned), 0, seq(lanes, _ => None), false, [])
  }

  predicate At(s: State, lane: nat, pc: Pc) {
    lane < |s.pcs| && s.pcs[lane] == pc
  }

  predicate Enabled(s: State, limit: nat, step: Step) {
    match step
    case Spawn => s.spawned < |s.pcs|
    case Acquire(lane) => At(s, lane, Waiting) && s.tokens < limit
    case Start(lane) => At(s, lane, Holding)
    case Complete(lane, _) => At(s, lane, Executing) && lane < |s.outcomes|
    case Release(lane) => At(s, lane, Ran) && s.tokens > 0
    case Return => s.spawned == |s.pcs| && !s.returned && forall lane: nat :: lane < |s.pcs| ==> s.pcs[lane] == Released
  }

  function Next(s: State, limit: nat, step: Step): State
    requires Enabled(s, limit, step)
  {
    match step
    case Spawn => s.(spawned := s.spawned + 1, pcs := s.pcs[s.spawned := Waiting])
    case Acquire(lane) => s.(pcs := s.pcs[lane := Holding], tokens := s.tokens + 1)
    case Start(lane) => s.(pcs := s.pcs[lane := Executing])
    case Complete(lane, outcome) =>
      s.(pcs := s.pcs[lane := Ran], outcomes := s.outcomes[lane := Some(outcome)], log := s.log + [(lane, outcome)])
    case Release(lane) => s.(pcs := s.pcs[lane := Released], tokens := s.tokens - 1)
    case Return => s.(returned := true)
  }

  /** The state after a run of steps, if every step was enabled when it was taken. */
  function Run(lanes: nat, limit: nat, steps: seq<Step>): Option<State> {
    if |steps| == 0 then Some(Initial(lanes))
    else
      var before := Run(lanes, limit, steps[..|steps| - 1]);
      if before.Some? && Enabled(before.value, limit, steps[|steps| - 1])
      then Some(Next(before.value, limit, steps[|steps| - 1]))
      else None
  }

  // ---- Counting ----

  lemma {:induction false} SumAtLeast(pcs: seq<Pc>, small: Pc -> nat, large: Pc -> nat)
    requires forall pc :: small(pc) <= large(pc)
    ensures Sum(pcs, small) <= Sum(pcs, large)
  {
    if |pcs| > 0 {
      SumAtLeast(pcs[..|pcs| - 1], small, large);
    }
  }

  lemma {:induction false} SumPositive(pcs: seq<Pc>, weight: Pc -> nat) returns (lane: nat)
    requires Sum(pcs, weight) > 0
    ensures lane < |pcs| && weight(pcs[lane]) > 0
  {
    if weight(pcs[|pcs| - 1]) > 0 {
      lane := |pcs| - 1;
    } else {
      lane := SumPositive(pcs[..|pcs| - 1], weight);
    }
  }

  function Token(pc: Pc): nat {
    if pc.Holding? || pc.Executing? || pc.Ran? then 1 else 0
  }

  function Busy(pc: Pc): nat {
    if pc.Executing? then 1 else 0
  }

  /** Steps a goroutine still has to take. */
  function Remaining(pc: Pc): nat {
    match pc
    case Unspawned => 5 case Waiting => 4 case Holding => 3 case Executing => 2 case Ran => 1 case Released => 0
  }

  function Measure(s: State): nat {
    Sum(s.pcs, Remaining) + (if s.returned then 0 else 1)
  }

  // ---- The invariant ----

  predicate HasRun(pc: Pc) {
    pc.Ran? || pc.Released?
  }

  /** The semaphore counts exactly the goroutines between its send and its receive. */
  predicate TokensCounted(s: State, lanes: nat, limit: nat) {
    && |s.pcs| == lanes && s.spawned <= lanes
    && (forall lane :: 0 <= lane < lanes ==> (s.pcs[lane].Unspawned? <==> lane >= s.spawned))
    && s.tokens == Sum(s.pcs, Token) && s.tokens <= limit
    && (s.returned ==> forall lane :: 0 <= lane < lanes ==> s.pcs[lane].Released?)
  }

  predicate LoggedAt(log: seq<(nat, Outcome)>, lane: nat) {
    exists k :: 0 <= k < |log| && log[k].0 == lane
  }

  /** Every lane that has run has run once, and its slot holds what that run returned. */
  predicate OutcomesLogged(s: State, lanes: nat) {
    && |s.pcs| == |s.outcomes| == lanes
    && (forall k :: 0 <= k < |s.log| ==>
          s.log[k].0 < lanes && HasRun(s.pcs[s.log[k].0]) && s.outcomes[s.log[k].0] == Some(s.log[k].1))
    && (forall j, k :: 0 <= j < k < |s.log| ==> s.log[j].0 != s.log[k].0)
    && (forall lane :: 0 <= lane < lanes && HasRun(s.pcs[lane]) ==> LoggedAt(s.log, lane))
    && (forall lane :: 0 <= lane < lanes && !HasRun(s.pcs[lane]) ==> s.outcomes[lane].None?)
  }

  predicate Inv(s: State, lanes: nat, limit: nat) {
    TokensCounted(s, lanes, limit) && OutcomesLogged(s, lanes)
  }

  lemma InitialInv(lanes: nat, limit: nat)
    ensures Inv(Initial(lanes), lanes, limit) && Measure(Initial(lanes)) == 5 * lanes + 1
  {
    SumOf(Initial(lanes).pcs, Unspawned, Token);
    SumOf(Initial(lanes).pcs, Unspawned, Remaining);
  }

  /** The lane a step moves and where it moves it. */
  function Moves(s: State, step: Step): Option<(nat, Pc)> {
    match step
    case Spawn => Some((s.spawned, Waiting))
    case Acquire(lane) => Some((lane, Holding))
    case Start(lane) => Some((lane, Executing))
    case Complete(lane, _) => Some((lane, Ran))
    case Release(lane) => Some((lane, Released))
    case Return => None
  }

  lemma StepKeepsTokens(s: State, lanes: nat, limit: nat, step: Step)
    requires TokensCounted(s, lanes, limit) && Enabled(s, limit, step)
    ensures TokensCounted(Next(s, limit, step), lanes, limit)
  {
    if Moves(s, step).Some? {
      var (lane, pc) := Moves(s, step).value;
      SumUpdate(s.pcs, lane, pc, Token);
    }
  }

  /** A step that stores nothing changes neither which lanes have run nor the log. */
  lemma QuietStep(s: State, lanes: nat, limit: nat, step: Step)
    requires TokensCounted(s, lanes, limit) && |s.outcomes| == lanes
    requires Enabled(s, limit, step) && !step.Complete?
    ensures var after := Next(s, limit, step);
            && after.log == s.log && after.outcomes == s.outcomes && |after.pcs| == lanes
            && forall lane :: 0 <= lane < lanes ==> HasRun(after.pcs[lane]) == HasRun(s.pcs[lane])
  {}

  lemma LoggedMore(log: seq<(nat, Outcome)>, entry: (nat, Outcome), lane: nat)
    ensures LoggedAt(log + [entry], lane) <==> LoggedAt(log, lane) || entry.0 == lane
  {
    var more := log + [entry];
    if LoggedAt(log, lane) {
      var k :| 0 <= k < |log| && log[k].0 == lane;
      assert more[k].0 == lane;
    }
    if entry.0 == lane {
      assert more[|log|].0 == lane;
    }
  }

  lemma CompleteKeepsOutcomes(s: State, lanes: nat, done: nat, outcome: Outcome)
    requires OutcomesLogged(s, lanes) && At(s, done, Executing)
    ensures OutcomesLogged(s.(pcs := s.pcs[done := Ran], outcomes := s.outcomes[done := Some(outcome)],
                              log := s.log + [(done, outcome)]), lanes)
  {
    var pcs, log := s.pcs[done := Ran], s.log + [(done, outcome)];
    forall lane | 0 <= lane < lanes && HasRun(pcs[lane])
      ensures LoggedAt(log, lane)
    {
      assert lane == done || HasRun(s.pcs[lane]);
      LoggedMore(s.log, (done, outcome), lane);
    }
    forall k | 0 <= k < |s.log|
      ensures s.log[k].0 != done && log[k] == s.log[k]
    {
      assert HasRun(s.pcs[s.log[k].0]);
    }
  }

  lemma StepKeepsOutcomes(s: State, lanes: nat, limit: nat, step: Step)
    requires TokensCounted(s, lanes, limit) && OutcomesLogged(s, lanes) && Enabled(s, limit, step)
    ensures OutcomesLogged(Next(s, limit, step), lanes)
  {
    if step.Complete? {
      CompleteKeepsOutcomes(s, lanes, step.lane, step.outcome);
    } else {
      QuietStep(s, lanes, limit, step);
    }
  }

  /** Each step brings the end one step nearer. */
  lemma StepDecreases(s: State, lanes: nat, limit: nat, step: Step)
    requires TokensCounted(s, lanes, limit) && Enabled(s, limit, step)
    ensures Measure(Next(s, limit, step)) == Measure(s) - 1
  {
    if Moves(s, step).Some? {
      var (lane, pc) := Moves(s, step).value;
      SumUpdate(s.pcs, lane, pc, Remaining);
    }
  }

  /** Every reachable state keeps the invariant, and has 5 steps a lane and one return
      less to go than steps were taken: no run is longer than that. */
  lemma {:induction false} ReachableInv(lanes: nat, limit: nat, steps: seq<Step>)
    ensures Run(lanes, limit, steps).Some? ==>
      && Inv(Run(lanes, limit, steps).value, lanes, limit)
      && Measure(Run(lanes, limit, steps).value) + |steps| == 5 * lanes + 1
  {
    if |steps| == 0 {
      InitialInv(lanes, limit);
    } else {
      var front, last := steps[..|steps| - 1], steps[|steps| - 1];
      ReachableInv(lanes, limit, front);
      var before := Run(lanes, limit, front);
      if before.Some? && Enabled(before.value, limit, last) {
        StepKeepsTokens(before.value, lanes, limit, last);
        StepKeepsOutcomes(before.value, lanes, limit, last);
        StepDecreases(before.value, lanes, limit, last);
      }
    }
  }

  // ---- What follows ----

  /** At every reachable state at most `limit` lanes are executing. */
  lemma AtMostLimitExecute(lanes: nat, limit: nat, steps: seq<Step>)
    requires Run(lanes, limit, steps).Some?
    ensures Sum(Run(lanes, limit, steps).value.pcs, Busy) <= limit
  {
    ReachableInv(lanes, limit, steps);
    SumAtLeast(Run(lanes, limit, steps).value.pcs, Busy, Token);
  }

  lemma {:induction false} TokenOut(pcs: seq<Pc>, lane: nat)
    requires lane < |pcs| && Token(pcs[lane]) > 0
    ensures Sum(pcs, Token) > 0
  {
    if lane < |pcs| - 1 {
      TokenOut(pcs[..|pcs| - 1], lane);
    }
  }

  /** A reachable state from which nothing can happen is one where runLanes has
      returned: there is no deadlock. */
  lemma NoDeadlock(lanes: nat, limit: nat, steps: seq<Step>, any: Outcome) returns (step: Step)
    requires limit > 0 && Run(lanes, limit, steps).Some? && !Run(lanes, limit, steps).value.returned
    ensures Enabled(Run(lanes, limit, steps).value, limit, step)
  {
    ReachableInv(lanes, limit, steps);
    var s := Run(lanes, limit, steps).value;
    if s.spawned < lanes {
      step := Spawn;
    } else if exists lane: nat :: lane < lanes && !s.pcs[lane].Released? {
      var lane: nat :| lane < lanes && !s.pcs[lane].Released?;
      if s.pcs[lane].Waiting? && s.tokens == limit {
        // Someone holds the token this lane waits for, and can go on.
        lane := SumPositive(s.pcs, Token);
      }
      step := match s.pcs[lane]
        case Waiting => Acquire(lane)
        case Holding => Start(lane)
        case Executing => Complete(lane, any)
        case _ => Step.Release(lane);
      if s.pcs[lane].Ran? {
        TokenOut(s.pcs, lane);
      }
    } else {
      step := Return;
    }
  }

  /** The log has an entry for the lane, whose outcome is the one in its slot. */
  predicate RanWith(s: State, lane: nat) {
    exists k :: 0 <= k < |s.log| && s.log[k].0 == lane && lane < |s.outcomes| && s.outcomes[lane] == Some(s.log[k].1)
  }

  lemma LoggedRan(s: State, lanes: nat, lane: nat)
    requires OutcomesLogged(s, lanes) && lane < lanes && HasRun(s.pcs[lane])
    ensures RanWith(s, lane)
  {
    assert LoggedAt(s.log, lane);
    var k :| 0 <= k < |s.log| && s.log[k].0 == lane;
    assert s.outcomes[s.log[k].0] == Some(s.log[k].1);
  }

  /** No lane has two entries in the log. */
  predicate RanAtMostOnce(s: State) {
    forall j, k :: 0 <= j < k < |s.log| ==> s.log[j].0 != s.log[k].0
  }

  /** When runLanes returns, every lane ran exactly once, and outcomes[i] is what lane
      i's run returned. */
  lemma AllRanOnce(lanes: nat, limit: nat, steps: seq<Step>)
    requires Run(lanes, limit, steps).Some? && Run(lanes, limit, steps).value.returned
    ensures var s := Run(lanes, limit, steps).value;
            && |steps| == 5 * lanes + 1 && |s.outcomes| == lanes
            && (forall lane: nat :: lane < lanes ==> RanWith(s, lane))
            && RanAtMostOnce(s)
  {
    ReachableInv(lanes, limit, steps);
    var s := Run(lanes, limit, steps).value;
    SumOf(s.pcs, Released, Remaining);
    forall lane: nat | lane < lanes
      ensures RanWith(s, lane)
    {
      LoggedRan(s, lanes, lane);
    }
  }

  /** Each run of a lane returns what `runs` says of it. */
  predicate Follows(steps: seq<Step>, runs: nat -> Outcome) {
    forall k :: 0 <= k < |steps| && steps[k].Complete? ==> steps[k].outcome == runs(steps[k].lane)
  }

  lemma {:induction false} LogFollows(lanes: nat, limit: nat, steps: seq<Step>, runs: nat -> Outcome)
    requires Run(lanes, limit, steps).Some? && Follows(steps, runs)
    ensures forall k :: 0 <= k < |Run(lanes, limit, steps).value.log| ==>
      Run(lanes, limit, steps).value.log[k].1 == runs(Run(lanes, limit, steps).value.log[k].0)
  {
    if |steps| > 0 {
      LogFollows(lanes, limit, steps[..|steps| - 1], runs);
    }
  }

  /** The outcomes of the sequential branch. */
  function Sequential(lanes: nat, runs: nat -> Outcome): seq<Option<Outcome>> {
    seq(lanes, lane requires 0 <= lane => Some(runs(lane)))
  }

  /** Whatever the interleaving, the outcomes are those of running the lanes one after
      the other. */
  lemma ConcurrentRefinesSequential(lanes: nat, limit: nat, steps: seq<Step>, runs: nat -> Outcome)
    requires Run(lanes, limit, steps).Some? && Run(lanes, limit, steps).value.returned && Follows(steps, runs)
    ensures Run(lanes, limit, steps).value.outcomes == Sequential(lanes, runs)
  {
    AllRanOnce(lanes, limit, steps);
    LogFollows(lanes, limit, steps, runs);
    var s := Run(lanes, limit, steps).value;
    forall lane: nat | lane < lanes
      ensures s.outcomes[lane] == Some(runs(lane))
    {
      assert RanWith(s, lane);
    }
  }

  // ---- The sequential branch is one of the interleavings ----

  /** A lane's goroutine from its spawn to its end, after these steps. */
  function OneLane(steps: seq<Step>, lane: nat, runs: nat -> Outcome): seq<Step> {
    steps + [Spawn] + [Acquire(lane)] + [Start(lane)] + [Complete(lane, runs(lane))] + [Step.Release(lane)]
  }

  /** Lane after lane. */
  function SequentialSteps(lanes: nat, runs: nat -> Outcome): seq<Step> {
    if lanes == 0 then [] else OneLane(SequentialSteps(lanes - 1, runs), lanes - 1, runs)
  }

  /** The state once the first `done` lanes have run. */
  function AfterLanes(lanes: nat, done: nat, runs: nat -> Outcome): State
    requires done <= lanes
  {
    State(done,
          seq(lanes, lane => if lane < done then Released else Unspawned), 0,
          seq(lanes, lane requires 0 <= lane => if lane < done then Some(runs(lane)) else None), false,
          seq(done, lane requires 0 <= lane => (lane, runs(lane))))
  }

  /** The first `lane` lanes have run, and the next one's goroutine has come to `pc`. */
  function Midway(lanes: nat, lane: nat, pc: Pc, runs: nat -> Outcome): State
    requires lane < lanes
  {
    var s := AfterLanes(lanes, lane, runs);
    State(lane + 1, s.pcs[lane := pc], Token(pc),
          if HasRun(pc) then s.outcomes[lane := Some(runs(lane))] else s.outcomes, false,
          if HasRun(pc) then s.log + [(lane, runs(lane))] else s.log)
  }

  /** The step a goroutine takes next, and where it comes to. */
  function Onward(lane: nat, pc: Pc, runs: nat -> Outcome): (Step, Pc)
    requires !pc.Unspawned? && !pc.Released?
  {
    match pc
    case Waiting => (Acquire(lane), Holding)
    case Holding => (Start(lane), Executing)
    case Executing => (Complete(lane, runs(lane)), Ran)
    case Ran => (Step.Release(lane), Released)
  }

  lemma MidwayStep(lanes: nat, limit: nat, lane: nat, pc: Pc, runs: nat -> Outcome)
    requires limit > 0 && lane < lanes && !pc.Unspawned? && !pc.Released?
    ensures var s := Midway(lanes, lane, pc, runs);
            var (step, after) := Onward(lane, pc, runs);
            Enabled(s, limit, step) && Next(s, limit, step) == Midway(lanes, lane, after, runs)
  {
    var s := Midway(lanes, lane, pc, runs);
    var (step, after) := Onward(lane, pc, runs);
    assert s.pcs[lane := after] == AfterLanes(lanes, lane, runs).pcs[lane := after];
  }

  lemma FirstStep(lanes: nat, limit: nat, lane: nat, runs: nat -> Outcome)
    requires lane < lanes
    ensures var s := AfterLanes(lanes, lane, runs);
            Enabled(s, limit, Spawn) && Next(s, limit, Spawn) == Midway(lanes, lane, Waiting, runs)
  {}

  lemma LastStep(lanes: nat, lane: nat, runs: nat -> Outcome)
    requires lane < lanes
    ensures Midway(lanes, lane, Released, runs) == AfterLanes(lanes, lane + 1, runs)
  {
    var s, t := Midway(lanes, lane, Released, runs), AfterLanes(lanes, lane + 1, runs);
    assert s.pcs == t.pcs && s.outcomes == t.outcomes && s.log == t.log;
  }

  lemma RunSnoc(lanes: nat, limit: nat, steps: seq<Step>, step: Step, before: State)
    requires Run(lanes, limit, steps) == Some(before) && Enabled(before, limit, step)
    ensures Run(lanes, limit, steps + [step]) == Some(Next(before, limit, step))
  {
    var all := steps + [step];
    assert all[..|all| - 1] == steps;
  }

  lemma RunOnward(lanes: nat, limit: nat, steps: seq<Step>, lane: nat, pc: Pc, runs: nat -> Outcome)
    requires limit > 0 && lane < lanes && !pc.Unspawned? && !pc.Released?
    requires Run(lanes, limit, steps) == Some(Midway(lanes, lane, pc, runs))
    ensures var (step, after) := Onward(lane, pc, runs);
            Run(lanes, limit, steps + [step]) == Some(Midway(lanes, lane, after, runs))
  {
    MidwayStep(lanes, limit, lane, pc, runs);
    RunSnoc(lanes, limit, steps, Onward(lane, pc, runs).0, Midway(lanes, lane, pc, runs));
  }

  lemma LaneReaches(lanes: nat, limit: nat, steps: seq<Step>, lane: nat, runs: nat -> Outcome)
    requires limit > 0 && lane < lanes
    requires Run(lanes, limit, steps) == Some(AfterLanes(lanes, lane, runs))
    ensures Run(lanes, limit, OneLane(steps, lane, runs)) == Some(AfterLanes(lanes, lane + 1, runs))
  {
    FirstStep(lanes, limit, lane, runs);
    RunSnoc(lanes, limit, steps, Spawn, AfterLanes(lanes, lane, runs));
    var t1 := steps + [Spawn];
    RunOnward(lanes, limit, t1, lane, Waiting, runs);
    var t2 := t1 + [Acquire(lane)];
    RunOnward(lanes, limit, t2, lane, Holding, runs);
    var t3 := t2 + [Start(lane)];
    RunOnward(lanes, limit, t3, lane, Executing, runs);
    var t4 := t3 + [Complete(lane, runs(lane))];
    RunOnward(lanes, limit, t4, lane, Ran, runs);
    LastStep(lanes, lane, runs);
  }

  lemma {:induction false} SequentialReaches(lanes: nat, limit: nat, done: nat, runs: nat -> Outcome)
    requires limit > 0 && done <= lanes
    ensures Run(lanes, limit, SequentialSteps(done, runs)) == Some(AfterLanes(lanes, done, runs))
  {
    if done > 0 {
      SequentialReaches(lanes, limit, done - 1, runs);
      LaneReaches(lanes, limit, SequentialSteps(done - 1, runs), done - 1, runs);
    } else {
      assert Initial(lanes) == AfterLanes(lanes, 0, runs);
    }
  }

  /** Running the lanes one after the other is a complete run, so every lane's outcome
      can be reached, whatever the limit. */
  lemma SequentialIsARun(lanes: nat, limit: nat, runs: nat -> Outcome)
    requires limit > 0
    ensures var end := Run(lanes, limit, SequentialSteps(lanes, runs) + [Return]);
            end.Some? && end.value.returned && end.value.outcomes == Sequential(lanes, runs)
  {
    SequentialReaches(lanes, limit, lanes, runs);
    RunSnoc(lanes, limit, SequentialSteps(lanes, runs), Return, AfterLanes(lanes, lanes, runs));
  }
}
