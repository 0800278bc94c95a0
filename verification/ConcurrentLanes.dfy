/** `Runner.runLanes` with its lanes at work: the scheduler's steps and the lanes' dealings
    with their enclaves, in every interleaving, on an engine that others use as well. A
    lane's dealings are those its protocol accepts, which `ExecuteLane` follows. */
module ConcurrentLanes {
  import opened DevnetManager
  import opened EnclaveHistory
  import opened LaneLifecycle
  import opened LaneProtocol
  import opened Results
  import opened Seqs
  import opened Wrappers
  import LanePlan
  import LaneScheduler

  datatype Plan = Plan(lanes: seq<PlannedLane>, provision: bool, limit: nat, before: Enclaves)

  datatype World = World(run: LaneScheduler.State, enclaves: Enclaves, history: seq<Moment>)

  datatype Turn = Schedule(step: LaneScheduler.Step) | Happen(moment: Moment)

  function InitialWorld(plan: Plan): World {
    World(LaneScheduler.Initial(|plan.lanes|), plan.before, [])
  }

  function LaneProgress(plan: Plan, w: World, lane: nat): Progress
    requires lane < |plan.lanes|
  {
    ProgressOf(w.history, plan.lanes[lane].enclave)
  }

  /** The lane is executing, and its protocol has this event next. */
  predicate MayAct(plan: Plan, w: World, lane: nat, e: Event) {
    && lane < |plan.lanes| && LaneScheduler.At(w.run, lane, LaneScheduler.Executing)
    && Accepts(plan.provision, Own(w.history, plan.lanes[lane].enclave), e)
  }

  predicate MayHappen(plan: Plan, w: World, m: Moment) {
    match m
    case Vanish(_) => true
    case By(name, e) =>
      name in EnclavesOf(plan.lanes) ==>
        exists lane: nat :: lane < |plan.lanes| && plan.lanes[lane].enclave == name && MayAct(plan, w, lane, e)
  }

  /** A lane completes with the outcome its dealings ended with. */
  predicate MayComplete(plan: Plan, w: World, lane: nat, outcome: Outcome) {
    && lane < |plan.lanes| && Ended(LaneProgress(plan, w, lane))
    && outcome == OutcomeOf(plan.lanes[lane].name, LaneProgress(plan, w, lane))
  }

  predicate Enabled(plan: Plan, w: World, turn: Turn) {
    match turn
    case Schedule(step) =>
      && LaneScheduler.Enabled(w.run, plan.limit, step)
      && (step.Complete? ==> MayComplete(plan, w, step.lane, step.outcome))
    case Happen(m) => Possible(w.enclaves, m) && MayHappen(plan, w, m)
  }

  function Next(plan: Plan, w: World, turn: Turn): World
    requires Enabled(plan, w, turn)
  {
    match turn
    case Schedule(step) => w.(run := LaneScheduler.Next(w.run, plan.limit, step))
    case Happen(m) => w.(enclaves := After(w.enclaves, m), history := w.history + [m])
  }

  /** The world after these turns, if each was enabled when it was taken. */
  function WorldAfter(plan: Plan, turns: seq<Turn>): Option<World> {
    if |turns| == 0 then Some(InitialWorld(plan))
    else
      var before := WorldAfter(plan, turns[..|turns| - 1]);
      if before.Some? && Enabled(plan, before.value, turns[|turns| - 1])
      then Some(Next(plan, before.value, turns[|turns| - 1]))
      else None
  }

  function Scheduled(turns: seq<Turn>): seq<LaneScheduler.Step> {
    if |turns| == 0 then []
    else
      var last := turns[|turns| - 1];
      Scheduled(turns[..|turns| - 1]) + (if last.Schedule? then [last.step] else [])
  }

  /** The scheduler runs as it does alone: every run of the lanes at work is a run of the
      scheduler, and keeps all that those keep. */
  lemma {:induction false} RunsTheScheduler(plan: Plan, turns: seq<Turn>)
    ensures WorldAfter(plan, turns).Some? ==>
      LaneScheduler.Run(|plan.lanes|, plan.limit, Scheduled(turns)) == Some(WorldAfter(plan, turns).value.run)
  {
    if |turns| > 0 {
      var front, last := turns[..|turns| - 1], turns[|turns| - 1];
      RunsTheScheduler(plan, front);
      var before := WorldAfter(plan, front);
      if before.Some? && Enabled(plan, before.value, last) {
        if last.Schedule? {
          LaneScheduler.RunSnoc(|plan.lanes|, plan.limit, Scheduled(front), last.step, before.value.run);
        } else {
          assert Scheduled(turns) == Scheduled(front);
        }
      }
    }
  }

  // ---- What every reachable world keeps ----

  /** How a lane's goroutine, its dealings with its enclave and its outcome go together. */
  predicate LaneInStep(plan: Plan, w: World, lane: nat)
    requires lane < |plan.lanes| && |w.run.pcs| == |w.run.outcomes| == |plan.lanes|
  {
    var p, pc := LaneProgress(plan, w, lane), w.run.pcs[lane];
    && ProgressSuits(p, plan.provision)
    && (LaneScheduler.HasRun(pc) ==>
          Ended(p) && w.run.outcomes[lane] == Some(OutcomeOf(plan.lanes[lane].name, p)))
    && (!LaneScheduler.HasRun(pc) && !pc.Executing? ==> p == Idle)
  }

  predicate Keeps(plan: Plan, w: World) {
    && |w.run.pcs| == |w.run.outcomes| == |plan.lanes|
    && Lawful(plan.before, w.history) && Replay(plan.before, w.history) == w.enclaves
    && forall lane: nat :: lane < |plan.lanes| ==> LaneInStep(plan, w, lane)
  }

  lemma OwnEventKeepsStep(plan: Plan, w: World, next: World, lane: nat, e: Event)
    requires lane < |plan.lanes| && |w.run.pcs| == |w.run.outcomes| == |plan.lanes|
    requires LaneInStep(plan, w, lane) && MayAct(plan, w, lane, e)
    requires next.run == w.run && LaneProgress(plan, next, lane) == Advance(LaneProgress(plan, w, lane), e)
    ensures LaneInStep(plan, next, lane)
  {
    AdvanceSuits(LaneProgress(plan, w, lane), e, plan.provision);
  }

  lemma OnlyOwner(lanes: seq<PlannedLane>, a: nat, b: nat)
    requires Distinct(EnclavesOf(lanes)) && a < |lanes| && b < |lanes| && lanes[a].enclave == lanes[b].enclave
    ensures a == b
  {
    assert EnclavesOf(lanes)[a] == EnclavesOf(lanes)[b];
  }

  /** A moment moves the dealings of one lane at most, which is executing. */
  lemma MomentKeepsStep(plan: Plan, w: World, m: Moment, lane: nat)
    requires Distinct(EnclavesOf(plan.lanes)) && Keeps(plan, w) && lane < |plan.lanes|
    requires MayHappen(plan, w, m)
    ensures LaneInStep(plan, World(w.run, After(w.enclaves, m), w.history + [m]), lane)
  {
    var name, next := plan.lanes[lane].enclave, World(w.run, After(w.enclaves, m), w.history + [m]);
    assert LaneInStep(plan, w, lane);
    ProgressStep(w.history, m, name);
    if m.By? && m.name == name {
      assert EnclavesOf(plan.lanes)[lane] == name;
      var actor: nat :| actor < |plan.lanes| && plan.lanes[actor].enclave == name && MayAct(plan, w, actor, m.event);
      OnlyOwner(plan.lanes, actor, lane);
      OwnEventKeepsStep(plan, w, next, lane, m.event);
    } else {
      assert LaneProgress(plan, next, lane) == LaneProgress(plan, w, lane);
    }
  }

  lemma ScheduleKeepsStep(plan: Plan, w: World, step: LaneScheduler.Step, lane: nat)
    requires Keeps(plan, w) && LaneScheduler.Inv(w.run, |plan.lanes|, plan.limit) && lane < |plan.lanes|
    requires Enabled(plan, w, Schedule(step))
    ensures |Next(plan, w, Schedule(step)).run.pcs| == |Next(plan, w, Schedule(step)).run.outcomes| == |plan.lanes|
    ensures LaneInStep(plan, Next(plan, w, Schedule(step)), lane)
  {
    assert LaneInStep(plan, w, lane);
  }

  lemma TurnKeeps(plan: Plan, w: World, turn: Turn)
    requires Distinct(EnclavesOf(plan.lanes)) && LaneScheduler.Inv(w.run, |plan.lanes|, plan.limit)
    requires Keeps(plan, w) && Enabled(plan, w, turn)
    ensures Keeps(plan, Next(plan, w, turn))
  {
    if turn.Happen? {
      OneMore(plan.before, w.history, turn.moment);
    } else {
      LaneScheduler.StepKeepsTokens(w.run, |plan.lanes|, plan.limit, turn.step);
      LaneScheduler.StepKeepsOutcomes(w.run, |plan.lanes|, plan.limit, turn.step);
    }
    forall lane: nat | lane < |plan.lanes|
      ensures LaneInStep(plan, Next(plan, w, turn), lane)
    {
      match turn
      case Happen(m) => MomentKeepsStep(plan, w, m, lane);
      case Schedule(step) => ScheduleKeepsStep(plan, w, step, lane);
    }
  }

  lemma {:induction false} ReachableKeeps(plan: Plan, turns: seq<Turn>)
    requires Distinct(EnclavesOf(plan.lanes))
    ensures WorldAfter(plan, turns).Some? ==> Keeps(plan, WorldAfter(plan, turns).value)
  {
    if |turns| == 0 {
      assert forall name :: ProgressOf([], name) == Idle;
    } else {
      var front, last := turns[..|turns| - 1], turns[|turns| - 1];
      ReachableKeeps(plan, front);
      var before := WorldAfter(plan, front);
      if before.Some? && Enabled(plan, before.value, last) {
        RunsTheScheduler(plan, front);
        LaneScheduler.ReachableInv(|plan.lanes|, plan.limit, Scheduled(front));
        TurnKeeps(plan, before.value, last);
      }
    }
  }

  // ---- The whole run ----

  /** The lane's outcome is there, and the lane is accounted for. */
  predicate LaneAccounted(plan: Plan, w: World, lane: nat)
    requires lane < |plan.lanes| && |w.run.outcomes| == |plan.lanes|
  {
    var outcome := w.run.outcomes[lane];
    outcome.Some? && Accounted(plan.provision, plan.before, w.history, plan.lanes[lane].enclave, outcome.value)
  }

  lemma EndedLaneAccounted(plan: Plan, w: World, lane: nat)
    requires Keeps(plan, w) && lane < |plan.lanes| && LaneScheduler.HasRun(w.run.pcs[lane])
    ensures LaneAccounted(plan, w, lane)
  {
    assert LaneInStep(plan, w, lane);
    EndedAccounted(plan.provision, plan.before, w.history, plan.lanes[lane].enclave, plan.lanes[lane].name);
  }

  /** At every reachable world, for every limit, failure and interleaving: at most
      `limit` lanes are executing, and every lane that has run is accounted for. */
  lemma EveryLaneAccounted(plan: Plan, turns: seq<Turn>)
    requires Distinct(EnclavesOf(plan.lanes)) && WorldAfter(plan, turns).Some?
    ensures var w := WorldAfter(plan, turns).value;
            && Sum(w.run.pcs, LaneScheduler.Busy) <= plan.limit
            && |w.run.pcs| == |w.run.outcomes| == |plan.lanes|
            && forall lane: nat :: lane < |plan.lanes| && LaneScheduler.HasRun(w.run.pcs[lane]) ==>
                 LaneAccounted(plan, w, lane)
  {
    var w := WorldAfter(plan, turns).value;
    ReachableKeeps(plan, turns);
    RunsTheScheduler(plan, turns);
    LaneScheduler.AtMostLimitExecute(|plan.lanes|, plan.limit, Scheduled(turns));
    forall lane: nat | lane < |plan.lanes| && LaneScheduler.HasRun(w.run.pcs[lane])
      ensures LaneAccounted(plan, w, lane)
    {
      EndedLaneAccounted(plan, w, lane);
    }
  }

  /** Every lane has an outcome, and is accounted for. */
  predicate AllLanesAccounted(plan: Plan, w: World) {
    |w.run.outcomes| == |plan.lanes| && forall lane: nat :: lane < |plan.lanes| ==> LaneAccounted(plan, w, lane)
  }

  /** When runLanes has returned, every lane is accounted for: an enclave that a lane was to
      provision and that is still there shows in that lane's error. */
  lemma RunAccounts(plan: Plan, turns: seq<Turn>)
    requires Distinct(EnclavesOf(plan.lanes)) && WorldAfter(plan, turns).Some?
    requires WorldAfter(plan, turns).value.run.returned
    ensures AllLanesAccounted(plan, WorldAfter(plan, turns).value)
  {
    var w := WorldAfter(plan, turns).value;
    EveryLaneAccounted(plan, turns);
    RunsTheScheduler(plan, turns);
    LaneScheduler.ReachableInv(|plan.lanes|, plan.limit, Scheduled(turns));
    assert forall lane: nat :: lane < |plan.lanes| ==> w.run.pcs[lane].Released?;
  }

  // ---- No deadlock, and an end ----

  /** A failing answer the protocol takes wherever it has not ended. */
  function AnyEvent(p: Progress, provision: bool, closed: Outcome): Event
    requires !Ended(p) && p != Stuck
  {
    match p
    case Idle => if provision then Start(false, true) else Inspect(false)
    case Inspecting | Starting(_) | Looking(_) => Exists(None)
    case Attaching => Attach(false)
    case Creating(_) => Create(false, false)
    case Provisioning(_) => Provision(false)
    case StartDiagnosing | Diagnosing(_) | LateDiagnosing(_) => Diagnose(false)
    case Leased(_) => Body(closed)
    case Releasing(_) => Stop(false)
    case Destroying(_) => Destroy(false, false)
    case Confirming(_, _) => GiveUp
  }

  lemma AnyEventAccepted(p: Progress, provision: bool, closed: Outcome, s: Enclaves, name: string)
    requires ProgressSuits(p, provision) && !Ended(p) && !closed.bootstrapFailed
    ensures var e := AnyEvent(p, provision, closed);
            SuitsMode(provision, e) && Advance(p, e) != Stuck && Advance(p, e) != p && Possible(s, By(name, e))
  {}

  /** The turn is the run's own, and brings it on: a step of the scheduler, or an event of
      one of its lanes that is not another poll of a destruction. */
  predicate Moves(plan: Plan, w: World, turn: Turn) {
    match turn
    case Schedule(_) => true
    case Happen(Vanish(_)) => false
    case Happen(By(name, e)) =>
      name in EnclavesOf(plan.lanes) && Advance(ProgressOf(w.history, name), e) != ProgressOf(w.history, name)
  }

  /** Every reachable world that has not returned can be brought on by a turn of the run's
      own, whatever others do: lanes at work never block the scheduler, nor each other. */
  lemma NoDeadlock(plan: Plan, turns: seq<Turn>, any: Outcome) returns (turn: Turn)
    requires Distinct(EnclavesOf(plan.lanes)) && plan.limit > 0 && !any.bootstrapFailed
    requires WorldAfter(plan, turns).Some? && !WorldAfter(plan, turns).value.run.returned
    ensures Enabled(plan, WorldAfter(plan, turns).value, turn) && Moves(plan, WorldAfter(plan, turns).value, turn)
  {
    var w := WorldAfter(plan, turns).value;
    ReachableKeeps(plan, turns);
    RunsTheScheduler(plan, turns);
    var step := LaneScheduler.NoDeadlock(|plan.lanes|, plan.limit, Scheduled(turns), any);
    turn := Schedule(step);
    if step.Complete? {
      var lane, name := step.lane, plan.lanes[step.lane].enclave;
      assert LaneInStep(plan, w, lane);
      var p := LaneProgress(plan, w, lane);
      if Ended(p) {
        turn := Schedule(LaneScheduler.Complete(lane, OutcomeOf(plan.lanes[lane].name, p)));
      } else {
        AnyEventAccepted(p, plan.provision, any, w.enclaves, name);
        turn := Happen(By(name, AnyEvent(p, plan.provision, any)));
        assert MayAct(plan, w, lane, turn.moment.event);
        assert EnclavesOf(plan.lanes)[lane] == name;
      }
    }
  }

  /** How far each lane has come. */
  function Progresses(plan: Plan, history: seq<Moment>): (progresses: seq<Progress>)
    ensures |progresses| == |plan.lanes|
  {
    seq(|plan.lanes|, i requires 0 <= i < |plan.lanes| => ProgressOf(history, plan.lanes[i].enclave))
  }

  function Measure(plan: Plan, w: World): nat {
    LaneScheduler.Measure(w.run) + Sum(Progresses(plan, w.history), Rank)
  }

  lemma StrangersMoment(plan: Plan, history: seq<Moment>, m: Moment)
    requires m.By? ==> m.name !in EnclavesOf(plan.lanes)
    ensures Progresses(plan, history + [m]) == Progresses(plan, history)
  {
    forall i | 0 <= i < |plan.lanes|
      ensures ProgressOf(history + [m], plan.lanes[i].enclave) == ProgressOf(history, plan.lanes[i].enclave)
    {
      assert EnclavesOf(plan.lanes)[i] == plan.lanes[i].enclave;
      ProgressStep(history, m, plan.lanes[i].enclave);
    }
  }

  lemma OwnersMoment(plan: Plan, history: seq<Moment>, m: Moment, lane: nat)
    requires Distinct(EnclavesOf(plan.lanes)) && lane < |plan.lanes|
    requires m.By? && m.name == plan.lanes[lane].enclave
    ensures Progresses(plan, history + [m])
         == Progresses(plan, history)[lane := Advance(ProgressOf(history, m.name), m.event)]
  {
    forall i: nat | i < |plan.lanes|
      ensures ProgressOf(history + [m], plan.lanes[i].enclave)
           == if i == lane then Advance(ProgressOf(history, m.name), m.event)
              else ProgressOf(history, plan.lanes[i].enclave)
    {
      ProgressStep(history, m, plan.lanes[i].enclave);
      if plan.lanes[i].enclave == m.name {
        OnlyOwner(plan.lanes, i, lane);
      }
    }
  }

  /** A turn that moves the run brings its end nearer, and no other turn puts it off. */
  lemma TurnMeasure(plan: Plan, w: World, turn: Turn)
    requires Distinct(EnclavesOf(plan.lanes)) && LaneScheduler.Inv(w.run, |plan.lanes|, plan.limit)
    requires Enabled(plan, w, turn)
    ensures if Moves(plan, w, turn) then Measure(plan, Next(plan, w, turn)) < Measure(plan, w)
            else Measure(plan, Next(plan, w, turn)) == Measure(plan, w)
  {
    if turn.Schedule? {
      LaneScheduler.StepDecreases(w.run, |plan.lanes|, plan.limit, turn.step);
    } else if turn.moment.By? && turn.moment.name in EnclavesOf(plan.lanes) {
      var name, e := turn.moment.name, turn.moment.event;
      var lane: nat :| lane < |plan.lanes| && plan.lanes[lane].enclave == name && MayAct(plan, w, lane, e);
      OwnersMoment(plan, w.history, turn.moment, lane);
      SumUpdate(Progresses(plan, w.history), lane, Advance(ProgressOf(w.history, name), e), Rank);
      EventAdvances(ProgressOf(w.history, name), e);
    } else {
      StrangersMoment(plan, w.history, turn.moment);
    }
  }

  lemma ReachableTurnMeasure(plan: Plan, turns: seq<Turn>, turn: Turn)
    requires Distinct(EnclavesOf(plan.lanes)) && WorldAfter(plan, turns).Some?
    requires Enabled(plan, WorldAfter(plan, turns).value, turn)
    ensures var w := WorldAfter(plan, turns).value;
            if Moves(plan, w, turn) then Measure(plan, Next(plan, w, turn)) < Measure(plan, w)
            else Measure(plan, Next(plan, w, turn)) == Measure(plan, w)
  {
    RunsTheScheduler(plan, turns);
    LaneScheduler.ReachableInv(|plan.lanes|, plan.limit, Scheduled(turns));
    TurnMeasure(plan, WorldAfter(plan, turns).value, turn);
  }

  /** How many of the turns moved the run. */
  function MovesIn(plan: Plan, turns: seq<Turn>): nat
    requires WorldAfter(plan, turns).Some?
  {
    if |turns| == 0 then 0
    else
      var front, last := turns[..|turns| - 1], turns[|turns| - 1];
      MovesIn(plan, front) + (if Moves(plan, WorldAfter(plan, front).value, last) then 1 else 0)
  }

  /** No run goes on for ever by itself: of the turns of any run, at most 16 a lane and one
      more move it. The others are polls of a destruction, and what others do. */
  lemma {:induction false} MovesBounded(plan: Plan, turns: seq<Turn>)
    requires Distinct(EnclavesOf(plan.lanes)) && WorldAfter(plan, turns).Some?
    ensures MovesIn(plan, turns) + Measure(plan, WorldAfter(plan, turns).value) <= 16 * |plan.lanes| + 1
  {
    if |turns| == 0 {
      LaneScheduler.InitialInv(|plan.lanes|, plan.limit);
      assert forall lane: nat :: lane < |plan.lanes| ==> Progresses(plan, [])[lane] == Idle;
      SumOf(Progresses(plan, []), Idle, Rank);
    } else {
      var front, last := turns[..|turns| - 1], turns[|turns| - 1];
      MovesBounded(plan, front);
      ReachableTurnMeasure(plan, front, last);
    }
  }

  lemma WorldSnoc(plan: Plan, turns: seq<Turn>, turn: Turn)
    requires WorldAfter(plan, turns).Some? && Enabled(plan, WorldAfter(plan, turns).value, turn)
    ensures WorldAfter(plan, turns + [turn]) == Some(Next(plan, WorldAfter(plan, turns).value, turn))
  {
    var all := turns + [turn];
    assert all[..|all| - 1] == turns;
  }

  lemma BroughtOn(plan: Plan, turns: seq<Turn>, turn: Turn)
    requires Distinct(EnclavesOf(plan.lanes)) && WorldAfter(plan, turns).Some?
    requires Enabled(plan, WorldAfter(plan, turns).value, turn) && Moves(plan, WorldAfter(plan, turns).value, turn)
    ensures WorldAfter(plan, turns + [turn]).Some?
    ensures Measure(plan, WorldAfter(plan, turns + [turn]).value) < Measure(plan, WorldAfter(plan, turns).value)
  {
    WorldSnoc(plan, turns, turn);
    ReachableTurnMeasure(plan, turns, turn);
  }

  /** From every reachable world the run can be brought to its return by turns of its own,
      so there are runs that RunAccounts speaks of, whatever came before. */
  lemma {:induction false} CanReturn(plan: Plan, turns: seq<Turn>, any: Outcome) returns (more: seq<Turn>)
    requires Distinct(EnclavesOf(plan.lanes)) && plan.limit > 0 && !any.bootstrapFailed
    requires WorldAfter(plan, turns).Some?
    ensures |more| <= Measure(plan, WorldAfter(plan, turns).value)
    ensures WorldAfter(plan, turns + more).Some? && WorldAfter(plan, turns + more).value.run.returned
    decreases Measure(plan, WorldAfter(plan, turns).value)
  {
    if WorldAfter(plan, turns).value.run.returned {
      more := [];
      assert turns + more == turns;
    } else {
      var turn := NoDeadlock(plan, turns, any);
      BroughtOn(plan, turns, turn);
      var rest := CanReturn(plan, turns + [turn], any);
      more := [turn] + rest;
      InsertBetween(turns, turn, rest);
    }
  }

  // ---- What executeLane does is part of a run ----

  function Happenings(moments: seq<Moment>): seq<Turn> {
    if |moments| == 0 then []
    else Happenings(moments[..|moments| - 1]) + [Happen(moments[|moments| - 1])]
  }

  /** Besides this lane, only others outside the run act. */
  predicate OnlyStrangersBut(plan: Plan, moments: seq<Moment>, lane: nat)
    requires lane < |plan.lanes|
  {
    forall m :: m in moments && m.By? && m.name in EnclavesOf(plan.lanes) ==> m.name == plan.lanes[lane].enclave
  }

  /** The lane is executing, and so far has made these events. */
  predicate HasMade(plan: Plan, w: World, lane: nat, events: seq<Event>) {
    && lane < |plan.lanes| && LaneScheduler.At(w.run, lane, LaneScheduler.Executing)
    && Own(w.history, plan.lanes[lane].enclave) == events
  }

  /** One moment: the lane's next event in the protocol, or anything of no lane. It is
      possible when it comes, whatever other turns came in between. */
  lemma MomentMayCome(plan: Plan, turns: seq<Turn>, lane: nat, events: seq<Event>, m: Moment)
    requires WorldAfter(plan, turns).Some? && HasMade(plan, WorldAfter(plan, turns).value, lane, events)
    requires Possible(WorldAfter(plan, turns).value.enclaves, m)
    requires m.By? && m.name in EnclavesOf(plan.lanes) ==>
      m.name == plan.lanes[lane].enclave && Accepts(plan.provision, events, m.event)
    ensures var w, next := WorldAfter(plan, turns).value, WorldAfter(plan, turns + [Happen(m)]);
            && next.Some? && next.value.run == w.run && next.value.enclaves == After(w.enclaves, m)
            && HasMade(plan, next.value, lane, events + OwnEvent(m, plan.lanes[lane].enclave))
  {
    var w := WorldAfter(plan, turns).value;
    if m.By? && m.name in EnclavesOf(plan.lanes) {
      assert MayAct(plan, w, lane, m.event);
    }
    WorldSnoc(plan, turns, Happen(m));
    OneMore(plan.before, w.history, m);
  }

  /** And turns of other lanes in between, or of the scheduler, leave the lane where it is. */
  lemma OtherTurnsKeep(plan: Plan, turns: seq<Turn>, lane: nat, events: seq<Event>, turn: Turn)
    requires WorldAfter(plan, turns).Some? && HasMade(plan, WorldAfter(plan, turns).value, lane, events)
    requires Enabled(plan, WorldAfter(plan, turns).value, turn)
    requires turn.Schedule? && turn.step.Complete? ==> turn.step.lane != lane
    requires turn.Happen? && turn.moment.By? ==> turn.moment.name != plan.lanes[lane].enclave
    ensures WorldAfter(plan, turns + [turn]).Some?
    ensures HasMade(plan, WorldAfter(plan, turns + [turn]).value, lane, events)
  {
    var w := WorldAfter(plan, turns).value;
    assert turn == Schedule(LaneScheduler.Spawn) ==> !LaneScheduler.At(w.run, w.run.spawned, LaneScheduler.Executing) by {
      RunsTheScheduler(plan, turns);
      LaneScheduler.ReachableInv(|plan.lanes|, plan.limit, Scheduled(turns));
    }
    WorldSnoc(plan, turns, turn);
    if turn.Happen? {
      OneMore(plan.before, w.history, turn.moment);
    }
  }

  /** A whole history in which the lane follows its protocol is part of a run. */
  lemma {:induction false} HistoryIsPartOfARun(plan: Plan, turns: seq<Turn>, lane: nat, moments: seq<Moment>)
    requires WorldAfter(plan, turns).Some? && HasMade(plan, WorldAfter(plan, turns).value, lane, [])
    requires Lawful(WorldAfter(plan, turns).value.enclaves, moments) && OnlyStrangersBut(plan, moments, lane)
    requires Follows(plan.provision, Own(moments, plan.lanes[lane].enclave))
    ensures var w, end := WorldAfter(plan, turns).value, WorldAfter(plan, turns + Happenings(moments));
            && end.Some? && end.value.run == w.run && end.value.enclaves == Replay(w.enclaves, moments)
            && HasMade(plan, end.value, lane, Own(moments, plan.lanes[lane].enclave))
    decreases |moments|
  {
    if |moments| == 0 {
      assert turns + Happenings(moments) == turns;
    } else {
      var front, last := moments[..|moments| - 1], moments[|moments| - 1];
      var name := plan.lanes[lane].enclave;
      assert forall m :: m in front ==> m in moments;
      if last.By? && last.name == name {
        FollowsOneMore(plan.provision, Own(front, name), last.event);
      } else {
        assert Own(moments, name) == Own(front, name);
      }
      HistoryIsPartOfARun(plan, turns, lane, front);
      assert last in moments;
      MomentMayCome(plan, turns + Happenings(front), lane, Own(front, name), last);
      assert turns + Happenings(moments) == turns + Happenings(front) + [Happen(last)];
    }
  }

  lemma IdleHasNone(events: seq<Event>)
    requires ProgressAfter(events) == Idle
    ensures events == []
  {}

  lemma {:induction false} OwnsItsEvents(history: seq<Moment>, m: Moment)
    requires m in history && m.By?
    ensures Own(history, m.name) != []
  {
    var front, last := history[..|history| - 1], history[|history| - 1];
    assert history == front + [last];
    if m != last {
      OwnsItsEvents(front, m);
    }
  }

  /** A lane whose events have come to their end may complete. */
  lemma MayCompleteThen(plan: Plan, turns: seq<Turn>, lane: nat, events: seq<Event>)
    requires WorldAfter(plan, turns).Some? && HasMade(plan, WorldAfter(plan, turns).value, lane, events)
    requires Ended(ProgressAfter(events))
    ensures var outcome := OutcomeOf(plan.lanes[lane].name, ProgressAfter(events));
            Enabled(plan, WorldAfter(plan, turns).value, Schedule(LaneScheduler.Complete(lane, outcome)))
  {
    RunsTheScheduler(plan, turns);
    LaneScheduler.ReachableInv(|plan.lanes|, plan.limit, Scheduled(turns));
  }

  /** If nothing has come of the other lanes' dealings, they had no events. */
  lemma OthersIdle(plan: Plan, lane: nat, progress: string -> Progress, moments: seq<Moment>)
    requires lane < |plan.lanes| && Tracks(progress, moments)
    requires forall name :: name in EnclavesOf(plan.lanes) && name != plan.lanes[lane].enclave ==> progress(name) == Idle
    ensures OnlyStrangersBut(plan, moments, lane)
  {
    forall m | m in moments && m.By? && m.name in EnclavesOf(plan.lanes)
      ensures m.name == plan.lanes[lane].enclave
    {
      OwnsItsEvents(moments, m);
      if ProgressOf(moments, m.name) == Idle {
        IdleHasNone(Own(moments, m.name));
      }
    }
  }

  lemma NothingYet(progress: string -> Progress)
    requires Tracks(progress, [])
    ensures forall name :: progress(name) == Idle
  {
    forall name
      ensures progress(name) == Idle
    {
      assert ProgressOf([], name) == progress(name);
    }
  }

  /** What an execution leaves in the engine's history is part of a run, to its end. */
  lemma ExecutionIsPartOfARun(plan: Plan, turns: seq<Turn>, lane: nat, moments: seq<Moment>)
    requires WorldAfter(plan, turns).Some? && HasMade(plan, WorldAfter(plan, turns).value, lane, [])
    requires Lawful(WorldAfter(plan, turns).value.enclaves, moments) && OnlyStrangersBut(plan, moments, lane)
    requires Follows(plan.provision, Own(moments, plan.lanes[lane].enclave))
    requires Ended(ProgressOf(moments, plan.lanes[lane].enclave))
    ensures var outcome := OutcomeOf(plan.lanes[lane].name, ProgressOf(moments, plan.lanes[lane].enclave));
            var end := WorldAfter(plan, turns + Happenings(moments));
            end.Some? && Enabled(plan, end.value, Schedule(LaneScheduler.Complete(lane, outcome)))
  {
    HistoryIsPartOfARun(plan, turns, lane, moments);
    MayCompleteThen(plan, turns + Happenings(moments), lane, Own(moments, plan.lanes[lane].enclave));
  }

  /** Any execution of a lane, on an engine that others outside the run use meanwhile, is
      part of a run: from any reachable world in which the lane has just begun, there are
      turns to one in which it completes with the outcome of the execution. */
  method ExecuteInRun(manager: Manager, name: string, enclave: string, provision: bool, steps: Steps,
                      ghost plan: Plan, ghost turns: seq<Turn>, ghost lane: nat)
    returns (outcome: Outcome, ghost more: seq<Turn>)
    requires WorldAfter(plan, turns).Some? && HasMade(plan, WorldAfter(plan, turns).value, lane, [])
    requires plan.lanes[lane] == PlannedLane(name, enclave) && plan.provision == provision
    requires manager.engine.Valid() && manager.engine.history == []
    requires manager.engine.initial == WorldAfter(plan, turns).value.enclaves
    requires forall other :: other in EnclavesOf(plan.lanes) ==> !manager.engine.foreign(other)
    modifies manager.engine
    ensures WorldAfter(plan, turns + more).Some?
    ensures Enabled(plan, WorldAfter(plan, turns + more).value, Schedule(LaneScheduler.Complete(lane, outcome)))
  {
    NothingYet(manager.engine.progress);
    assert EnclavesOf(plan.lanes)[lane] == enclave;
    outcome := ExecuteLane(manager, provision, name, enclave, steps);
    ghost var moments := manager.engine.history;
    OthersIdle(plan, lane, manager.engine.progress, moments);
    assert ProgressOf(moments, enclave) == manager.engine.progress(enclave);
    ExecutionIsPartOfARun(plan, turns, lane, moments);
    more := Happenings(moments);
  }

  // ---- The runs of the runner ----

  function PlannedLanes(config: LanePlan.Config, lanes: seq<LanePlan.Lane>, mode: LanePlan.Mode): (planned: seq<PlannedLane>)
    ensures |planned| == |lanes|
  {
    seq(|lanes|, i requires 0 <= i < |lanes| => PlannedLane(lanes[i].name, LanePlan.EnclaveName(config, lanes[i], mode)))
  }

  lemma RunnerEnclavesDiffer(config: LanePlan.Config, lanes: seq<LanePlan.Lane>, mode: LanePlan.Mode)
    requires LanePlan.IsRunnerPlan(lanes, mode)
    ensures Distinct(EnclavesOf(PlannedLanes(config, lanes, mode)))
  {
    LanePlan.RunnerPlansAreDistinct(config, lanes, mode);
    assert EnclavesOf(PlannedLanes(config, lanes, mode)) == LanePlan.EnclaveNames(config, lanes, mode);
  }

  /** The runner's own runs in parallel, of one lane or of every registered lane at once:
      whatever the limit and the engine they start on, every lane is accounted for when
      they return, and from every reachable world they can. */
  lemma RunnerRunAccounts(config: LanePlan.Config, lanes: seq<LanePlan.Lane>, mode: LanePlan.Mode, limit: nat,
                          before: Enclaves, turns: seq<Turn>, any: Outcome) returns (more: seq<Turn>)
    requires LanePlan.IsRunnerPlan(lanes, mode) && limit > 0 && !any.bootstrapFailed
    requires WorldAfter(Plan(PlannedLanes(config, lanes, mode), mode.ProvisionsNetwork(), limit, before), turns).Some?
    ensures var plan := Plan(PlannedLanes(config, lanes, mode), mode.ProvisionsNetwork(), limit, before);
            && (WorldAfter(plan, turns).value.run.returned ==> AllLanesAccounted(plan, WorldAfter(plan, turns).value))
            && WorldAfter(plan, turns + more).Some? && WorldAfter(plan, turns + more).value.run.returned
            && AllLanesAccounted(plan, WorldAfter(plan, turns + more).value)
  {
    var plan := Plan(PlannedLanes(config, lanes, mode), mode.ProvisionsNetwork(), limit, before);
    RunnerEnclavesDiffer(config, lanes, mode);
    if WorldAfter(plan, turns).value.run.returned {
      RunAccounts(plan, turns);
    }
    more := CanReturn(plan, turns, any);
    RunAccounts(plan, turns + more);
  }

  /** And those in sequence, which is what the code does for a limit below two or a single
      lane: the same of every lane at the end. */
  method RunnerRunInOrder(manager: Manager, config: LanePlan.Config, lanes: seq<LanePlan.Lane>, mode: LanePlan.Mode,
                          steps: seq<Steps>)
    returns (outcomes: seq<Outcome>)
    requires LanePlan.IsRunnerPlan(lanes, mode) && |steps| == |lanes|
    requires manager.engine.Valid() && Reserved(manager.engine, PlannedLanes(config, lanes, mode))
    modifies manager.engine
    ensures |outcomes| == |lanes|
    ensures AllAccounted(manager.engine, mode.ProvisionsNetwork(), PlannedLanes(config, lanes, mode), outcomes)
  {
    RunnerEnclavesDiffer(config, lanes, mode);
    outcomes := RunInOrder(manager, mode.ProvisionsNetwork(), PlannedLanes(config, lanes, mode), steps);
  }
}
