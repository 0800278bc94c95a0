/** Planning a run (plan.go): which lanes a mode may run, and the enclave each gets.
    With the scheduler, no two lanes ever hold one enclave at a time. */
module LanePlan {
  import opened LaneScheduler
  import opened Seqs
  import opened Wrappers

  datatype Mode = UseExisting | Provision | ProvisionPerLane {
    predicate ProvisionsNetwork() {
      !UseExisting?
    }

    predicate SuffixesEnclave() {
      ProvisionPerLane?
    }
  }

  datatype Lane = Lane(name: string, restartsServices: bool)

  datatype Config = Config(baseName: string, parameters: seq<int>, seed: int)

  datatype LaneRun = LaneRun(definition: Lane, enclaveName: string, seed: int)

  datatype Refusal = NeedsProvisioning(lane: string) | NeedsProfile(lane: string)

  /** A lane that restarts services needs a network provisioned from its profile. */
  predicate MayRun(config: Config, lane: Lane, mode: Mode) {
    lane.restartsServices ==> mode.ProvisionsNetwork() && config.parameters == []
  }

  function CheckServiceRestarts(config: Config, lane: Lane, mode: Mode): (refusal: Option<Refusal>)
    ensures refusal.None? <==> MayRun(config, lane, mode)
  {
    if !lane.restartsServices then None
    else if !mode.ProvisionsNetwork() then Some(NeedsProvisioning(lane.name))
    else if |config.parameters| != 0 then Some(NeedsProfile(lane.name))
    else None
  }

  function EnclaveName(config: Config, lane: Lane, mode: Mode): string {
    if mode.SuffixesEnclave() then config.baseName + "-" + lane.name else config.baseName
  }

  /** `draws` stands for the random seeds drawn when none is configured. */
  method PlanLanes(config: Config, selected: seq<Lane>, mode: Mode, draws: nat -> int)
    returns (plan: Result<seq<LaneRun>, Refusal>)
    ensures plan.Ok? <==> forall i :: 0 <= i < |selected| ==> MayRun(config, selected[i], mode)
    ensures plan.Ok? ==> |plan.value| == |selected|
    ensures plan.Ok? ==> forall i :: 0 <= i < |selected| ==>
      && plan.value[i].definition == selected[i]
      && plan.value[i].enclaveName == EnclaveName(config, selected[i], mode)
      && plan.value[i].seed == (if config.seed == 0 then draws(i) else config.seed)
    // The first lane that may not run is the one reported.
    ensures plan.Err? ==> exists i ::
      (0 <= i < |selected| && plan.error.lane == selected[i].name && !MayRun(config, selected[i], mode)
       && forall j :: 0 <= j < i ==> MayRun(config, selected[j], mode))
  {
    var runs: seq<LaneRun> := [];
    for index := 0 to |selected|
      invariant |runs| == index
      invariant forall i :: 0 <= i < index ==>
        && MayRun(config, selected[i], mode)
        && runs[i].definition == selected[i]
        && runs[i].enclaveName == EnclaveName(config, selected[i], mode)
        && runs[i].seed == (if config.seed == 0 then draws(i) else config.seed)
    {
      var lane := selected[index];
      var refusal := CheckServiceRestarts(config, lane, mode);
      if refusal.Some? { return Err(refusal.value); }
      var enclaveName := config.baseName;
      if mode.SuffixesEnclave() {
        enclaveName := enclaveName + "-" + lane.name;
      }
      var seed := config.seed;
      if seed == 0 {
        seed := draws(index);
      }
      runs := runs + [LaneRun(lane, enclaveName, seed)];
    }
    return Ok(runs);
  }

  function LaneNames(lanes: seq<Lane>): (names: seq<string>)
    ensures |names| == |lanes|
  {
    seq(|lanes|, i requires 0 <= i < |lanes| => lanes[i].name)
  }

  function EnclaveNames(config: Config, lanes: seq<Lane>, mode: Mode): (names: seq<string>)
    ensures |names| == |lanes|
  {
    seq(|lanes|, i requires 0 <= i < |lanes| => EnclaveName(config, lanes[i], mode))
  }

  lemma SuffixInjective(base: string, a: string, b: string)
    requires base + "-" + a == base + "-" + b
    ensures a == b
  {
    assert a == (base + "-" + a)[|base| + 1..] && b == (base + "-" + b)[|base| + 1..];
  }

  /** The lanes of a plan have enclaves of their own exactly when there is at most one
      lane, or each enclave carries a lane name and the names differ. */
  lemma EnclavesDistinctIff(config: Config, lanes: seq<Lane>, mode: Mode)
    ensures Distinct(EnclaveNames(config, lanes, mode)) <==>
      |lanes| <= 1 || (mode.SuffixesEnclave() && Distinct(LaneNames(lanes)))
  {
    var enclaves, names := EnclaveNames(config, lanes, mode), LaneNames(lanes);
    if |lanes| > 1 {
      if mode.SuffixesEnclave() {
        forall i, j | 0 <= i < j < |lanes|
          ensures enclaves[i] == enclaves[j] <==> names[i] == names[j]
        {
          if enclaves[i] == enclaves[j] {
            SuffixInjective(config.baseName, lanes[i].name, lanes[j].name);
          }
        }
      } else {
        assert enclaves[0] == enclaves[1];
      }
    }
  }

  // ---- The plans of the runner ----

  /** The registered lanes, in order (e2e/internal/lanes/lanes.go). */
  const REGISTRY := [
    Lane("execution", false), Lane("consensus-staking-automated", false), Lane("consensus-staking-operator", false),
    Lane("consensus-penalties", false), Lane("resilience-network-restart", true), Lane("sync", false)]

  /** What `Test`, `Run` and `RunAll` run: one lane, or all of them with enclaves that
      carry their names. */
  predicate IsRunnerPlan(lanes: seq<Lane>, mode: Mode) {
    |lanes| == 1 || (lanes == REGISTRY && mode == ProvisionPerLane)
  }

  lemma RegistryNamesDiffer()
    ensures Distinct(LaneNames(REGISTRY))
  {
    assert "execution"[0] == 'e' && "resilience-network-restart"[0] == 'r' && "sync"[0] == 's';
    assert |"consensus-staking-automated"| == 27 && |"consensus-staking-operator"| == 26 && |"consensus-penalties"| == 19;
    assert "consensus-penalties"[0] == "consensus-staking-automated"[0] == "consensus-staking-operator"[0] == 'c';
  }

  /** Lanes of one run never share a name or an enclave. */
  lemma RunnerPlansAreDistinct(config: Config, lanes: seq<Lane>, mode: Mode)
    requires IsRunnerPlan(lanes, mode)
    ensures Distinct(LaneNames(lanes)) && Distinct(EnclaveNames(config, lanes, mode))
  {
    RegistryNamesDiffer();
    EnclavesDistinctIff(config, lanes, mode);
  }

  // ---- Sharing an enclave ----

  /** A goroutine that has a token may hold its lane's enclave. */
  predicate MayHoldEnclave(s: State, lane: nat) {
    lane < |s.pcs| && Token(s.pcs[lane]) > 0
  }

  /** Two lanes that may hold an enclave have the same one. */
  predicate SharesEnclave(s: State, enclaves: seq<string>) {
    exists i: nat, j: nat :: i < j < |enclaves| && enclaves[i] == enclaves[j] && MayHoldEnclave(s, i) && MayHoldEnclave(s, j)
  }

  function Spawns(n: nat): seq<Step> {
    if n == 0 then [] else Spawns(n - 1) + [Spawn]
  }

  /** The first n goroutines are waiting for the semaphore. */
  function AllWaiting(lanes: nat, n: nat): State {
    Initial(lanes).(spawned := n, pcs := seq(lanes, lane => if lane < n then Waiting else Unspawned))
  }

  lemma {:induction false} SpawnsReach(lanes: nat, limit: nat, n: nat)
    requires n <= lanes
    ensures Run(lanes, limit, Spawns(n)) == Some(AllWaiting(lanes, n))
  {
    if n > 0 {
      SpawnsReach(lanes, limit, n - 1);
      RunSnoc(lanes, limit, Spawns(n - 1), Spawn, AllWaiting(lanes, n - 1));
      assert AllWaiting(lanes, n - 1).pcs[n - 1 := Waiting] == AllWaiting(lanes, n).pcs;
    } else {
      assert AllWaiting(lanes, 0).pcs == Initial(lanes).pcs;
    }
  }

  /** Any two lanes can hold a token at once when there are two. */
  lemma TwoMayHold(lanes: nat, limit: nat, i: nat, j: nat) returns (steps: seq<Step>)
    requires limit >= 2 && i < j < lanes
    ensures Run(lanes, limit, steps).Some?
    ensures MayHoldEnclave(Run(lanes, limit, steps).value, i) && MayHoldEnclave(Run(lanes, limit, steps).value, j)
  {
    SpawnsReach(lanes, limit, lanes);
    var waiting := AllWaiting(lanes, lanes);
    RunSnoc(lanes, limit, Spawns(lanes), Acquire(i), waiting);
    var one := Next(waiting, limit, Acquire(i));
    RunSnoc(lanes, limit, Spawns(lanes) + [Acquire(i)], Acquire(j), one);
    steps := Spawns(lanes) + [Acquire(i)] + [Acquire(j)];
  }

  /** Among the states two or more parallel lanes can reach, none has two lanes that may
      hold the same enclave exactly when the plan has at most one lane, or names its
      enclaves after lanes whose names differ. */
  lemma NoSharedEnclaveIff(config: Config, lanes: seq<Lane>, mode: Mode, limit: nat)
    requires limit >= 2
    ensures (forall steps {:trigger Run(|lanes|, limit, steps)} :: Run(|lanes|, limit, steps).Some? ==>
               !SharesEnclave(Run(|lanes|, limit, steps).value, EnclaveNames(config, lanes, mode)))
       <==> |lanes| <= 1 || (mode.SuffixesEnclave() && Distinct(LaneNames(lanes)))
  {
    EnclavesDistinctIff(config, lanes, mode);
    var enclaves := EnclaveNames(config, lanes, mode);
    if !Distinct(enclaves) {
      var i: nat, j: nat :| i < j < |enclaves| && enclaves[i] == enclaves[j];
      var steps := TwoMayHold(|lanes|, limit, i, j);
      assert SharesEnclave(Run(|lanes|, limit, steps).value, enclaves);
    }
  }

  /** No run of the runner, at any limit, reaches a state in which two lanes may hold the
      same enclave, nor one in which more than `limit` hold any. */
  lemma RunnerSharesNoEnclave(config: Config, lanes: seq<Lane>, mode: Mode, limit: nat, steps: seq<Step>)
    requires IsRunnerPlan(lanes, mode) && Run(|lanes|, limit, steps).Some?
    ensures !SharesEnclave(Run(|lanes|, limit, steps).value, EnclaveNames(config, lanes, mode))
    ensures Sum(Run(|lanes|, limit, steps).value.pcs, Token) <= limit
  {
    RunnerPlansAreDistinct(config, lanes, mode);
    ReachableInv(|lanes|, limit, steps);
  }
}
