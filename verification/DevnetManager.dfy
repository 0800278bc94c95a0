/** Starting and stopping networks (devnet/manager.go) on a Kurtosis engine whose every
    call may fail, while anyone else acts on other enclaves between any two calls. An
    enclave whose destruction was requested may go away at any later moment, whatever
    the request itself answered. */
module DevnetManager {
  import opened EnclaveHistory
  import opened LaneProtocol
  import opened Wrappers

  datatype Fault =
    | Parameters | Connect | ExistsRead | AlreadyExists | NotRunning | CreateFailed | Package | Resolve | NotReady
    | DiagnosticsFailed | DestroyFailed | StillOccupied | ContextDone | Cleanup

  /** A Go error by what it joins; nil is the empty set. */
  type Faults = set<Fault>

  class Engine {
    /** The enclaves that others may act on. */
    const foreign: string -> bool
    ghost const initial: Enclaves
    var present: set<string>
    var dying: set<string>
    /** Everything that has happened, by whomever. */
    ghost var history: seq<Moment>
    /** How far the dealings with each enclave have come. */
    ghost var progress: string -> Progress

    constructor (enclaves: Enclaves, foreign: string -> bool)
      ensures Valid() && history == [] && initial == enclaves && this.foreign == foreign
    {
      initial, this.foreign := enclaves, foreign;
      present, dying, history, progress := enclaves.present, enclaves.dying, [], _ => Idle;
    }

    ghost predicate Valid()
      reads this
    {
      && Lawful(initial, history) && Replay(initial, history) == Enclaves(present, dying)
      && Tracks(progress, history)
    }

    /** Of the enclaves that others leave alone, only `name` has had events. */
    twostate predicate OnlyActsOn(name: string)
      reads this
    {
      forall other :: other != name && !foreign(other) ==> progress(other) == old(progress(other))
    }

    /** Nothing was asked for `name`; it may be gone if it was on its way out. */
    twostate predicate Lapses(name: string)
      reads this
    {
      && (name in present ==> name in old(present))
      && (name in old(present) && name !in old(dying) ==> name in present)
      && (name in dying <==> name in old(dying))
    }

    method Record(m: Moment)
      requires Valid() && Possible(Enclaves(present, dying), m)
      modifies this
      ensures Valid() && Enclaves(present, dying) == After(old(Enclaves(present, dying)), m)
      ensures forall name :: name != m.name ==> progress(name) == old(progress(name))
      ensures progress(m.name) == if m.By? then Advance(old(progress(m.name)), m.event) else old(progress(m.name))
    {
      OneMore(initial, history, m);
      TracksOneMore(progress, history, m);
      progress := Progressed(progress, m);
      history := history + [m];
      match m {
        case Vanish(name) => present := present - {name};
        case By(name, Create(_, made)) =>
          present, dying := if made then present + {name} else present, dying - {name};
        case By(name, Destroy(_, gone)) =>
          present, dying := if gone then present - {name} else present, dying + {name};
        case By(_, _) =>
      }
    }

    /** Others do anything they can to their enclaves, and the engine finishes any
        destruction it was asked for. */
    method Others()
      requires Valid()
      modifies this
      ensures Valid()
      ensures forall name :: !foreign(name) ==> progress(name) == old(progress(name)) && Lapses(name)
    {
      var turns: int := *;
      for turn := 0 to if turns < 0 then 0 else turns
        invariant Valid()
        invariant forall name :: !foreign(name) ==> progress(name) == old(progress(name)) && Lapses(name)
      {
        var m: Moment := *;
        if (m.By? ==> foreign(m.name)) && Possible(Enclaves(present, dying), m) {
          Record(m);
        }
      }
    }

    /** An event that asks nothing of the engine itself. */
    method Note(name: string, event: Event)
      requires Valid() && !foreign(name) && !event.Exists? && !event.Create? && !event.Destroy?
      modifies this
      ensures Valid() && OnlyActsOn(name) && Lapses(name)
      ensures progress(name) == Advance(old(progress(name)), event)
    {
      Others();
      Record(By(name, event));
    }

    method EnclaveExists(name: string) returns (found: Option<bool>)
      requires Valid() && !foreign(name)
      modifies this
      ensures Valid() && OnlyActsOn(name) && Lapses(name)
      ensures found.Some? ==> found.value == (name in present)
      ensures progress(name) == Advance(old(progress(name)), Exists(found))
    {
      Others();
      var answered: bool := *;
      found := if answered then Some(name in present) else None;
      Record(By(name, Exists(found)));
    }

    method CreateEnclave(name: string) returns (ok: bool)
      requires Valid() && !foreign(name)
      modifies this
      ensures Valid() && OnlyActsOn(name) && name !in dying
      ensures ok ==> name in present
      ensures name in old(present) && name !in old(dying) ==> name in present
      ensures exists made :: progress(name) == Advance(old(progress(name)), Create(ok, made))
    {
      Others();
      ok := *;
      var made := *;
      made := made || ok;
      Record(By(name, Create(ok, made)));
    }

    method DestroyEnclave(name: string) returns (ok: bool)
      requires Valid() && !foreign(name)
      modifies this
      ensures Valid() && OnlyActsOn(name)
      ensures name in present ==> name in old(present)
      ensures exists gone :: progress(name) == Advance(old(progress(name)), Destroy(ok, gone))
    {
      Others();
      ok := *;
      var gone := *;
      Record(By(name, Destroy(ok, gone)));
    }
  }

  class Manager {
    const engine: Engine

    constructor (engine: Engine)
      ensures this.engine == engine
    {
      this.engine := engine;
    }

    /** `CollectDiagnostics` reads the enclave and changes nothing. */
    method CollectDiagnostics(name: string) returns (ok: bool)
      requires engine.Valid() && !engine.foreign(name)
      modifies engine
      ensures engine.Valid() && engine.OnlyActsOn(name) && engine.Lapses(name)
      ensures engine.progress(name) == Advance(old(engine.progress(name)), Diagnose(ok))
    {
      ok := *;
      engine.Note(name, Diagnose(ok));
    }

    /** Attaches to a running network without changing it. */
    method InspectReady(name: string) returns (faults: Faults)
      requires engine.Valid() && !engine.foreign(name)
      modifies engine
      ensures engine.Valid() && engine.OnlyActsOn(name) && engine.Lapses(name)
      ensures faults == {} ==> name in old(engine.present)
      ensures old(engine.progress(name)) == Idle ==>
        engine.progress(name) == if faults == {} then Leased(false) else Unacquired(false)
    {
      var connected: bool := *;
      engine.Note(name, Inspect(connected));
      if !connected { return {Connect}; }
      var found := engine.EnclaveExists(name);
      if found.None? { return {ExistsRead}; }
      if !found.value { return {NotRunning}; }
      var resolved: bool, ready: bool := *, *;
      engine.Note(name, Attach(resolved && ready));
      return if !resolved then {Resolve} else if !ready then {NotReady} else {};
    }

    /** `retryUntil` around the existence check: at most `ticks` more attempts after
        the first, until one finds the enclave gone. */
    method ConfirmDestroyed(name: string, ticks: nat) returns (faults: Faults)
      requires engine.Valid() && !engine.foreign(name)
      modifies engine
      ensures engine.Valid() && engine.OnlyActsOn(name) && engine.Lapses(name)
      ensures faults == {} ==> name !in engine.present
      ensures faults <= {ExistsRead, StillOccupied, ContextDone}
      ensures var before := old(engine.progress(name));
              before.Confirming? ==>
                engine.progress(name) == AfterDestroy(before.purpose, before.destroyed && faults == {})
    {
      var left := ticks;
      while true
        invariant engine.Valid() && engine.OnlyActsOn(name) && engine.Lapses(name)
        invariant old(engine.progress(name)).Confirming? ==> engine.progress(name) == old(engine.progress(name))
        decreases left
      {
        var found := engine.EnclaveExists(name);
        if found == Some(false) { return {}; }
        var fault := if found.None? then ExistsRead else StillOccupied;
        if left == 0 {
          engine.Note(name, GiveUp);
          return {fault, ContextDone};
        }
        left := left - 1;
      }
    }

    /** Success means the slot was seen free, whatever the destroy call answered. */
    method DestroyAndConfirm(name: string, ticks: nat) returns (faults: Faults)
      requires engine.Valid() && !engine.foreign(name)
      modifies engine
      ensures engine.Valid() && engine.OnlyActsOn(name)
      ensures faults == {} ==> name !in engine.present
      ensures faults <= {DestroyFailed, ExistsRead, StillOccupied, ContextDone}
      ensures name in engine.present ==> name in old(engine.present)
      ensures old(engine.progress(name)).Destroying? ==>
        engine.progress(name) == AfterDestroy(old(engine.progress(name)).purpose, faults == {})
    {
      var destroyed := engine.DestroyEnclave(name);
      var confirm := ConfirmDestroyed(name, ticks);
      return (if destroyed then {} else {DestroyFailed}) + confirm;
    }

    /** The failure comes back with whatever else went wrong, never without it. */
    method FinishFailedStart(name: string, diagnose: bool, failure: Faults, ticks: nat) returns (faults: Faults)
      requires failure != {} && engine.Valid() && !engine.foreign(name)
      modifies engine
      ensures engine.Valid() && engine.OnlyActsOn(name)
      ensures failure <= faults <= failure + {DiagnosticsFailed, Cleanup, DestroyFailed, ExistsRead, StillOccupied, ContextDone}
      ensures name in engine.present ==> Cleanup in faults
      ensures old(engine.progress(name)) == StartFailed(diagnose) ==> engine.progress(name) == Unacquired(true)
    {
      var diagnosticsErr: Faults := {};
      if diagnose {
        var ok := CollectDiagnostics(name);
        if !ok { diagnosticsErr := {DiagnosticsFailed}; }
      }
      var cleanupErr := DestroyAndConfirm(name, ticks);
      if cleanupErr != {} { cleanupErr := {Cleanup} + cleanupErr; }
      return failure + diagnosticsErr + cleanupErr;
    }

    /** `retryUntil` around the probe, whose first attempt is always made: it succeeds
        iff some attempt in time does. */
    method RetryProbe(probe: bool, probes: seq<bool>) returns (ready: bool)
      ensures ready <==> probe || true in probes
    {
      ready := probe;
      for k := 0 to |probes|
        invariant ready <==> probe || true in probes[..k]
      {
        if ready { return; }
        ready := probes[k];
        assert probes[..k + 1] == probes[..k] + [probes[k]];
      }
      assert probes[..|probes|] == probes;
    }

    /** What follows creation: the package, the endpoints, and readiness. */
    method ProvisionNetwork(name: string, probe: bool, probes: seq<bool>) returns (failure: Faults)
      requires engine.Valid() && !engine.foreign(name)
      modifies engine
      ensures engine.Valid() && engine.OnlyActsOn(name) && engine.Lapses(name)
      ensures failure <= {Package, Resolve, NotReady, ContextDone}
      ensures failure == {} ==> probe || true in probes
      ensures NotReady in failure ==> !probe && true !in probes
      ensures engine.progress(name) == Advance(old(engine.progress(name)), Provision(failure == {}))
    {
      var ran: bool, resolved: bool := *, *;
      var ready := RetryProbe(probe, probes);
      engine.Note(name, Provision(ran && resolved && ready));
      if !ran { return {Package}; }
      if !resolved { return {Resolve}; }
      return if ready then {} else {NotReady, ContextDone};
    }

    /** The start of a network whose slot was seen free. */
    method CreateAndProvision(name: string, diagnose: bool, probe: bool, probes: seq<bool>, ticks: nat)
      returns (faults: Faults)
      requires engine.Valid() && !engine.foreign(name)
      modifies engine
      ensures engine.Valid() && engine.OnlyActsOn(name)
      ensures faults == {} ==> name in engine.present && name !in engine.dying && (probe || true in probes)
      ensures faults != {} && name in engine.present ==> CreateFailed in faults || Cleanup in faults
      ensures old(engine.progress(name)) == Creating(diagnose) ==>
        engine.progress(name) == if faults == {} then Leased(true) else Unacquired(true)
    {
      var created := engine.CreateEnclave(name);
      if !created { return {CreateFailed}; }
      var failure := ProvisionNetwork(name, probe, probes);
      if failure == {} { return {}; }
      faults := FinishFailedStart(name, diagnose, failure, ticks);
    }

    /** A network that exists is left alone. Otherwise the start succeeds with the
        enclave up, or fails; a failure after creation is cleaned up, and says so if the
        enclave may be left behind. */
    method StartNetwork(name: string, diagnose: bool, probe: bool, probes: seq<bool>, ticks: nat) returns (faults: Faults)
      requires engine.Valid() && !engine.foreign(name)
      modifies engine
      ensures engine.Valid() && engine.OnlyActsOn(name)
      ensures faults == {} ==> name in engine.present && name !in engine.dying && (probe || true in probes)
      ensures name in old(engine.present) && name !in old(engine.dying) ==>
        faults != {} && name in engine.present && name !in engine.dying
      ensures faults != {} && name !in old(engine.present) && name in engine.present ==>
        CreateFailed in faults || Cleanup in faults
      ensures old(engine.progress(name)) == Idle ==>
        engine.progress(name) == if faults == {} then Leased(true) else Unacquired(true)
    {
      if * {
        engine.Note(name, Start(false, diagnose));
        return {Parameters};
      }
      var connected: bool := *;
      engine.Note(name, Start(connected, diagnose));
      if !connected { return {Connect}; }
      var found := engine.EnclaveExists(name);
      if found.None? { return {ExistsRead}; }
      if found.value { return {AlreadyExists}; }
      faults := CreateAndProvision(name, diagnose, probe, probes, ticks);
    }

    /** A nil error means the enclave is gone. */
    method StopNetwork(name: string, ticks: nat) returns (faults: Faults)
      requires engine.Valid() && !engine.foreign(name)
      modifies engine
      ensures engine.Valid() && engine.OnlyActsOn(name)
      ensures faults == {} ==> name !in engine.present
      ensures name in engine.present ==> name in old(engine.present)
      // Nothing is destroyed that is not there.
      ensures name !in old(engine.present) ==> engine.Lapses(name)
      ensures old(engine.progress(name)).Releasing? ==>
        engine.progress(name) == AfterRelease(old(engine.progress(name)).lease, faults == {})
    {
      var connected: bool := *;
      engine.Note(name, Stop(connected));
      if !connected { return {Connect}; }
      var found := engine.EnclaveExists(name);
      if found.None? { return {ExistsRead}; }
      if !found.value { return {}; }
      faults := DestroyAndConfirm(name, ticks);
    }
  }
}
