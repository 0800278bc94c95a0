/** One lane from acquiring its network to releasing it (lane.go), and the lanes of a
    run one after the other, under every pattern of failing steps and whatever others
    do to other enclaves meanwhile. */
module LaneLifecycle {
  import opened DevnetManager
  import opened LaneProtocol
  import opened Results
  import opened Seqs

  /** How the steps of a lane between acquisition and cleanup turn out. */
  datatype Steps = Steps(
    directoryMade: bool, logOpened: bool, imagesResolved: bool, contextErr: Errors, manifestWritten: bool,
    processErr: Errors, reports: seq<Report>, reportFailed: bool,
    logClosed: bool, probe: bool, probes: seq<bool>, ticks: nat)
  {
    predicate LogOpen() {
      directoryMade && logOpened
    }

    /** The test process is started. */
    predicate ReachesProcess() {
      LogOpen() && imagesResolved && manifestWritten
    }
  }

  /** Every step worked and the process reported passing suites. */
  predicate BodyPasses(steps: Steps) {
    && steps.ReachesProcess() && steps.logClosed
    && steps.processErr == {} && !steps.reportFailed && |steps.reports| > 0
    && forall report :: report in steps.reports ==> SuitePasses(report)
  }

  method AcquireLane(manager: Manager, provision: bool, enclave: string, steps: Steps) returns (acquired: bool)
    requires manager.engine.Valid() && !manager.engine.foreign(enclave)
    requires manager.engine.progress(enclave) == Idle
    modifies manager.engine
    ensures manager.engine.Valid() && manager.engine.OnlyActsOn(enclave)
    ensures manager.engine.progress(enclave) == if acquired then Leased(provision) else Unacquired(provision)
    ensures acquired && provision ==> enclave in manager.engine.present && (steps.probe || true in steps.probes)
  {
    var faults;
    if provision {
      faults := manager.StartNetwork(enclave, true, steps.probe, steps.probes, steps.ticks);
    } else {
      faults := manager.InspectReady(enclave);
    }
    return faults == {};
  }

  /** The steps between acquisition and cleanup, in order, until one fails: no error
      exactly when the process ran without one, its reports only if it ran, and its
      error, or that of the context its images were resolved in, kept apart. */
  method RunBody(name: string, steps: Steps) returns (outcome: Outcome, logOpen: bool)
    ensures outcome.name == name && !outcome.bootstrapFailed && logOpen == steps.LogOpen()
    ensures outcome.err == {} <==> steps.ReachesProcess() && steps.processErr == {}
    ensures steps.ReachesProcess() ==>
      outcome.err == outcome.executionErr == steps.processErr
      && outcome.reports == steps.reports && outcome.reportFailed == steps.reportFailed
    ensures !steps.ReachesProcess() ==> outcome.reports == [] && !outcome.reportFailed
    ensures !steps.ReachesProcess() ==>
      outcome.executionErr == if steps.LogOpen() && !steps.imagesResolved then steps.contextErr else {}
    ensures outcome.executionErr <= outcome.err
  {
    outcome := Outcome(name, {}, {}, false, [], false);
    logOpen := false;
    if !steps.directoryMade {
      outcome := outcome.(err := {Setup});
      return;
    }
    if !steps.logOpened {
      outcome := outcome.(err := {Setup});
      return;
    }
    logOpen := true;
    if !steps.imagesResolved {
      outcome := outcome.(executionErr := steps.contextErr);
      outcome := outcome.(err := {ImageResolution} + outcome.executionErr);
      assert ImageResolution in outcome.err;
      return;
    }
    if !steps.manifestWritten {
      outcome := outcome.(err := {Setup});
      return;
    }
    outcome := outcome.(executionErr := steps.processErr);
    outcome := outcome.(err := outcome.executionErr);
    outcome := outcome.(reports := steps.reports, reportFailed := steps.reportFailed);
  }

  /** The body's outcome with the log closed, if it was opened. */
  method CloseLog(body: Outcome, logOpen: bool, steps: Steps) returns (outcome: Outcome)
    ensures outcome == body || (logOpen && outcome == body.(err := outcome.err))
    ensures outcome.err == {} <==> body.err == {} && (logOpen ==> steps.logClosed)
    ensures body.err <= outcome.err
  {
    outcome := body;
    if logOpen && !steps.logClosed {
      outcome := outcome.(err := outcome.err + {LogClose});
      assert LogClose in outcome.err;
    }
  }

  /** The release of the lease, and the diagnosis of one that fails after a pass. */
  method ReleaseLane(manager: Manager, enclave: string, passed: bool, ticks: nat, ghost lease: Lease)
    returns (released: bool, lateErr: Errors)
    requires manager.engine.Valid() && !manager.engine.foreign(enclave)
    requires manager.engine.progress(enclave) == Releasing(lease) && passed == lease.Passed()
    modifies manager.engine
    ensures manager.engine.Valid() && manager.engine.OnlyActsOn(enclave)
    ensures released ==> enclave !in manager.engine.present
    ensures released || !passed ==> lateErr == {} && manager.engine.progress(enclave) == Finished(lease, released)
    ensures !released && passed ==>
      (lateErr == {} || lateErr == {ErrorTag.Diagnostics})
      && manager.engine.progress(enclave) == Finished(lease.Diagnosed(lateErr == {}), false)
  {
    lateErr := {};
    var faults := manager.StopNetwork(enclave, ticks);
    released := faults == {};
    if !released && passed {
      var ok := manager.CollectDiagnostics(enclave);
      if !ok { lateErr := {ErrorTag.Diagnostics}; }
    }
  }

  predicate FinishedAs(p: Progress, provisioned: bool, closed: Outcome, released: bool, outcome: Outcome) {
    && p.Finished? && p.released == released && p.lease.provisioned == provisioned && p.lease.closed == closed
    && outcome == p.lease.Outcome(released)
  }

  /** The rest of the deferred closure: diagnose, release, diagnose. The final outcome
      passes if and only if the lane had passed and its release worked. */
  method Cleanup(manager: Manager, provisioned: bool, enclave: string, closed: Outcome, ticks: nat)
    returns (outcome: Outcome, released: bool)
    requires manager.engine.Valid() && !manager.engine.foreign(enclave)
    requires manager.engine.progress(enclave) == Leased(provisioned) && !closed.bootstrapFailed
    modifies manager.engine
    ensures manager.engine.Valid() && manager.engine.OnlyActsOn(enclave)
    ensures FinishedAs(manager.engine.progress(enclave), provisioned, closed, released, outcome)
    ensures LaneVerdict(outcome) == VerdictPassed <==> LaneVerdict(closed) == VerdictPassed && released
    ensures provisioned && released ==> enclave !in manager.engine.present
  {
    manager.engine.Note(enclave, EnclaveHistory.Body(closed));
    var passed := LanePassed(closed);
    ghost var lease := Lease(provisioned, closed, {});
    var diagnosticsErr: Errors := {};
    if !passed {
      var ok := manager.CollectDiagnostics(enclave);
      if !ok { diagnosticsErr := {ErrorTag.Diagnostics}; }
      lease := lease.Diagnosed(ok);
    }
    assert manager.engine.progress(enclave) == ToRelease(lease);
    released := true;
    if provisioned {
      var lateErr;
      released, lateErr := ReleaseLane(manager, enclave, passed, ticks, lease);
      if !released && passed { diagnosticsErr := lateErr; }
    }
    outcome := closed.(err := closed.err + diagnosticsErr + if released then {} else {Release});
    assert Release in {Release};
    FinalVerdict(closed, diagnosticsErr + if released then {} else {Release}, outcome);
  }

  /** `executeLane`. For every pattern of failures, and whatever others do to other
      enclaves meanwhile, the lane's dealings with its enclave follow the protocol to
      its end, and its outcome is the one they end with. */
  method ExecuteLane(manager: Manager, provision: bool, name: string, enclave: string, steps: Steps)
    returns (outcome: Outcome)
    requires manager.engine.Valid() && !manager.engine.foreign(enclave)
    requires manager.engine.progress(enclave) == Idle
    modifies manager.engine
    ensures manager.engine.Valid() && manager.engine.OnlyActsOn(enclave)
    ensures Ended(manager.engine.progress(enclave)) && ProgressSuits(manager.engine.progress(enclave), provision)
    ensures Follows(provision, EnclaveHistory.Own(manager.engine.history, enclave))
    ensures outcome == OutcomeOf(name, manager.engine.progress(enclave)) && outcome.name == name
    ensures var p := manager.engine.progress(enclave);
            && (outcome.bootstrapFailed <==> p.Unacquired?)
            && (p.Finished? ==> (p.lease.Passed() <==> BodyPasses(steps)))
            && (LaneVerdict(outcome) == VerdictPassed <==> p.Finished? && BodyPasses(steps) && p.released)
    ensures Accounted(provision, manager.engine.initial, manager.engine.history, enclave, outcome)
  {
    var leased := AcquireLane(manager, provision, enclave, steps);
    if !leased {
      outcome := Outcome(name, {Bootstrap}, {}, true, [], false);
    } else {
      var body, logOpen := RunBody(name, steps);
      var closed := CloseLog(body, logOpen, steps);
      LanePassesIff(closed);
      var released;
      outcome, released := Cleanup(manager, provision, enclave, closed, steps.ticks);
    }
    assert ProgressOf(manager.engine.history, enclave) == manager.engine.progress(enclave);
    EndFollows(provision, EnclaveHistory.Own(manager.engine.history, enclave));
    EndedAccounted(provision, manager.engine.initial, manager.engine.history, enclave, name);
  }

  // ---- The lanes of a run, one after the other ----

  datatype PlannedLane = PlannedLane(name: string, enclave: string)

  function EnclavesOf(lanes: seq<PlannedLane>): (enclaves: seq<string>)
    ensures |enclaves| == |lanes|
  {
    seq(|lanes|, i requires 0 <= i < |lanes| => lanes[i].enclave)
  }

  /** The enclaves have had no events, and others leave them alone. */
  ghost predicate Reserved(engine: Engine, lanes: seq<PlannedLane>)
    reads engine
  {
    forall i :: 0 <= i < |lanes| ==> engine.progress(lanes[i].enclave) == Idle && !engine.foreign(lanes[i].enclave)
  }

  /** Each lane's dealings have ended with its outcome, and are accounted for. */
  ghost predicate AllAccounted(engine: Engine, provision: bool, lanes: seq<PlannedLane>, outcomes: seq<Outcome>)
    requires |outcomes| <= |lanes|
    reads engine
  {
    forall i :: 0 <= i < |outcomes| ==>
      && Ended(engine.progress(lanes[i].enclave))
      && outcomes[i] == OutcomeOf(lanes[i].name, engine.progress(lanes[i].enclave))
      && Accounted(provision, engine.initial, engine.history, lanes[i].enclave, outcomes[i])
  }

  /** The dealings of the first lanes have ended as they should. */
  ghost predicate AllEnded(engine: Engine, provision: bool, lanes: seq<PlannedLane>, outcomes: seq<Outcome>)
    requires |outcomes| <= |lanes|
    reads engine
  {
    forall i :: 0 <= i < |outcomes| ==>
      && Ended(engine.progress(lanes[i].enclave)) && ProgressSuits(engine.progress(lanes[i].enclave), provision)
      && outcomes[i] == OutcomeOf(lanes[i].name, engine.progress(lanes[i].enclave))
  }

  /** The sequential branch of `runLanes`, for a plan whose lanes have enclaves of
      their own, as every plan of the runner does. */
  method RunInOrder(manager: Manager, provision: bool, lanes: seq<PlannedLane>, steps: seq<Steps>)
    returns (outcomes: seq<Outcome>)
    requires |steps| == |lanes| && Distinct(EnclavesOf(lanes))
    requires manager.engine.Valid() && Reserved(manager.engine, lanes)
    modifies manager.engine
    ensures manager.engine.Valid() && |outcomes| == |lanes|
    ensures AllAccounted(manager.engine, provision, lanes, outcomes)
  {
    outcomes := [];
    for k := 0 to |lanes|
      invariant manager.engine.Valid() && |outcomes| == k
      invariant AllEnded(manager.engine, provision, lanes, outcomes)
      invariant Reserved(manager.engine, lanes[k..])
    {
      label before:
      var enclave := lanes[k].enclave;
      assert lanes[k..][0] == lanes[k];
      var outcome := ExecuteLane(manager, provision, lanes[k].name, enclave, steps[k]);
      assert manager.engine.OnlyActsOn@before(enclave);
      forall i | 0 <= i < |lanes| && i != k
        ensures lanes[i].enclave != enclave
      {
        assert EnclavesOf(lanes)[i] != EnclavesOf(lanes)[k];
      }
      outcomes := outcomes + [outcome];
    }
    forall i | 0 <= i < |lanes|
      ensures Accounted(provision, manager.engine.initial, manager.engine.history, lanes[i].enclave, outcomes[i])
    {
      assert ProgressOf(manager.engine.history, lanes[i].enclave) == manager.engine.progress(lanes[i].enclave);
      EndedAccounted(provision, manager.engine.initial, manager.engine.history, lanes[i].enclave, lanes[i].name);
    }
  }
}
