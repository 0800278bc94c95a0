/** The end of a run (runner.go, runmanifest/manifest.go): summary, manifest and
    returned error, and when they agree. */
module RunManifest {
  import opened Results
  import opened Seqs
  import LanePlan

  datatype Mark = Unset | MarkPassed | MarkFailed

  datatype ManifestLane = ManifestLane(name: string, result: Mark)

  function MarkOf(results: map<string, bool>, name: string): Mark {
    if name !in results then Unset else if results[name] then MarkPassed else MarkFailed
  }

  class Manifest {
    const lanes: array<ManifestLane>
    var result: Mark

    constructor (names: seq<string>)
      ensures fresh(lanes) && lanes.Length == |names| && result == Unset
      ensures forall i :: 0 <= i < |names| ==> lanes[i] == ManifestLane(names[i], Unset)
    {
      lanes := new ManifestLane[|names|](i requires 0 <= i < |names| => ManifestLane(names[i], Unset));
      result := Unset;
    }

    /** Marks every lane by its own result; a lane without one stays unmarked, and
        the run passes only if every lane is marked passed. */
    method Finish(results: map<string, bool>)
      modifies this, lanes
      ensures forall i :: 0 <= i < lanes.Length ==>
        lanes[i] == ManifestLane(old(lanes[i].name), MarkOf(results, old(lanes[i].name)))
      ensures result == if forall i :: 0 <= i < lanes.Length ==> MarkOf(results, old(lanes[i].name)) == MarkPassed
                        then MarkPassed else MarkFailed
    {
      var overall := MarkPassed;
      for index := 0 to lanes.Length
        invariant forall i :: index <= i < lanes.Length ==> lanes[i] == old(lanes[i])
        invariant forall i :: 0 <= i < index ==>
          lanes[i] == ManifestLane(old(lanes[i].name), MarkOf(results, old(lanes[i].name)))
        invariant overall == if forall i :: 0 <= i < index ==> MarkOf(results, old(lanes[i].name)) == MarkPassed
                             then MarkPassed else MarkFailed
      {
        var name := lanes[index].name;
        if name !in results {
          lanes[index] := ManifestLane(name, Unset);
          overall := MarkFailed;
          continue;
        }
        if results[name] {
          lanes[index] := ManifestLane(name, MarkPassed);
        } else {
          lanes[index] := ManifestLane(name, MarkFailed);
          overall := MarkFailed;
        }
      }
      result := overall;
    }
  }

  // ---- Results by lane name ----

  /** The map the run builds from the summary: a later lane overwrites an earlier one
      of its name. */
  function ResultsOf(outcomes: seq<Outcome>): map<string, bool> {
    if |outcomes| == 0 then map[]
    else
      var last := outcomes[|outcomes| - 1];
      ResultsOf(outcomes[..|outcomes| - 1])[last.name := !DoesNotPass(last)]
  }

  /** Lane k is the last of its name. */
  predicate IsLast(outcomes: seq<Outcome>, k: int) {
    0 <= k < |outcomes| && forall later :: k < later < |outcomes| ==> outcomes[later].name != outcomes[k].name
  }

  lemma {:induction false} ResultsAreLast(outcomes: seq<Outcome>)
    ensures forall i :: 0 <= i < |outcomes| ==> outcomes[i].name in ResultsOf(outcomes)
    ensures forall k :: IsLast(outcomes, k) ==> ResultsOf(outcomes)[outcomes[k].name] == !DoesNotPass(outcomes[k])
  {
    if |outcomes| > 0 {
      var front := outcomes[..|outcomes| - 1];
      ResultsAreLast(front);
      forall k | IsLast(outcomes, k)
        ensures ResultsOf(outcomes)[outcomes[k].name] == !DoesNotPass(outcomes[k])
      {
        if k < |front| {
          assert IsLast(front, k);
          assert outcomes[|outcomes| - 1].name != outcomes[k].name;
        }
      }
    }
  }

  function Names(outcomes: seq<Outcome>): (names: seq<string>)
    ensures |names| == |outcomes|
  {
    seq(|outcomes|, i requires 0 <= i < |outcomes| => outcomes[i].name)
  }

  /** The manifest's verdict on the lanes. */
  predicate ManifestPasses(outcomes: seq<Outcome>) {
    forall i :: 0 <= i < |outcomes| ==> MarkOf(ResultsOf(outcomes), outcomes[i].name) == MarkPassed
  }

  predicate SummaryPasses(outcomes: seq<Outcome>) {
    forall i :: 0 <= i < |outcomes| ==> !DoesNotPass(outcomes[i])
  }

  lemma SummaryPassesIff(outcomes: seq<Outcome>)
    ensures SummaryPasses(outcomes) <==> !Any(outcomes, DoesNotPass)
  {
    AnyIff(outcomes, DoesNotPass);
    forall i | 0 <= i < |outcomes|
      ensures outcomes[i] in outcomes
    {}
  }

  lemma UniqueNamesAgree(outcomes: seq<Outcome>)
    requires Distinct(Names(outcomes))
    ensures ManifestPasses(outcomes) <==> SummaryPasses(outcomes)
  {
    ResultsAreLast(outcomes);
    forall i | 0 <= i < |outcomes|
      ensures MarkOf(ResultsOf(outcomes), outcomes[i].name) == MarkPassed <==> !DoesNotPass(outcomes[i])
    {
      forall later | i < later < |outcomes|
        ensures outcomes[later].name != outcomes[i].name
      {
        assert Names(outcomes)[i] != Names(outcomes)[later];
      }
      assert IsLast(outcomes, i);
    }
  }

  /** A passing summary always means a passing manifest. */
  lemma {:induction false} SummaryImpliesManifest(outcomes: seq<Outcome>)
    requires SummaryPasses(outcomes)
    ensures ManifestPasses(outcomes)
  {
    if |outcomes| > 0 {
      var front := outcomes[..|outcomes| - 1];
      SummaryImpliesManifest(front);
      forall i | 0 <= i < |outcomes|
        ensures MarkOf(ResultsOf(outcomes), outcomes[i].name) == MarkPassed
      {
        if i < |front| {
          assert MarkOf(ResultsOf(front), front[i].name) == MarkPassed;
        }
      }
    }
  }

  // ---- Names that repeat ----

  const CLEAN_REPORT := Report(true, [], [Spec("spec", true, State.Passed)])

  function LaneThat(name: string, passes: bool): Outcome {
    Outcome(name, if passes then {} else {ProcessFailed}, {}, false, [CLEAN_REPORT], false)
  }

  lemma LaneThatVerdict(name: string, passes: bool)
    ensures DoesNotPass(LaneThat(name, passes)) <==> !passes
  {
    var outcome := LaneThat(name, passes);
    LanePassesIff(outcome);
    assert CLEAN_REPORT.specs[0] in CLEAN_REPORT.specs && IsPass(CLEAN_REPORT.specs[0]);
    assert SuitePasses(CLEAN_REPORT);
  }

  /** Lanes of the given names of which only the i-th does not pass. */
  function OneFails(names: seq<string>, i: nat): (outcomes: seq<Outcome>)
    ensures |outcomes| == |names|
  {
    seq(|names|, k requires 0 <= k < |names| => LaneThat(names[k], k != i))
  }

  lemma {:induction false} LastOf(outcomes: seq<Outcome>, k: nat) returns (last: nat)
    requires k < |outcomes|
    ensures k <= last && IsLast(outcomes, last) && outcomes[last].name == outcomes[k].name
    decreases |outcomes| - k
  {
    if IsLast(outcomes, k) {
      last := k;
    } else {
      var later :| k < later < |outcomes| && outcomes[later].name == outcomes[k].name;
      last := LastOf(outcomes, later);
    }
  }

  lemma HiddenFailure(names: seq<string>, i: nat, j: nat)
    requires i < j < |names| && names[i] == names[j]
    ensures !SummaryPasses(OneFails(names, i)) && ManifestPasses(OneFails(names, i))
  {
    var outcomes := OneFails(names, i);
    LaneThatVerdict(names[i], false);
    assert DoesNotPass(outcomes[i]);
    ResultsAreLast(outcomes);
    forall k | 0 <= k < |outcomes|
      ensures MarkOf(ResultsOf(outcomes), outcomes[k].name) == MarkPassed
    {
      var last := LastOf(outcomes, if k == i then j else k);
      assert last != i by {
        assert outcomes[j].name == outcomes[i].name;
      }
      LaneThatVerdict(names[last], true);
    }
  }

  /** Why lane names must stay unique: summary and manifest agree whatever the lanes do
      exactly when no two lanes share a name. With a repeated name, a failing lane could
      hide behind a later one. */
  lemma AgreeIffUnique(names: seq<string>)
    ensures Distinct(names) <==>
      forall outcomes :: Names(outcomes) == names ==> (ManifestPasses(outcomes) <==> SummaryPasses(outcomes))
  {
    if Distinct(names) {
      forall outcomes | Names(outcomes) == names
        ensures ManifestPasses(outcomes) <==> SummaryPasses(outcomes)
      {
        UniqueNamesAgree(outcomes);
      }
    } else {
      var i, j :| 0 <= i < j < |names| && names[i] == names[j];
      HiddenFailure(names, i, j);
      assert Names(OneFails(names, i)) == names;
    }
  }

  /** The runner only runs lanes whose names differ: one lane, or the registered ones. */
  lemma RunnerNamesDiffer(lanes: seq<LanePlan.Lane>, mode: LanePlan.Mode, outcomes: seq<Outcome>)
    requires LanePlan.IsRunnerPlan(lanes, mode) && Names(outcomes) == LanePlan.LaneNames(lanes)
    ensures Distinct(Names(outcomes))
    ensures ManifestPasses(outcomes) <==> SummaryPasses(outcomes)
  {
    LanePlan.RunnerPlansAreDistinct(LanePlan.Config("", [], 0), lanes, mode);
    UniqueNamesAgree(outcomes);
  }

  // ---- The run ----

  /** The errors a run joins; it returns nil when there are none. */
  datatype RunErrors = RunErrors(lanesNotPassed: seq<string>, laneErrors: Errors, manifestWrite: bool, summaryWrite: bool) {
    predicate IsNil() {
      lanesNotPassed == [] && laneErrors == {} && !manifestWrite && !summaryWrite
    }
  }

  predicate SomeLaneHas(outcomes: seq<Outcome>, tag: ErrorTag) {
    exists i :: 0 <= i < |outcomes| && tag in outcomes[i].err
  }

  lemma SomeLaneStep(front: seq<Outcome>, last: Outcome, tag: ErrorTag)
    ensures SomeLaneHas(front + [last], tag) <==> SomeLaneHas(front, tag) || tag in last.err
  {
    var all := front + [last];
    if SomeLaneHas(front, tag) {
      var i :| 0 <= i < |front| && tag in front[i].err;
      assert tag in all[i].err;
    }
    if tag in last.err {
      assert tag in all[|front|].err;
    }
  }

  method JoinErrors(outcomes: seq<Outcome>) returns (errors: Errors)
    ensures forall tag :: tag in errors <==> SomeLaneHas(outcomes, tag)
    ensures errors == {} <==> forall i :: 0 <= i < |outcomes| ==> outcomes[i].err == {}
  {
    errors := {};
    for i := 0 to |outcomes|
      invariant forall tag :: tag in errors <==> SomeLaneHas(outcomes[..i], tag)
      invariant errors == {} <==> forall j :: 0 <= j < i ==> outcomes[j].err == {}
    {
      NextPrefix(outcomes, i);
      assert errors + outcomes[i].err == {} <==> errors == {} && outcomes[i].err == {};
      forall tag
        ensures SomeLaneHas(outcomes[..i + 1], tag) <==> SomeLaneHas(outcomes[..i], tag) || tag in outcomes[i].err
      {
        SomeLaneStep(outcomes[..i], outcomes[i], tag);
      }
      errors := errors + outcomes[i].err;
    }
    assert outcomes[..|outcomes|] == outcomes;
  }

  lemma ResultsSnoc(outcomes: seq<Outcome>, i: nat)
    requires i < |outcomes|
    ensures ResultsOf(outcomes[..i + 1]) == ResultsOf(outcomes[..i])[outcomes[i].name := !DoesNotPass(outcomes[i])]
  {
    NextPrefix(outcomes, i);
  }

  method ResultsByName(summary: Summary, ghost outcomes: seq<Outcome>) returns (results: map<string, bool>)
    requires summary == SummaryOf(outcomes)
    ensures results == ResultsOf(outcomes)
  {
    results := map[];
    for i := 0 to |summary.lanes|
      invariant results == ResultsOf(outcomes[..i])
    {
      ResultsSnoc(outcomes, i);
      var lane := summary.lanes[i];
      results := results[lane.name := lane.verdict == VerdictPassed];
    }
    assert outcomes[..|outcomes|] == outcomes;
  }

  lemma PassingHasNoErrors(outcomes: seq<Outcome>)
    ensures SummaryPasses(outcomes) ==> forall i :: 0 <= i < |outcomes| ==> outcomes[i].err == {}
  {
    forall i | 0 <= i < |outcomes| && !DoesNotPass(outcomes[i])
      ensures outcomes[i].err == {}
    {
      LanePassesIff(outcomes[i]);
    }
  }

  /** `run`, from the lanes' outcomes on. The three flags say which writes worked. */
  method ReportRun(outcomes: seq<Outcome>, record: Manifest, startWritten: bool, summaryWritten: bool, endWritten: bool)
    returns (summary: Summary, errors: RunErrors)
    requires record.lanes.Length == |outcomes|
    requires forall i :: 0 <= i < |outcomes| ==> record.lanes[i].name == outcomes[i].name
    modifies record, record.lanes
    ensures summary == SummaryOf(outcomes)
    // A caller can still tell a lane's cancellation or timeout in what comes back.
    ensures forall tag :: tag in errors.laneErrors <==> SomeLaneHas(outcomes, tag)
    // The exit code: nil iff every lane passes and every file was written.
    ensures errors.IsNil() <==> SummaryPasses(outcomes) && startWritten && summaryWritten && endWritten
    ensures summary.passed <==> SummaryPasses(outcomes)
    ensures record.result == MarkPassed <==> ManifestPasses(outcomes) && startWritten && summaryWritten
    ensures record.result == MarkPassed || record.result == MarkFailed
    // With unique lane names and no write errors the three agree.
    ensures Distinct(Names(outcomes)) && startWritten && summaryWritten && endWritten ==>
      (errors.IsNil() <==> summary.passed) && (summary.passed <==> record.result == MarkPassed)
    // The record never claims a failure the exit code does not.
    ensures record.result == MarkFailed ==> !errors.IsNil()
  {
    var written;
    summary, written := Summarize(outcomes, summaryWritten);
    var laneErrors := JoinErrors(outcomes);
    var laneResults := ResultsByName(summary, outcomes);
    record.Finish(laneResults);
    if !startWritten || !written {
      record.result := MarkFailed;
    }
    var notPassed := VerdictError(summary);
    errors := RunErrors(notPassed, laneErrors, !startWritten || !endWritten, !written);
    SummaryPassesIff(outcomes);
    PassingHasNoErrors(outcomes);
    if SummaryPasses(outcomes) { SummaryImpliesManifest(outcomes); }
    if Distinct(Names(outcomes)) { UniqueNamesAgree(outcomes); }
  }

  /** The end of a run of the runner's own plans: when the files could be written, the
      returned error is nil exactly when the summary passes, and exactly when the
      manifest says so. */
  method ReportRunnerRun(lanes: seq<LanePlan.Lane>, mode: LanePlan.Mode, outcomes: seq<Outcome>, record: Manifest)
    returns (summary: Summary, errors: RunErrors)
    requires LanePlan.IsRunnerPlan(lanes, mode) && Names(outcomes) == LanePlan.LaneNames(lanes)
    requires record.lanes.Length == |outcomes|
    requires forall i :: 0 <= i < |outcomes| ==> record.lanes[i].name == outcomes[i].name
    modifies record, record.lanes
    ensures errors.IsNil() <==> SummaryPasses(outcomes)
    ensures summary.passed <==> SummaryPasses(outcomes)
    ensures record.result == if SummaryPasses(outcomes) then MarkPassed else MarkFailed
  {
    RunnerNamesDiffer(lanes, mode, outcomes);
    summary, errors := ReportRun(outcomes, record, true, true, true);
  }
}
