/** Lane verdicts (results.go): Ginkgo reports are tallied suite by suite, classified
    once per suite and once more on the lane's aggregated evidence. The lemmas relate
    both to one join over everything the reports say. */
module Results {
  import opened Seqs

  // ---- Reports ----

  datatype State = Invalid | Pending | Skipped | Passed | Failed | Aborted | Panicked | Interrupted | TimedOut

  /** Ginkgo's SpecStateFailureStates. */
  predicate IsFailure(state: State) {
    state.Failed? || state.Aborted? || state.Panicked? || state.Interrupted? || state.TimedOut?
  }

  /** One node of a suite: a spec (an It) or a setup or teardown node. */
  datatype Spec = Spec(name: string, isIt: bool, state: State)

  datatype Report = Report(succeeded: bool, failureReasons: seq<string>, specs: seq<Spec>)

  // ---- Errors ----

  datatype ErrorTag =
    | Canceled | DeadlineExceeded | Bootstrap | ProcessFailed | Setup | ImageResolution | LogClose | Diagnostics | Release

  /** A Go error by what it wraps: joining is union, and nil is the empty set. */
  type Errors = set<ErrorTag>

  datatype Outcome = Outcome(
    name: string, err: Errors, executionErr: Errors, bootstrapFailed: bool,
    reports: seq<Report>, reportFailed: bool)

  datatype Verdict =
    | VerdictBootstrap | VerdictInfrastructure | VerdictTimeout | VerdictCanceled
    | VerdictAssertion | VerdictSkipped | VerdictPassed

  // ---- Counts ----

  datatype Counts = Counts(specs: nat, passed: nat, failed: nat, pending: nat, skipped: nat) {
    function Add(other: Counts): Counts {
      Counts(specs + other.specs, passed + other.passed, failed + other.failed,
             pending + other.pending, skipped + other.skipped)
    }

    predicate Balanced() {
      specs == passed + failed + pending + skipped
    }
  }

  const NO_COUNTS := Counts(0, 0, 0, 0, 0)

  datatype Failure = Failure(spec: string, state: State)

  /** What a suite's or a lane's nodes amount to. */
  datatype Evidence = Evidence(counts: Counts, failures: seq<Failure>, unexpectedSkips: seq<string>) {
    function Join(other: Evidence): Evidence {
      Evidence(counts.Add(other.counts), failures + other.failures, unexpectedSkips + other.unexpectedSkips)
    }
  }

  const NO_EVIDENCE := Evidence(NO_COUNTS, [], [])

  datatype SuiteSummary = SuiteSummary(verdict: Verdict, evidence: Evidence)

  datatype LaneSummary = LaneSummary(name: string, verdict: Verdict, evidence: Evidence, suites: seq<SuiteSummary>)

  // ---- Tallying ----

  function CountOf(spec: Spec): Counts {
    if !spec.isIt then NO_COUNTS
    else if spec.state.Passed? then Counts(1, 1, 0, 0, 0)
    else if spec.state.Pending? then Counts(1, 0, 0, 1, 0)
    else if spec.state.Skipped? then Counts(1, 0, 0, 0, 1)
    else Counts(1, 0, 1, 0, 0)
  }

  function FailuresOf(spec: Spec): seq<Failure> {
    if IsFailure(spec.state) then [Failure(spec.name, spec.state)] else []
  }

  function SkipsOf(spec: Spec): seq<string> {
    if spec.isIt && (spec.state.Pending? || spec.state.Skipped?) then [spec.name] else []
  }

  function CountsOf(specs: seq<Spec>): Counts {
    if |specs| == 0 then NO_COUNTS else CountsOf(specs[..|specs| - 1]).Add(CountOf(specs[|specs| - 1]))
  }

  function EvidenceOf(specs: seq<Spec>): Evidence {
    Evidence(CountsOf(specs), Flat(specs, FailuresOf), Flat(specs, SkipsOf))
  }

  /** The suite summary under construction. */
  class SuiteTally {
    var counts: Counts
    var failures: seq<Failure>
    var unexpectedSkips: seq<string>

    constructor ()
      ensures Snapshot() == NO_EVIDENCE
    {
      counts, failures, unexpectedSkips := NO_COUNTS, [], [];
    }

    function Snapshot(): Evidence
      reads this
    {
      Evidence(counts, failures, unexpectedSkips)
    }

    method Tally(spec: Spec)
      modifies this
      ensures Snapshot() == old(Snapshot()).Join(Evidence(CountOf(spec), FailuresOf(spec), SkipsOf(spec)))
    {
      if spec.isIt {
        counts := counts.(specs := counts.specs + 1);
        match spec.state {
          case Passed => counts := counts.(passed := counts.passed + 1);
          case Pending =>
            counts := counts.(pending := counts.pending + 1);
            unexpectedSkips := unexpectedSkips + [spec.name];
          case Skipped =>
            counts := counts.(skipped := counts.skipped + 1);
            unexpectedSkips := unexpectedSkips + [spec.name];
          case _ => counts := counts.(failed := counts.failed + 1);
        }
      }
      if IsFailure(spec.state) {
        failures := failures + [Failure(spec.name, spec.state)];
      }
    }
  }

  /** All the nodes of a lane, suite after suite. */
  function AllSpecs(reports: seq<Report>): seq<Spec> {
    if |reports| == 0 then [] else AllSpecs(reports[..|reports| - 1]) + reports[|reports| - 1].specs
  }

  lemma CountsSnoc(specs: seq<Spec>, front: seq<Spec>, last: Spec)
    requires specs == front + [last]
    ensures CountsOf(specs) == CountsOf(front).Add(CountOf(last))
  {
    assert specs[..|specs| - 1] == front;
  }

  lemma AddAssociates(a: Counts, b: Counts, c: Counts)
    ensures a.Add(b).Add(c) == a.Add(b.Add(c))
  {}

  lemma CountsConcatStep(a: seq<Spec>, b: seq<Spec>)
    requires |b| > 0 && CountsOf(a + b[..|b| - 1]) == CountsOf(a).Add(CountsOf(b[..|b| - 1]))
    ensures CountsOf(a + b) == CountsOf(a).Add(CountsOf(b))
  {
    var front, last := b[..|b| - 1], b[|b| - 1];
    SplitLast(a, b);
    CountsSnoc(a + b, a + front, last);
    CountsSnoc(b, front, last);
    AddAssociates(CountsOf(a), CountsOf(front), CountOf(last));
  }

  lemma AddNothing(a: Counts)
    ensures a.Add(NO_COUNTS) == a
  {}

  lemma {:induction false} CountsConcat(a: seq<Spec>, b: seq<Spec>)
    ensures CountsOf(a + b) == CountsOf(a).Add(CountsOf(b))
    decreases |b|
  {
    if |b| == 0 {
      assert a + b == a && CountsOf(b) == NO_COUNTS;
      AddNothing(CountsOf(a));
    } else {
      CountsConcat(a, b[..|b| - 1]);
      CountsConcatStep(a, b);
    }
  }

  /** Tallying is a homomorphism: suites tallied apart and then added are the lane
      tallied at once. */
  lemma EvidenceConcat(a: seq<Spec>, b: seq<Spec>)
    ensures EvidenceOf(a + b) == EvidenceOf(a).Join(EvidenceOf(b))
  {
    CountsConcat(a, b);
    FlatConcat(a, b, FailuresOf);
    FlatConcat(a, b, SkipsOf);
  }

  function ItsOf(specs: seq<Spec>): seq<Spec> {
    if |specs| == 0 then []
    else ItsOf(specs[..|specs| - 1]) + (if specs[|specs| - 1].isIt then [specs[|specs| - 1]] else [])
  }

  /** Every It is counted once, in exactly one of the four columns. */
  lemma {:induction false} CountsBalance(specs: seq<Spec>)
    ensures CountsOf(specs).Balanced()
    ensures CountsOf(specs).specs == |ItsOf(specs)|
  {
    if |specs| > 0 {
      CountsBalance(specs[..|specs| - 1]);
    }
  }

  // ---- Classes ----

  /** How bad each thing a report can say is. The worst decides the verdict; both
      BROKEN and INTERRUPTED read as infrastructure. */
  const PASSED := 0
  const BROKEN := 1
  const SKIPPED := 2
  const ASSERTION := 3
  const INTERRUPTED := 4
  const TIMEOUT := 5

  function VerdictOf(rank: nat): Verdict {
    if rank >= TIMEOUT then VerdictTimeout
    else if rank == INTERRUPTED then VerdictInfrastructure
    else if rank == ASSERTION then VerdictAssertion
    else if rank == SKIPPED then VerdictSkipped
    else if rank == BROKEN then VerdictInfrastructure
    else VerdictPassed
  }

  function Max(a: nat, b: nat): nat {
    if a < b then b else a
  }

  /** What one node alone makes of its suite. */
  function SpecRank(spec: Spec): nat {
    if spec.state.TimedOut? then TIMEOUT
    else if spec.state.Interrupted? then INTERRUPTED
    else if IsFailure(spec.state) || (spec.isIt && spec.state.Invalid?) then ASSERTION
    else if spec.isIt && (spec.state.Pending? || spec.state.Skipped?) then SKIPPED
    else PASSED
  }

  function WorstSpec(specs: seq<Spec>): nat {
    if |specs| == 0 then PASSED else Max(WorstSpec(specs[..|specs| - 1]), SpecRank(specs[|specs| - 1]))
  }

  predicate IsPass(spec: Spec) {
    spec.isIt && spec.state.Passed?
  }

  /** Go's `unicode.ToLower`, as far as it gives letters of the word looked for: besides the
      capitals, a dotted capital I. */
  function ToLower(c: char): char {
    if 'A' <= c <= 'Z' then c - 'A' + 'a' else if c == '\U{0130}' then 'i' else c
  }

  function Lower(text: string): (lower: string)
    ensures |lower| == |text|
  {
    seq(|text|, k requires 0 <= k < |text| => ToLower(text[k]))
  }

  predicate StartsAt(text: string, part: string, at: nat) {
    at + |part| <= |text| && text[at..at + |part|] == part
  }

  predicate Contains(text: string, part: string) {
    exists at :: 0 <= at <= |text| && StartsAt(text, part, at)
  }

  predicate MentionsTimeout(reason: string) {
    Contains(Lower(reason), "timeout")
  }

  predicate TimedOut(report: Report) {
    Any(report.failureReasons, MentionsTimeout)
  }

  /** The suite did not succeed, or no spec of it passed. */
  predicate Broken(report: Report) {
    !report.succeeded || !Any(report.specs, IsPass)
  }

  /** A suite's class: the worst of its nodes, of its own status, and of being empty. */
  function ReportRank(report: Report): nat {
    Max(Max(WorstSpec(report.specs), if TimedOut(report) then TIMEOUT else PASSED),
        if Broken(report) then BROKEN else PASSED)
  }

  /** The join of the suites' classes. */
  function WorstReport(reports: seq<Report>): nat {
    if |reports| == 0 then PASSED else Max(WorstReport(reports[..|reports| - 1]), ReportRank(reports[|reports| - 1]))
  }

  // ---- Suite failure reasons ----

  predicate DidNotSucceed(report: Report) {
    !report.succeeded
  }

  method AnyReportTimedOut(reports: seq<Report>) returns (any: bool)
    ensures any <==> Any(reports, TimedOut)
  {
    AnyIff(reports, TimedOut);
    for i := 0 to |reports|
      invariant forall j :: 0 <= j < i ==> !TimedOut(reports[j])
    {
      var reasons := reports[i].failureReasons;
      AnyIff(reasons, MentionsTimeout);
      for k := 0 to |reasons|
        invariant forall j :: 0 <= j < k ==> !MentionsTimeout(reasons[j])
      {
        if MentionsTimeout(reasons[k]) {
          assert reasons[k] in reasons && reports[i] in reports && TimedOut(reports[i]);
          return true;
        }
      }
    }
    return false;
  }

  method AnyReportFailed(reports: seq<Report>) returns (any: bool)
    ensures any <==> Any(reports, DidNotSucceed)
  {
    AnyIff(reports, DidNotSucceed);
    for i := 0 to |reports|
      invariant forall j :: 0 <= j < i ==> reports[j].succeeded
    {
      if !reports[i].succeeded {
        assert reports[i] in reports && DidNotSucceed(reports[i]);
        return true;
      }
    }
    return false;
  }

  // ---- Classification ----

  predicate ByTimeout(failure: Failure) {
    failure.state.TimedOut?
  }

  predicate ByInterrupt(failure: Failure) {
    failure.state.Interrupted?
  }

  /** The decision table of `classifyReports`. */
  function Classify(reports: seq<Report>, evidence: Evidence, runFailed: bool): nat {
    if Any(reports, TimedOut) || Any(evidence.failures, ByTimeout) then TIMEOUT
    else if Any(evidence.failures, ByInterrupt) then INTERRUPTED
    else if evidence.counts.failed > 0 || |evidence.failures| > 0 then ASSERTION
    else if |evidence.unexpectedSkips| > 0 then SKIPPED
    else if Any(reports, DidNotSucceed) then BROKEN
    else if runFailed then BROKEN
    else if evidence.counts.passed == 0 then BROKEN
    else PASSED
  }

  method ClassifyReports(reports: seq<Report>, evidence: Evidence, runErr: Errors) returns (verdict: Verdict)
    ensures verdict == VerdictOf(Classify(reports, evidence, runErr != {}))
  {
    var timedOut := AnyReportTimedOut(reports);
    var interrupted := false;
    for k := 0 to |evidence.failures|
      invariant timedOut <==> Any(reports, TimedOut) || Any(evidence.failures[..k], ByTimeout)
      invariant interrupted <==> Any(evidence.failures[..k], ByInterrupt)
    {
      var failure := evidence.failures[k];
      NextPrefix(evidence.failures, k);
      match failure.state {
        case TimedOut => timedOut := true;
        case Interrupted => interrupted := true;
        case _ =>
      }
    }
    assert evidence.failures[..|evidence.failures|] == evidence.failures;
    if timedOut { return VerdictTimeout; }
    if interrupted { return VerdictInfrastructure; }
    if evidence.counts.failed > 0 || |evidence.failures| > 0 { return VerdictAssertion; }
    if |evidence.unexpectedSkips| > 0 { return VerdictSkipped; }
    var anyFailed := AnyReportFailed(reports);
    if anyFailed { return VerdictInfrastructure; }
    if runErr != {} { return VerdictInfrastructure; }
    if evidence.counts.passed == 0 { return VerdictInfrastructure; }
    return VerdictPassed;
  }

  lemma OwnFailure(spec: Spec)
    ensures Any(FailuresOf(spec), ByTimeout) <==> spec.state.TimedOut?
    ensures Any(FailuresOf(spec), ByInterrupt) <==> spec.state.Interrupted?
  {
    AnyIff(FailuresOf(spec), ByTimeout);
    AnyIff(FailuresOf(spec), ByInterrupt);
    if IsFailure(spec.state) {
      assert FailuresOf(spec)[0] in FailuresOf(spec);
    }
  }

  lemma {:induction false} FailuresShow(specs: seq<Spec>)
    ensures var failures, worst := Flat(specs, FailuresOf), WorstSpec(specs);
            && (Any(failures, ByTimeout) <==> worst == TIMEOUT)
            && (Any(failures, ByTimeout) || Any(failures, ByInterrupt) <==> worst >= INTERRUPTED)
            && worst <= TIMEOUT
  {
    if |specs| > 0 {
      var front, last := specs[..|specs| - 1], specs[|specs| - 1];
      FailuresShow(front);
      AnyConcat(Flat(front, FailuresOf), FailuresOf(last), ByTimeout);
      AnyConcat(Flat(front, FailuresOf), FailuresOf(last), ByInterrupt);
      OwnFailure(last);
    }
  }

  lemma {:induction false} CountsShow(specs: seq<Spec>)
    ensures var evidence, worst := EvidenceOf(specs), WorstSpec(specs);
            && worst != BROKEN
            && (evidence.counts.failed > 0 || |evidence.failures| > 0 <==> worst >= ASSERTION)
            && (|evidence.unexpectedSkips| > 0 ==> worst >= SKIPPED)
            && (worst == SKIPPED ==> |evidence.unexpectedSkips| > 0)
            && (evidence.counts.passed > 0 <==> Any(specs, IsPass))
  {
    if |specs| > 0 {
      CountsShow(specs[..|specs| - 1]);
    }
  }

  /** What the tally shows of a list of nodes: every class but BROKEN, and whether
      some spec passed. */
  lemma EvidenceShows(specs: seq<Spec>)
    ensures var evidence, worst := EvidenceOf(specs), WorstSpec(specs);
            && worst <= TIMEOUT && worst != BROKEN
            && (Any(evidence.failures, ByTimeout) <==> worst == TIMEOUT)
            && (Any(evidence.failures, ByTimeout) || Any(evidence.failures, ByInterrupt) <==> worst >= INTERRUPTED)
            && (evidence.counts.failed > 0 || |evidence.failures| > 0 <==> worst >= ASSERTION)
            && (|evidence.unexpectedSkips| > 0 ==> worst >= SKIPPED)
            && (worst == SKIPPED ==> |evidence.unexpectedSkips| > 0)
            && (evidence.counts.passed > 0 <==> Any(specs, IsPass))
  {
    FailuresShow(specs);
    CountsShow(specs);
  }

  /** A suite's verdict is its class. */
  lemma SuiteVerdictIsClass(report: Report)
    ensures Classify([report], EvidenceOf(report.specs), false) == ReportRank(report)
  {
    EvidenceShows(report.specs);
    AnyIff([report], TimedOut);
    AnyIff([report], DidNotSucceed);
    assert report in [report];
  }

  lemma {:induction false} WorstSpecConcat(a: seq<Spec>, b: seq<Spec>)
    ensures WorstSpec(a + b) == Max(WorstSpec(a), WorstSpec(b))
  {
    if |b| == 0 {
      assert a + b == a;
    } else {
      SplitLast(a, b);
      WorstSpecConcat(a, b[..|b| - 1]);
    }
  }

  /** The join taken apart: by node, by suite timeout, by suite status. */
  lemma {:induction false} WorstReportSplits(reports: seq<Report>)
    ensures WorstReport(reports)
         == Max(Max(WorstSpec(AllSpecs(reports)), if Any(reports, TimedOut) then TIMEOUT else PASSED),
                if Any(reports, Broken) then BROKEN else PASSED)
  {
    if |reports| > 0 {
      var front, last := reports[..|reports| - 1], reports[|reports| - 1];
      WorstReportSplits(front);
      WorstSpecConcat(AllSpecs(front), last.specs);
    }
  }

  /** A suite that did not succeed is broken, and so is some suite of a lane without a
      pass. */
  lemma {:induction false} BrokenSplits(reports: seq<Report>)
    ensures Any(reports, DidNotSucceed) ==> Any(reports, Broken)
    ensures |reports| > 0 && !Any(AllSpecs(reports), IsPass) ==> Any(reports, Broken)
  {
    if |reports| > 0 {
      var front, last := reports[..|reports| - 1], reports[|reports| - 1];
      BrokenSplits(front);
      AnyConcat(AllSpecs(front), last.specs, IsPass);
    }
  }

  /** The lane's class: the join of its suites' classes, with a run error joined in. */
  function LaneRank(reports: seq<Report>, runFailed: bool): nat {
    Max(WorstReport(reports), if runFailed then BROKEN else PASSED)
  }

  /** No spec of the suite passed. */
  predicate NoPass(report: Report) {
    !Any(report.specs, IsPass)
  }

  lemma {:induction false} BrokenIff(reports: seq<Report>)
    ensures Any(reports, Broken) <==> Any(reports, DidNotSucceed) || Any(reports, NoPass)
  {
    if |reports| > 0 {
      BrokenIff(reports[..|reports| - 1]);
    }
  }

  /** Classifying the aggregated evidence gives the lane's class, unless it passes while
      some suite passed nothing: such a suite, though it succeeded, can hide behind
      another suite's pass. A suite that did not succeed never hides. */
  lemma AggregateIsJoinIff(reports: seq<Report>, runFailed: bool)
    requires |reports| > 0
    ensures var aggregate := Classify(reports, EvidenceOf(AllSpecs(reports)), runFailed);
            && (aggregate == LaneRank(reports, runFailed) <==> aggregate != PASSED || !Any(reports, NoPass))
            && (aggregate == PASSED ==> !runFailed && !Any(reports, DidNotSucceed) && WorstReport(reports) <= BROKEN)
  {
    EvidenceShows(AllSpecs(reports));
    WorstReportSplits(reports);
    BrokenSplits(reports);
    BrokenIff(reports);
  }

  const PASSING := Spec("spec", true, State.Passed)

  /** A suite with a pass, and one that succeeded without running anything. */
  const HIDING := [Report(true, [], [PASSING]), Report(true, [], [])]

  lemma AnyOfTwo(one: Report, two: Report, p: Report -> bool)
    ensures Any([one, two], p) <==> p(one) || p(two)
  {
    AnyIff([one, two], p);
    assert [one, two][0] == one && [one, two][1] == two;
  }

  /** An input where the two differ: the suites' join is infrastructure, and the
      aggregate passes. */
  lemma AggregateHidesEmptySuite()
    ensures Classify(HIDING, EvidenceOf(AllSpecs(HIDING)), false) == PASSED
    ensures LaneRank(HIDING, false) == BROKEN
  {
    var one, two := HIDING[0], HIDING[1];
    assert HIDING[..1] == [one] && [one][..0] == [] && HIDING == [one, two];
    assert AllSpecs([one]) == [PASSING] && AllSpecs(HIDING) == [PASSING];
    assert WorstSpec([PASSING]) == PASSED && Any([PASSING], IsPass);
    AnyOfTwo(one, two, TimedOut);
    AnyOfTwo(one, two, DidNotSucceed);
    AnyOfTwo(one, two, NoPass);
    EvidenceShows([PASSING]);
    WorstReportSplits(HIDING);
    BrokenIff(HIDING);
  }

  lemma {:induction false} WorstReportIsReached(reports: seq<Report>)
    ensures forall report :: report in reports ==> ReportRank(report) <= WorstReport(reports)
    ensures WorstReport(reports) > PASSED ==> exists report :: report in reports && ReportRank(report) == WorstReport(reports)
  {
    if |reports| > 0 {
      WorstReportIsReached(reports[..|reports| - 1]);
      assert reports == reports[..|reports| - 1] + [reports[|reports| - 1]];
    }
  }

  lemma OnlyBroken(rank: nat, worst: nat)
    requires rank <= worst <= BROKEN && VerdictOf(rank) != VerdictPassed
    ensures VerdictOf(rank) == VerdictInfrastructure == VerdictOf(worst)
  {}

  /** The suite loop after a passing aggregate can only return infrastructure. */
  lemma HiddenSuiteIsBroken(reports: seq<Report>, i: nat)
    requires i < |reports| && VerdictOf(ReportRank(reports[i])) != VerdictPassed && WorstReport(reports) <= BROKEN
    ensures VerdictOf(ReportRank(reports[i])) == VerdictInfrastructure == VerdictOf(LaneRank(reports, false))
  {
    assert reports[i] in reports;
    WorstReportIsReached(reports);
    OnlyBroken(ReportRank(reports[i]), WorstReport(reports));
  }

  /** If no suite is broken either, the lane passes. */
  lemma NoHiddenSuite(reports: seq<Report>)
    requires forall i :: 0 <= i < |reports| ==> VerdictOf(ReportRank(reports[i])) == VerdictPassed
    ensures VerdictOf(LaneRank(reports, false)) == VerdictPassed
  {
    WorstReportIsReached(reports);
  }

  // ---- Lanes ----

  /** The verdict of a lane: what went wrong around the reports first, then the class
      of the reports. */
  function LaneVerdict(outcome: Outcome): Verdict {
    if outcome.bootstrapFailed then VerdictBootstrap
    else if Canceled in outcome.executionErr then VerdictCanceled
    else if DeadlineExceeded in outcome.executionErr then VerdictTimeout
    else if outcome.reportFailed || |outcome.reports| == 0 then VerdictInfrastructure
    else VerdictOf(LaneRank(outcome.reports, outcome.err != {}))
  }

  function SuiteSummaryOf(report: Report): SuiteSummary {
    SuiteSummary(VerdictOf(ReportRank(report)), EvidenceOf(report.specs))
  }

  function SuitesOf(reports: seq<Report>): (suites: seq<SuiteSummary>)
    ensures |suites| == |reports|
    ensures forall i :: 0 <= i < |reports| ==> suites[i].verdict == VerdictOf(ReportRank(reports[i]))
  {
    if |reports| == 0 then []
    else SuitesOf(reports[..|reports| - 1]) + [SuiteSummaryOf(reports[|reports| - 1])]
  }

  /** What a lane's outcome comes to. */
  function LaneSummaryOf(outcome: Outcome): LaneSummary {
    LaneSummary(outcome.name, LaneVerdict(outcome), EvidenceOf(AllSpecs(outcome.reports)), SuitesOf(outcome.reports))
  }

  method SummarizeSuite(report: Report) returns (suite: SuiteSummary)
    ensures suite == SuiteSummaryOf(report)
  {
    var tally := new SuiteTally();
    for k := 0 to |report.specs|
      invariant fresh(tally) && tally.Snapshot() == EvidenceOf(report.specs[..k])
    {
      NextPrefix(report.specs, k);
      tally.Tally(report.specs[k]);
    }
    assert report.specs[..|report.specs|] == report.specs;
    var verdict := ClassifyReports([report], tally.Snapshot(), {});
    SuiteVerdictIsClass(report);
    return SuiteSummary(verdict, tally.Snapshot());
  }

  /** The loop over the suites behind a passing aggregate. */
  method FirstNotPassed(suites: seq<SuiteSummary>, ghost reports: seq<Report>) returns (verdict: Verdict)
    requires suites == SuitesOf(reports) && WorstReport(reports) <= BROKEN
    ensures verdict == VerdictOf(LaneRank(reports, false))
    ensures verdict == VerdictInfrastructure || verdict == VerdictPassed
  {
    for i := 0 to |suites|
      invariant forall j :: 0 <= j < i ==> suites[j].verdict == VerdictPassed
    {
      if suites[i].verdict != VerdictPassed {
        HiddenSuiteIsBroken(reports, i);
        return suites[i].verdict;
      }
    }
    NoHiddenSuite(reports);
    return VerdictPassed;
  }

  /** `classify` */
  method ClassifyLane(outcome: Outcome, evidence: Evidence, suites: seq<SuiteSummary>) returns (verdict: Verdict)
    requires evidence == EvidenceOf(AllSpecs(outcome.reports)) && suites == SuitesOf(outcome.reports)
    ensures verdict == LaneVerdict(outcome)
  {
    if outcome.bootstrapFailed { return VerdictBootstrap; }
    if Canceled in outcome.executionErr { return VerdictCanceled; }
    if DeadlineExceeded in outcome.executionErr { return VerdictTimeout; }
    if outcome.reportFailed || |outcome.reports| == 0 { return VerdictInfrastructure; }
    AggregateIsJoinIff(outcome.reports, outcome.err != {});
    var classification := ClassifyReports(outcome.reports, evidence, outcome.err);
    if classification == VerdictPassed {
      classification := FirstNotPassed(suites, outcome.reports);
    }
    return classification;
  }

  method SummarizeOutcome(outcome: Outcome) returns (lane: LaneSummary)
    ensures lane == LaneSummaryOf(outcome)
  {
    var suites: seq<SuiteSummary> := [];
    var evidence := NO_EVIDENCE;
    var reports := outcome.reports;
    for k := 0 to |reports|
      invariant suites == SuitesOf(reports[..k])
      invariant evidence == EvidenceOf(AllSpecs(reports[..k]))
    {
      var suite := SummarizeSuite(reports[k]);
      NextPrefix(reports, k);
      EvidenceConcat(AllSpecs(reports[..k]), reports[k].specs);
      suites := suites + [suite];
      evidence := evidence.Join(suite.evidence);
    }
    assert reports[..|reports|] == reports;
    var verdict := ClassifyLane(outcome, evidence, suites);
    return LaneSummary(outcome.name, verdict, evidence, suites);
  }

  /** A suite passes iff it succeeded, nothing timed out, some spec passed, and every
      node is clean. */
  lemma {:induction false} CleanSpecs(specs: seq<Spec>)
    ensures WorstSpec(specs) == PASSED <==> forall spec :: spec in specs ==> SpecRank(spec) == PASSED
  {
    if |specs| > 0 {
      CleanSpecs(specs[..|specs| - 1]);
      assert specs == specs[..|specs| - 1] + [specs[|specs| - 1]];
    }
  }

  predicate SuitePasses(report: Report) {
    && report.succeeded
    && (forall reason :: reason in report.failureReasons ==> !MentionsTimeout(reason))
    && (exists spec :: spec in report.specs && IsPass(spec))
    && forall spec :: spec in report.specs ==>
         !IsFailure(spec.state) && (spec.isIt ==> spec.state.Passed?)
  }

  /** A lane passes iff bootstrap succeeded, execution was neither canceled nor timed
      out, reports exist and are readable, nothing went wrong in the run, and every
      suite passes. */
  lemma LanePassesIff(outcome: Outcome)
    ensures LaneVerdict(outcome) == VerdictPassed <==>
      && !outcome.bootstrapFailed
      && Canceled !in outcome.executionErr && DeadlineExceeded !in outcome.executionErr
      && !outcome.reportFailed && |outcome.reports| > 0
      && outcome.err == {}
      && forall report :: report in outcome.reports ==> SuitePasses(report)
  {
    WorstReportIsReached(outcome.reports);
    forall report | report in outcome.reports
      ensures ReportRank(report) == PASSED <==> SuitePasses(report)
    {
      CleanSpecs(report.specs);
      AnyIff(report.failureReasons, MentionsTimeout);
      AnyIff(report.specs, IsPass);
    }
  }

  /** `Outcome.Passed` */
  method LanePassed(outcome: Outcome) returns (passed: bool)
    ensures passed <==> LaneVerdict(outcome) == VerdictPassed
  {
    var lane := SummarizeOutcome(outcome);
    return lane.verdict == VerdictPassed;
  }

  // ---- The run's summary ----

  datatype Summary = Summary(passed: bool, totals: Counts, lanes: seq<LaneSummary>)

  function TotalCounts(outcomes: seq<Outcome>): Counts {
    if |outcomes| == 0 then NO_COUNTS
    else TotalCounts(outcomes[..|outcomes| - 1]).Add(EvidenceOf(AllSpecs(outcomes[|outcomes| - 1].reports)).counts)
  }

  predicate DoesNotPass(outcome: Outcome) {
    LaneVerdict(outcome) != VerdictPassed
  }

  function LanesOf(outcomes: seq<Outcome>): (lanes: seq<LaneSummary>)
    ensures |lanes| == |outcomes|
    ensures forall i :: 0 <= i < |outcomes| ==>
      lanes[i].name == outcomes[i].name && lanes[i].verdict == LaneVerdict(outcomes[i])
  {
    if |outcomes| == 0 then []
    else LanesOf(outcomes[..|outcomes| - 1]) + [LaneSummaryOf(outcomes[|outcomes| - 1])]
  }

  function SummaryOf(outcomes: seq<Outcome>): Summary {
    Summary(!Any(outcomes, DoesNotPass), TotalCounts(outcomes), LanesOf(outcomes))
  }

  /** The files are written after the summary is assembled; `written` says whether
      that worked, and the summary comes back either way. */
  method Summarize(outcomes: seq<Outcome>, written: bool) returns (summary: Summary, ok: bool)
    ensures summary == SummaryOf(outcomes) && ok == written
  {
    var lanes: seq<LaneSummary>, totals, passed := [], NO_COUNTS, true;
    for i := 0 to |outcomes|
      invariant lanes == LanesOf(outcomes[..i])
      invariant totals == TotalCounts(outcomes[..i])
      invariant passed <==> !Any(outcomes[..i], DoesNotPass)
    {
      var lane := SummarizeOutcome(outcomes[i]);
      NextPrefix(outcomes, i);
      lanes := lanes + [lane];
      totals := totals.Add(lane.evidence.counts);
      if lane.verdict != VerdictPassed { passed := false; }
    }
    assert outcomes[..|outcomes|] == outcomes;
    return Summary(passed, totals, lanes), written;
  }

  lemma {:induction false} TotalsBalance(outcomes: seq<Outcome>)
    ensures TotalCounts(outcomes).Balanced()
  {
    if |outcomes| > 0 {
      TotalsBalance(outcomes[..|outcomes| - 1]);
      CountsBalance(AllSpecs(outcomes[|outcomes| - 1].reports));
    }
  }

  function NotPassed(lane: LaneSummary): seq<string> {
    if lane.verdict != VerdictPassed then [lane.name] else []
  }

  /** `VerdictError`: the names of the lanes that did not pass, in order; empty means nil. */
  method VerdictError(summary: Summary) returns (failed: seq<string>)
    ensures failed == Flat(summary.lanes, NotPassed)
    ensures failed == [] <==> forall i :: 0 <= i < |summary.lanes| ==> summary.lanes[i].verdict == VerdictPassed
  {
    failed := [];
    for i := 0 to |summary.lanes|
      invariant failed == [] <==> forall j :: 0 <= j < i ==> summary.lanes[j].verdict == VerdictPassed
      invariant failed == Flat(summary.lanes[..i], NotPassed)
    {
      NextPrefix(summary.lanes, i);
      if summary.lanes[i].verdict != VerdictPassed {
        failed := failed + [summary.lanes[i].name];
      }
    }
    assert summary.lanes[..|summary.lanes|] == summary.lanes;
  }
}
