/** The order in which one lane deals with its enclave (lane.go, manager.go), as a
    machine that reads the enclave's events, and what every history of the engine keeps
    of an enclave whose events the machine accepts. */
module LaneProtocol {
  import opened EnclaveHistory
  import opened Results
  import opened Wrappers

  /** A lane whose network was acquired: whether it provisioned it, its outcome with the
      log closed, and the errors of its diagnostics. */
  datatype Lease = Lease(provisioned: bool, closed: Outcome, diagnosis: Errors) {
    predicate Passed() {
      LaneVerdict(closed) == VerdictPassed
    }

    function Outcome(released: bool): Outcome {
      closed.(err := closed.err + diagnosis + (if released then {} else {Release}))
    }

    function Diagnosed(ok: bool): Lease {
      this.(diagnosis := if ok then {} else {ErrorTag.Diagnostics})
    }
  }

  /** Why an enclave is being destroyed. */
  datatype Purpose = FailedStart(diagnosed: bool) | Releases(lease: Lease)

  datatype Progress =
    | Idle
    | Inspecting | Attaching
    | Starting(diagnose: bool) | Creating(diagnose: bool) | Provisioning(diagnose: bool) | StartDiagnosing
    | Leased(provisioned: bool)
    | Diagnosing(lease: Lease) | Releasing(lease: Lease) | Looking(lease: Lease)
    | Destroying(purpose: Purpose) | Confirming(purpose: Purpose, destroyed: bool)
    | LateDiagnosing(lease: Lease)
    | Unacquired(provisioned: bool)
    | Finished(lease: Lease, released: bool)
    | Stuck

  function StartFailed(diagnose: bool): Progress {
    if diagnose then StartDiagnosing else Destroying(FailedStart(false))
  }

  /** The release of a lease, once it was diagnosed if it had to be. */
  function ToRelease(lease: Lease): Progress {
    if lease.provisioned then Releasing(lease) else Finished(lease, true)
  }

  /** A release that fails is diagnosed, unless the lane was before. */
  function AfterRelease(lease: Lease, released: bool): Progress {
    if !released && lease.Passed() then LateDiagnosing(lease) else Finished(lease, released)
  }

  function AfterDestroy(purpose: Purpose, confirmed: bool): Progress {
    match purpose
    case FailedStart(_) => Unacquired(true)
    case Releases(lease) => AfterRelease(lease, confirmed)
  }

  function AfterBody(provisioned: bool, closed: Outcome): Progress {
    var lease := Lease(provisioned, closed, {});
    if closed.bootstrapFailed then Stuck
    else if lease.Passed() then ToRelease(lease) else Diagnosing(lease)
  }

  function OnExists(p: Progress, answer: Option<bool>): Progress {
    match p
    case Inspecting => if answer == Some(true) then Attaching else Unacquired(false)
    case Starting(diagnose) => if answer == Some(false) then Creating(diagnose) else Unacquired(true)
    case Looking(lease) =>
      if answer == Some(true) then Destroying(Releases(lease)) else AfterRelease(lease, answer.Some?)
    case Confirming(purpose, destroyed) => if answer == Some(false) then AfterDestroy(purpose, destroyed) else p
    case _ => Stuck
  }

  function OnDiagnose(p: Progress, ok: bool): Progress {
    match p
    case StartDiagnosing => Destroying(FailedStart(true))
    case Diagnosing(lease) => ToRelease(lease.Diagnosed(ok))
    case LateDiagnosing(lease) => Finished(lease.Diagnosed(ok), false)
    case _ => Stuck
  }

  function OnStop(p: Progress, connected: bool): Progress {
    if !p.Releasing? then Stuck else if connected then Looking(p.lease) else AfterRelease(p.lease, false)
  }

  function Advance(p: Progress, e: Event): Progress {
    match e
    case Inspect(connected) => if p != Idle then Stuck else if connected then Inspecting else Unacquired(false)
    case Attach(ok) => if p != Attaching then Stuck else if ok then Leased(false) else Unacquired(false)
    case Start(connected, diagnose) =>
      if p != Idle then Stuck else if connected then Starting(diagnose) else Unacquired(true)
    case Create(ok, _) => if !p.Creating? then Stuck else if ok then Provisioning(p.diagnose) else Unacquired(true)
    case Provision(ok) => if !p.Provisioning? then Stuck else if ok then Leased(true) else StartFailed(p.diagnose)
    case Body(closed) => if p.Leased? then AfterBody(p.provisioned, closed) else Stuck
    case Diagnose(ok) => OnDiagnose(p, ok)
    case Stop(connected) => OnStop(p, connected)
    case Exists(answer) => OnExists(p, answer)
    case Destroy(ok, _) => if p.Destroying? then Confirming(p.purpose, ok) else Stuck
    case GiveUp => if p.Confirming? then AfterDestroy(p.purpose, false) else Stuck
  }

  function ProgressAfter(events: seq<Event>): Progress {
    if |events| == 0 then Idle else Advance(ProgressAfter(events[..|events| - 1]), events[|events| - 1])
  }

  lemma AdvanceOnce(events: seq<Event>, e: Event)
    ensures ProgressAfter(events + [e]) == Advance(ProgressAfter(events), e)
  {
    var more := events + [e];
    assert more[..|more| - 1] == events;
  }

  function ProgressOf(history: seq<Moment>, name: string): Progress {
    ProgressAfter(Own(history, name))
  }

  lemma ProgressStep(history: seq<Moment>, m: Moment, name: string)
    ensures ProgressOf(history + [m], name)
         == if m.By? && m.name == name then Advance(ProgressOf(history, name), m.event) else ProgressOf(history, name)
  {
    OneMore(Enclaves({}, {}), history, m);
    if m.By? && m.name == name {
      AdvanceOnce(Own(history, name), m.event);
    } else {
      assert Own(history, name) + [] == Own(history, name);
    }
  }

  /** How far the dealings with each enclave have come, after one more moment. */
  function Progressed(before: string -> Progress, m: Moment): string -> Progress {
    name => if m.By? && m.name == name then Advance(before(name), m.event) else before(name)
  }

  /** The function says of each enclave how far the history has come with it. */
  ghost predicate Tracks(progress: string -> Progress, history: seq<Moment>) {
    forall name {:trigger ProgressOf(history, name)} :: ProgressOf(history, name) == progress(name)
  }

  lemma TracksOneMore(progress: string -> Progress, history: seq<Moment>, m: Moment)
    requires Tracks(progress, history)
    ensures Tracks(Progressed(progress, m), history + [m])
  {
    forall name
      ensures ProgressOf(history + [m], name) == Progressed(progress, m)(name)
    {
      ProgressStep(history, m, name);
    }
  }

  predicate Ended(p: Progress) {
    p.Unacquired? || p.Finished?
  }

  /** The outcome of a lane whose dealings have ended. */
  function OutcomeOf(lane: string, p: Progress): Outcome
    requires Ended(p)
  {
    if p.Unacquired? then Outcome(lane, {Bootstrap}, {}, true, [], false) else p.lease.Outcome(p.released)
  }

  // ---- What every history keeps ----

  /** What a lane owes its enclave. Where it was to provision a network, an enclave that is
      still there is never silent, whoever made it; where it was to attach, it made none.
      And one that was there, and not on its way out, is left as it was. */
  predicate AccountsFor(provision: bool, s0: Enclaves, s: Enclaves, name: string, outcome: Outcome) {
    && (provision && name in s.present ==> outcome.err != {})
    && (!provision && name in s.present ==> name in s0.present)
    && (name in s0.present && name !in s0.dying ==> name in s.present && name !in s.dying)
  }

  /** A lane at this point has a network of its own up. */
  predicate HoldsOwn(p: Progress) {
    match p
    case Provisioning(_) => true
    case StartDiagnosing => true
    case Leased(provisioned) => provisioned
    case Diagnosing(lease) => lease.provisioned
    case Releasing(_) => true
    case Looking(_) => true
    case Destroying(_) => true
    case _ => false
  }

  /** A lane at this point may have asked for its enclave to be created or destroyed. */
  predicate MayTouch(p: Progress) {
    || HoldsOwn(p) || p.Creating? || p.Confirming? || p.LateDiagnosing?
    || (p.Unacquired? && p.provisioned) || (p.Finished? && p.lease.provisioned)
  }

  /** The lane had its network, and one that passed has not been diagnosed. */
  predicate InOrder(lease: Lease) {
    !lease.closed.bootstrapFailed && (lease.Passed() ==> lease.diagnosis == {})
  }

  predicate PurposeInOrder(purpose: Purpose) {
    purpose.Releases? ==> purpose.lease.provisioned && InOrder(purpose.lease)
  }

  /** Only a network the lane provisioned is ever released, and only a lane that passed
      is diagnosed late. */
  predicate OwnsLease(p: Progress) {
    match p
    case Diagnosing(lease) => !lease.Passed() && InOrder(lease)
    case Releasing(lease) => lease.provisioned && InOrder(lease)
    case Looking(lease) => lease.provisioned && InOrder(lease)
    case Destroying(purpose) => PurposeInOrder(purpose)
    case Confirming(purpose, _) => PurposeInOrder(purpose)
    case LateDiagnosing(lease) => lease.provisioned && lease.Passed() && InOrder(lease)
    case Finished(lease, released) =>
      (lease.provisioned || released) && !lease.closed.bootstrapFailed && (released ==> InOrder(lease))
    case _ => true
  }

  /** How the enclave stands at each point of the protocol. An enclave that was there
      before, and not on its way out, is never touched. */
  predicate Stands(p: Progress, s0: Enclaves, s: Enclaves, name: string) {
    && (name in s0.present && name !in s0.dying ==> name in s.present && name !in s.dying)
    && (!MayTouch(p) && name in s.present ==> name in s0.present)
    && (!MayTouch(p) ==> (name in s.dying <==> name in s0.dying))
    && (HoldsOwn(p) ==> name in s.present && name !in s.dying)
    && (HoldsOwn(p) || p.Creating? || p.Confirming? || p.LateDiagnosing? || (p.Finished? && p.lease.provisioned) ==>
          name !in s0.present || name in s0.dying)
    && (p.Creating? ==> name !in s.present)
    && OwnsLease(p)
    && (p.Finished? && p.lease.provisioned && p.released ==> name !in s.present)
  }

  lemma OwnEventKeeps(p: Progress, s0: Enclaves, s: Enclaves, name: string, e: Event)
    requires Stands(p, s0, s, name) && Possible(s, By(name, e)) && Advance(p, e) != Stuck
    ensures Stands(Advance(p, e), s0, After(s, By(name, e)), name)
  {}

  lemma OtherMomentKeeps(p: Progress, s0: Enclaves, s: Enclaves, m: Moment, name: string)
    requires Stands(p, s0, s, name) && Possible(s, m) && (m.By? ==> m.name != name)
    ensures Stands(p, s0, After(s, m), name)
  {}

  /** Whatever else happens at the engine, and in whatever order: an enclave whose own
      events follow the protocol stands as the protocol says. */
  lemma {:induction false} EnclaveStands(s0: Enclaves, history: seq<Moment>, name: string)
    requires Lawful(s0, history)
    ensures ProgressOf(history, name) != Stuck ==> Stands(ProgressOf(history, name), s0, Replay(s0, history), name)
  {
    if |history| > 0 {
      var front, last := history[..|history| - 1], history[|history| - 1];
      assert history == front + [last];
      EnclaveStands(s0, front, name);
      ProgressStep(front, last, name);
      if ProgressOf(history, name) != Stuck {
        if last.By? && last.name == name {
          OwnEventKeeps(ProgressOf(front, name), s0, Replay(s0, front), name, last.event);
        } else {
          OtherMomentKeeps(ProgressOf(front, name), s0, Replay(s0, front), last, name);
        }
      }
    }
  }

  // ---- What is called, and how often ----

  function Count(events: seq<Event>, kind: Event -> bool): nat {
    if |events| == 0 then 0
    else Count(events[..|events| - 1], kind) + (if kind(events[|events| - 1]) then 1 else 0)
  }

  predicate IsStop(e: Event) {
    e.Stop?
  }

  predicate IsDiagnose(e: Event) {
    e.Diagnose?
  }

  predicate IsDestroy(e: Event) {
    e.Destroy?
  }

  predicate IsCreate(e: Event) {
    e.Create?
  }

  /** How often the lane has called each by now: a network it provisioned is stopped
      once and one it attached to never; it is diagnosed once if and only if it had not
      passed or its release failed, and in the first case before the stop. */
  predicate Counted(p: Progress, stops: nat, diagnoses: nat, destroys: nat, creates: nat) {
    match p
    case Idle | Inspecting | Attaching | Starting(_) | Creating(_) =>
      stops == diagnoses == destroys == creates == 0
    case Provisioning(_) | StartDiagnosing => stops == diagnoses == destroys == 0 && creates == 1
    case Leased(provisioned) => stops == diagnoses == destroys == 0 && creates == if provisioned then 1 else 0
    case Diagnosing(lease) => stops == diagnoses == destroys == 0 && creates == if lease.provisioned then 1 else 0
    case Releasing(lease) => stops == destroys == 0 && diagnoses == (if lease.Passed() then 0 else 1) && creates == 1
    case Looking(lease) => stops == 1 && destroys == 0 && diagnoses == (if lease.Passed() then 0 else 1) && creates == 1
    case Destroying(FailedStart(diagnosed)) =>
      stops == destroys == 0 && diagnoses == (if diagnosed then 1 else 0) && creates == 1
    case Destroying(Releases(lease)) =>
      stops == 1 && destroys == 0 && diagnoses == (if lease.Passed() then 0 else 1) && creates == 1
    case Confirming(FailedStart(diagnosed), _) =>
      stops == 0 && destroys == 1 && diagnoses == (if diagnosed then 1 else 0) && creates == 1
    case Confirming(Releases(lease), _) =>
      stops == destroys == 1 && diagnoses == (if lease.Passed() then 0 else 1) && creates == 1
    case LateDiagnosing(lease) => stops == 1 && destroys <= 1 && diagnoses == 0 && creates == 1
    case Unacquired(_) => stops == 0 && diagnoses <= destroys <= creates <= 1
    case Finished(lease, released) =>
      && stops == creates == (if lease.provisioned then 1 else 0) && destroys <= stops
      && diagnoses == if lease.Passed() && released then 0 else 1
    case Stuck => true
  }

  lemma EventCounts(p: Progress, e: Event, stops: nat, diagnoses: nat, destroys: nat, creates: nat)
    requires p != Stuck && OwnsLease(p) && Counted(p, stops, diagnoses, destroys, creates)
    ensures OwnsLease(Advance(p, e))
    ensures Counted(Advance(p, e), if e.Stop? then stops + 1 else stops, if e.Diagnose? then diagnoses + 1 else diagnoses,
                    if e.Destroy? then destroys + 1 else destroys, if e.Create? then creates + 1 else creates)
  {}

  /** At every point of every lane's dealings with its enclave the calls are as counted. */
  lemma {:induction false} CallsCounted(events: seq<Event>)
    ensures var p := ProgressAfter(events);
            OwnsLease(p) && Counted(p, Count(events, IsStop), Count(events, IsDiagnose), Count(events, IsDestroy),
                                    Count(events, IsCreate))
  {
    if |events| > 0 {
      var front, last := events[..|events| - 1], events[|events| - 1];
      CallsCounted(front);
      if ProgressAfter(front) != Stuck {
        EventCounts(ProgressAfter(front), last, Count(front, IsStop), Count(front, IsDiagnose), Count(front, IsDestroy),
                    Count(front, IsCreate));
      }
    }
  }

  // ---- Attaching or provisioning ----

  /** A lane inspects a network to attach to it, and starts one to provision it. */
  predicate SuitsMode(provision: bool, e: Event) {
    (e.Inspect? ==> !provision) && (e.Start? ==> provision)
  }

  predicate PurposeSuits(purpose: Purpose, provision: bool) {
    if purpose.FailedStart? then provision else purpose.lease.provisioned == provision
  }

  /** The lane has come here by attaching or by provisioning, as it should. */
  predicate ProgressSuits(p: Progress, provision: bool) {
    match p
    case Inspecting | Attaching => !provision
    case Starting(_) | Creating(_) | Provisioning(_) | StartDiagnosing => provision
    case Leased(provisioned) => provisioned == provision
    case Unacquired(provisioned) => provisioned == provision
    case Diagnosing(lease) => lease.provisioned == provision
    case Releasing(lease) => lease.provisioned == provision
    case Looking(lease) => lease.provisioned == provision
    case Destroying(purpose) => PurposeSuits(purpose, provision)
    case Confirming(purpose, _) => PurposeSuits(purpose, provision)
    case LateDiagnosing(lease) => lease.provisioned == provision
    case Finished(lease, _) => lease.provisioned == provision
    case Idle => true
    case Stuck => false
  }

  lemma AdvanceSuits(p: Progress, e: Event, provision: bool)
    requires Advance(p, e) != Stuck
    ensures ProgressSuits(Advance(p, e), provision) <==> ProgressSuits(p, provision) && SuitsMode(provision, e)
  {}

  predicate Accepts(provision: bool, events: seq<Event>, next: Event) {
    SuitsMode(provision, next) && Advance(ProgressAfter(events), next) != Stuck
  }

  /** Each event was the protocol's next, and suits the mode. */
  predicate Follows(provision: bool, events: seq<Event>) {
    forall k :: 0 <= k < |events| ==> Accepts(provision, events[..k], events[k])
  }

  lemma FollowsOneMore(provision: bool, front: seq<Event>, last: Event)
    ensures Follows(provision, front + [last]) <==> Follows(provision, front) && Accepts(provision, front, last)
  {
    var events := front + [last];
    forall k | 0 <= k < |front|
      ensures Accepts(provision, events[..k], events[k]) <==> Accepts(provision, front[..k], front[k])
    {
      assert events[..k] == front[..k];
    }
    assert events[..|front|] == front && events[|front|] == last;
    if Follows(provision, events) {
      assert Accepts(provision, events[..|front|], events[|front|]);
      forall k | 0 <= k < |front|
        ensures Accepts(provision, front[..k], front[k])
      {
        assert Accepts(provision, events[..k], events[k]);
      }
    }
  }

  /** Where a lane has come to says that every event on the way was in its place. */
  lemma {:induction false} EndFollows(provision: bool, events: seq<Event>)
    ensures ProgressSuits(ProgressAfter(events), provision) <==> Follows(provision, events)
  {
    if |events| > 0 {
      var front, last := events[..|events| - 1], events[|events| - 1];
      EndFollows(provision, front);
      if Advance(ProgressAfter(front), last) != Stuck {
        AdvanceSuits(ProgressAfter(front), last, provision);
      }
      FollowsOneMore(provision, front, last);
      assert events == front + [last];
    }
  }

  // ---- How a lane ends ----

  /** Errors joined after the fact cannot make a lane pass, and any can make it fail. */
  lemma FinalVerdict(closed: Outcome, more: Errors, outcome: Outcome)
    requires outcome == closed.(err := outcome.err) && outcome.err == closed.err + more
    ensures LaneVerdict(outcome) == VerdictPassed <==> LaneVerdict(closed) == VerdictPassed && more == {}
  {
    LanePassesIff(closed);
    LanePassesIff(outcome);
  }

  /** The lane's verdict says how its dealings ended. */
  lemma FinishedVerdict(lease: Lease, released: bool)
    requires OwnsLease(Finished(lease, released))
    ensures LaneVerdict(lease.Outcome(released)) == VerdictPassed <==> lease.Passed() && released
    ensures !lease.Outcome(released).bootstrapFailed
  {
    var more := lease.diagnosis + if released then {} else {Release};
    assert !released ==> Release in more;
    assert lease.closed.err + lease.diagnosis + (if released then {} else {Release}) == lease.closed.err + more;
    FinalVerdict(lease.closed, more, lease.Outcome(released));
  }

  /** How often a lane with this outcome has called what. One that got its network stopped
      it once if it provisioned it and never if it attached to it, and diagnosed it once if
      and only if it does not pass. One that did not never stopped anything, and destroyed,
      once and diagnosed, at most what it had created. */
  predicate CalledFor(provision: bool, events: seq<Event>, outcome: Outcome) {
    var stops, diagnoses := Count(events, IsStop), Count(events, IsDiagnose);
    var destroys, creates := Count(events, IsDestroy), Count(events, IsCreate);
    if outcome.bootstrapFailed then stops == 0 && diagnoses <= destroys <= creates <= 1
    else
      && stops == creates == (if provision then 1 else 0) && destroys <= stops
      && diagnoses == if LaneVerdict(outcome) == VerdictPassed then 0 else 1
  }

  /** The lane accounts for its enclave, and for its calls. */
  predicate Accounted(provision: bool, s0: Enclaves, history: seq<Moment>, name: string, outcome: Outcome) {
    AccountsFor(provision, s0, Replay(s0, history), name, outcome) && CalledFor(provision, Own(history, name), outcome)
  }

  lemma EndedAccountsFor(provision: bool, s0: Enclaves, history: seq<Moment>, name: string, lane: string)
    requires Lawful(s0, history) && Ended(ProgressOf(history, name)) && ProgressSuits(ProgressOf(history, name), provision)
    ensures AccountsFor(provision, s0, Replay(s0, history), name, OutcomeOf(lane, ProgressOf(history, name)))
  {
    EnclaveStands(s0, history, name);
    assert Bootstrap in {Bootstrap} && Release in {Release};
  }

  lemma EndedCalledFor(provision: bool, history: seq<Moment>, name: string, lane: string)
    requires Ended(ProgressOf(history, name)) && ProgressSuits(ProgressOf(history, name), provision)
    ensures CalledFor(provision, Own(history, name), OutcomeOf(lane, ProgressOf(history, name)))
  {
    var p := ProgressOf(history, name);
    CallsCounted(Own(history, name));
    if p.Finished? {
      FinishedVerdict(p.lease, p.released);
    }
  }

  /** Whoever else acts at the engine: a lane whose dealings have ended, begun by attaching
      or provisioning as it should, is accounted for. */
  lemma EndedAccounted(provision: bool, s0: Enclaves, history: seq<Moment>, name: string, lane: string)
    requires Lawful(s0, history) && Ended(ProgressOf(history, name)) && ProgressSuits(ProgressOf(history, name), provision)
    ensures Accounted(provision, s0, history, name, OutcomeOf(lane, ProgressOf(history, name)))
  {
    EndedAccountsFor(provision, s0, history, name, lane);
    EndedCalledFor(provision, history, name, lane);
  }

  // ---- How far a lane still has to go ----

  /** More than the events after this point, polls of a destruction apart. */
  function Rank(p: Progress): nat {
    match p
    case Idle => 11
    case Starting(_) => 10
    case Creating(_) | Inspecting => 9
    case Provisioning(_) | Attaching => 8
    case Leased(_) => 7
    case Diagnosing(_) => 6
    case Releasing(_) => 5
    case Looking(_) | StartDiagnosing => 4
    case Destroying(_) => 3
    case Confirming(_, _) => 2
    case LateDiagnosing(_) => 1
    case Unacquired(_) | Finished(_, _) | Stuck => 0
  }

  /** Every event of a lane brings it nearer to its end, except a poll that does not find
      the enclave gone. */
  lemma EventAdvances(p: Progress, e: Event)
    requires Advance(p, e) != Stuck
    ensures if Advance(p, e) == p then p.Confirming? && e.Exists? && e.answer != Some(false)
            else Rank(Advance(p, e)) < Rank(p)
  {}
}
