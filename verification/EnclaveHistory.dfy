/** What happens to the enclaves of a Kurtosis engine, moment by moment, whoever acts
    (devnet/manager.go): any interleaving of any number of lanes is such a history. */
module EnclaveHistory {
  import opened Results
  import opened Wrappers

  /** The enclaves there are, and those whose destruction has been requested. */
  datatype Enclaves = Enclaves(present: set<string>, dying: set<string>)

  /** Something done with one enclave, and how it turned out. */
  datatype Event =
    | Inspect(connected: bool) | Attach(ok: bool)
    | Start(connected: bool, diagnose: bool) | Create(ok: bool, made: bool) | Provision(ok: bool)
    | Body(closed: Outcome)
    | Diagnose(ok: bool) | Stop(connected: bool)
    | Exists(answer: Option<bool>) | Destroy(ok: bool, gone: bool) | GiveUp

  /** An event at an enclave, or the engine finishing a destruction it was asked for. */
  datatype Moment = By(name: string, event: Event) | Vanish(name: string)

  /** Answers are true when given; a creation that fails may still have made the enclave. */
  predicate Possible(s: Enclaves, m: Moment) {
    match m
    case Vanish(name) => name in s.dying
    case By(name, Exists(answer)) => answer.Some? ==> answer.value == (name in s.present)
    case By(_, Create(ok, made)) => ok ==> made
    case _ => true
  }

  function After(s: Enclaves, m: Moment): Enclaves {
    match m
    case Vanish(name) => s.(present := s.present - {name})
    case By(name, Create(_, made)) =>
      Enclaves(if made then s.present + {name} else s.present, s.dying - {name})
    case By(name, Destroy(_, gone)) =>
      Enclaves(if gone then s.present - {name} else s.present, s.dying + {name})
    case _ => s
  }

  function Replay(s: Enclaves, history: seq<Moment>): Enclaves {
    if |history| == 0 then s else After(Replay(s, history[..|history| - 1]), history[|history| - 1])
  }

  predicate Lawful(s: Enclaves, history: seq<Moment>) {
    |history| == 0 ||
    (Lawful(s, history[..|history| - 1]) && Possible(Replay(s, history[..|history| - 1]), history[|history| - 1]))
  }

  function OwnEvent(m: Moment, name: string): seq<Event> {
    if m.By? && m.name == name then [m.event] else []
  }

  /** The events of one enclave, in their order. */
  function Own(history: seq<Moment>, name: string): seq<Event> {
    if |history| == 0 then []
    else Own(history[..|history| - 1], name) + OwnEvent(history[|history| - 1], name)
  }

  lemma OneMore(s: Enclaves, history: seq<Moment>, m: Moment)
    ensures Replay(s, history + [m]) == After(Replay(s, history), m)
    ensures Lawful(s, history + [m]) <==> Lawful(s, history) && Possible(Replay(s, history), m)
    ensures forall name :: Own(history + [m], name) == Own(history, name) + OwnEvent(m, name)
  {
    var more := history + [m];
    assert more[..|more| - 1] == history;
  }
}
