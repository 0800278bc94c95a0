/** Resolving a network's participants from its services (devnet/environment.go): a
    fold over a Go map, in whatever order it is iterated. */
module Participants {
  import opened Wrappers
  import opened ServiceNames
  import opened Sorting

  datatype Kind = Execution | Beacon | Validator

  datatype Section =
    | ExecutionService(name: string, id: string, privateIP: string,
                       rpcURL: string, graphQLURL: string, webSocketURL: string, engineURL: string)
    | ConsensusService(name: string, id: string, privateIP: string, url: string, grpc: string, metricsURL: string)
    | ValidatorService(name: string, id: string, privateIP: string, url: string, metricsURL: string)

  /** A section without a service yet is None, the zero struct of the code. */
  datatype Participant = Participant(
    index: int, execution: Option<Section>, consensus: Option<Section>, validator: Option<Section>)
  {
    function With(kind: Kind, section: Section): Participant {
      match kind
      case Execution => this.(execution := Some(section))
      case Beacon => this.(consensus := Some(section))
      case Validator => this.(validator := Some(section))
    }

    /** It has the clients every participant must have. */
    predicate Complete() {
      execution.Some? && consensus.Some?
    }
  }

  /** What one service asks of the fold: nothing, an error, or a place. */
  datatype Claim = Ignored | Rejected | Stands(index: int, kind: Kind, section: Section)

  function KindOf(service: Service): Option<Kind> {
    var clientType := Label(service.labels, CLIENT_TYPE_LABEL);
    if clientType == "execution" then Some(Execution)
    else if clientType == "beacon" then Some(Beacon)
    else if clientType == "validator" then Some(Validator)
    else None
  }

  /** A service's section, if the endpoints it must publish are there. */
  function SectionOf(name: string, service: Service, kind: Kind): Option<Section> {
    match kind
    case Execution =>
      var rpc := PublicEndpoint(service, "rpc", "http");
      var ws := PublicEndpoint(service, "ws", "ws");
      if rpc.None? || ws.None? then None
      else Some(ExecutionService(name, service.uuid, service.privateIP, rpc.value, rpc.value + "/graphql", ws.value,
                                 OrEmpty(PublicEndpoint(service, "engine-rpc", "http"))))
    case Beacon =>
      var url := PublicEndpoint(service, "http", "http");
      if url.None? then None
      else Some(ConsensusService(name, service.uuid, service.privateIP, url.value,
                                 OrEmpty(PublicHostPort(service, "rpc")),
                                 OrEmpty(PublicEndpoint(service, "metrics", "http"))))
    case Validator =>
      Some(ValidatorService(name, service.uuid, service.privateIP,
                            OrEmpty(PublicEndpoint(service, "http-validator", "http")),
                            OrEmpty(PublicEndpoint(service, "metrics", "http"))))
  }

  function ClaimOf(name: string, service: Service): Claim {
    match KindOf(service)
    case None => Ignored
    case Some(kind) =>
      var index := ParticipantIndex(name, service.labels);
      var section := SectionOf(name, service, kind);
      if index.None? || section.None? then Rejected else Stands(index.value, kind, section.value)
  }

  type Claims = map<string, Claim>

  function ClaimsOf(services: map<string, Service>): Claims {
    map name | name in services :: ClaimOf(name, services[name])
  }

  // ---- What the fold must come to, whatever the order ----

  predicate Indexed(claims: Claims, index: int) {
    exists name :: name in claims && claims[name].Stands? && claims[name].index == index
  }

  predicate Has(claims: Claims, index: int, kind: Kind) {
    exists name :: name in claims && claims[name].Stands? && claims[name].index == index && claims[name].kind == kind
  }

  /** The section is that of a service standing at this place; none only if none does. */
  predicate From(claims: Claims, index: int, kind: Kind, section: Option<Section>) {
    match section
    case Some(s) => exists name :: name in claims && claims[name] == Stands(index, kind, s)
    case None => !Has(claims, index, kind)
  }

  predicate Resolves(claims: Claims, p: Participant) {
    && From(claims, p.index, Execution, p.execution)
    && From(claims, p.index, Beacon, p.consensus)
    && From(claims, p.index, Validator, p.validator)
  }

  /** Some service stands, none is rejected, and at every index there is both an
      execution and a beacon service. */
  ghost predicate Resolvable(claims: Claims) {
    && (exists index :: Indexed(claims, index))
    && (forall name :: name in claims ==> !claims[name].Rejected?)
    && (forall index :: Indexed(claims, index) ==> Has(claims, index, Execution) && Has(claims, index, Beacon))
  }

  predicate Before(p: Participant, q: Participant) {
    p.index < q.index
  }

  predicate HasIndex(participants: seq<Participant>, index: int) {
    exists p :: p in participants && p.index == index
  }

  /** One participant for each index of the services, in increasing order. */
  ghost predicate Describes(claims: Claims, participants: seq<Participant>) {
    && Ascending(participants, Before)
    && (forall index :: HasIndex(participants, index) <==> Indexed(claims, index))
    && (forall p :: p in participants ==> Resolves(claims, p) && p.Complete())
  }

  // ---- The fold ----

  /** The state of the fold after the services that made these claims. */
  ghost predicate Folded(claims: Claims, byIndex: map<int, Participant>) {
    && (forall name :: name in claims ==> !claims[name].Rejected?)
    && (forall index :: index in byIndex <==> Indexed(claims, index))
    && (forall index :: index in byIndex ==> byIndex[index].index == index && Resolves(claims, byIndex[index]))
  }

  function Current(byIndex: map<int, Participant>, index: int): Participant {
    if index in byIndex then byIndex[index] else Participant(index, None, None, None)
  }

  lemma FromStep(claims: Claims, name: string, at: int, kind: Kind, section: Section,
                 index: int, other: Kind, before: Option<Section>)
    requires name !in claims && From(claims, index, other, before)
    ensures From(claims[name := Stands(at, kind, section)], index, other,
                 if index == at && other == kind then Some(section) else before)
  {
    var more := claims[name := Stands(at, kind, section)];
    if index == at && other == kind {
      assert name in more && more[name] == Stands(index, other, section);
    } else if before.Some? {
      var from :| from in claims && claims[from] == Stands(index, other, before.value);
      assert more[from] == Stands(index, other, before.value);
    } else {
      assert forall from :: from in more && from != name ==> from in claims && more[from] == claims[from];
    }
  }

  lemma ResolvesStep(claims: Claims, name: string, at: int, kind: Kind, section: Section, p: Participant)
    requires name !in claims && Resolves(claims, p)
    ensures Resolves(claims[name := Stands(at, kind, section)], if p.index == at then p.With(kind, section) else p)
  {
    FromStep(claims, name, at, kind, section, p.index, Execution, p.execution);
    FromStep(claims, name, at, kind, section, p.index, Beacon, p.consensus);
    FromStep(claims, name, at, kind, section, p.index, Validator, p.validator);
  }

  lemma IndexedStep(claims: Claims, name: string, claim: Claim, index: int)
    requires name !in claims
    ensures Indexed(claims[name := claim], index) <==>
            Indexed(claims, index) || (claim.Stands? && claim.index == index)
  {
    var more := claims[name := claim];
    if Indexed(claims, index) {
      var from :| from in claims && claims[from].Stands? && claims[from].index == index;
      assert more[from] == claims[from];
    }
    if claim.Stands? && claim.index == index {
      assert more[name] == claim;
    }
  }

  lemma StandStep(claims: Claims, name: string, claim: Claim, byIndex: map<int, Participant>)
    requires Folded(claims, byIndex) && name !in claims && claim.Stands?
    ensures Folded(claims[name := claim],
                   byIndex[claim.index := Current(byIndex, claim.index).With(claim.kind, claim.section)])
  {
    var more := claims[name := claim];
    var after := byIndex[claim.index := Current(byIndex, claim.index).With(claim.kind, claim.section)];
    forall index
      ensures index in after <==> Indexed(more, index)
    {
      IndexedStep(claims, name, claim, index);
    }
    forall index | index in after
      ensures after[index].index == index && Resolves(more, after[index])
    {
      ResolvesStep(claims, name, claim.index, claim.kind, claim.section, Current(byIndex, index));
    }
  }

  lemma IgnoredFrom(claims: Claims, name: string, index: int, kind: Kind, section: Option<Section>)
    requires name !in claims && From(claims, index, kind, section)
    ensures From(claims[name := Ignored], index, kind, section)
  {
    var more := claims[name := Ignored];
    if section.Some? {
      var from :| from in claims && claims[from] == Stands(index, kind, section.value);
      assert more[from] == claims[from];
    } else {
      assert forall from :: from in more && from != name ==> from in claims && more[from] == claims[from];
    }
  }

  lemma IgnoredStep(claims: Claims, name: string, byIndex: map<int, Participant>)
    requires Folded(claims, byIndex) && name !in claims
    ensures Folded(claims[name := Ignored], byIndex)
  {
    var more := claims[name := Ignored];
    forall index
      ensures index in byIndex <==> Indexed(more, index)
    {
      IndexedStep(claims, name, Ignored, index);
    }
    forall index | index in byIndex
      ensures Resolves(more, byIndex[index])
    {
      IgnoredFrom(claims, name, index, Execution, byIndex[index].execution);
      IgnoredFrom(claims, name, index, Beacon, byIndex[index].consensus);
      IgnoredFrom(claims, name, index, Validator, byIndex[index].validator);
    }
  }

  lemma Inhabited(indices: set<int>)
    requires indices != {}
    ensures exists index :: index in indices
  {
    assert (forall index :: index !in indices) ==> indices == {};
  }

  /** The participants of the map, sorted by index. */
  method Sorted(byIndex: map<int, Participant>) returns (participants: seq<Participant>)
    requires forall index :: index in byIndex ==> byIndex[index].index == index
    ensures Ascending(participants, Before)
    ensures forall p :: p in participants <==> p.index in byIndex && byIndex[p.index] == p
  {
    var all := set index | index in byIndex :: byIndex[index];
    assert forall p :: p in all <==> p.index in byIndex && byIndex[p.index] == p;
    assert Orders(Before, all);
    participants := Sort(all, Before);
  }

  /** The claims of the services already folded in. */
  function Done(services: map<string, Service>, left: set<string>): Claims {
    map name | name in services && name !in left :: ClaimOf(name, services[name])
  }

  lemma AllComplete(claims: Claims, byIndex: map<int, Participant>)
    requires Folded(claims, byIndex) && byIndex.Keys != {}
    requires forall index :: index in byIndex ==> byIndex[index].Complete()
    ensures Resolvable(claims)
  {
    Inhabited(byIndex.Keys);
    var any :| any in byIndex.Keys;
    assert Indexed(claims, any);
    forall index | Indexed(claims, index)
      ensures Has(claims, index, Execution) && Has(claims, index, Beacon)
    {
      assert index in byIndex && Resolves(claims, byIndex[index]);
    }
  }

  /** What follows the fold: the endpoints every participant needs, and the sort. */
  method CheckAndSort(ghost claims: Claims, byIndex: map<int, Participant>) returns (r: Option<seq<Participant>>)
    requires Folded(claims, byIndex)
    ensures r.Some? <==> Resolvable(claims)
    ensures r.Some? ==> Describes(claims, r.value)
  {
    if byIndex.Keys == {} {
      return None;
    }
    var unchecked := byIndex.Keys;
    while unchecked != {}
      invariant unchecked <= byIndex.Keys
      invariant forall index :: index in byIndex && index !in unchecked ==> byIndex[index].Complete()
      decreases unchecked
    {
      Inhabited(unchecked);
      var index :| index in unchecked;
      unchecked := unchecked - {index};
      if !byIndex[index].Complete() {
        assert Indexed(claims, index) && Resolves(claims, byIndex[index]);
        return None;
      }
    }
    AllComplete(claims, byIndex);
    var participants := Sorted(byIndex);
    forall index
      ensures HasIndex(participants, index) <==> Indexed(claims, index)
    {
      if index in byIndex { assert byIndex[index] in participants; }
    }
    return Some(participants);
  }

  /** The fold, in any iteration order. Whether it succeeds does not depend on the
      order, and what it returns describes the services. */
  method ParticipantsFromServices(services: map<string, Service>) returns (r: Option<seq<Participant>>)
    ensures r.Some? <==> Resolvable(ClaimsOf(services))
    ensures r.Some? ==> Describes(ClaimsOf(services), r.value)
  {
    var byIndex: map<int, Participant> := map[];
    var left := services.Keys;
    while left != {}
      invariant left <= services.Keys
      invariant Folded(Done(services, left), byIndex)
      decreases left
    {
      var name :| name in left;
      ghost var before := Done(services, left);
      left := left - {name};
      assert Done(services, left) == before[name := ClaimOf(name, services[name])];
      match ClaimOf(name, services[name])
      case Ignored =>
        IgnoredStep(before, name, byIndex);
      case Rejected =>
        assert ClaimsOf(services)[name].Rejected?;
        return None;
      case Stands(index, kind, section) =>
        StandStep(before, name, Stands(index, kind, section), byIndex);
        byIndex := byIndex[index := Current(byIndex, index).With(kind, section)];
    }
    assert Done(services, left) == ClaimsOf(services);
    r := CheckAndSort(ClaimsOf(services), byIndex);
  }

  // ---- Confluence ----

  predicate SamePlace(a: Claim, b: Claim) {
    a.Stands? && b.Stands? && a.index == b.index && a.kind == b.kind
  }

  /** At most one service of each kind at each index. */
  ghost predicate OneServiceEach(claims: Claims) {
    forall a, b :: a in claims && b in claims && SamePlace(claims[a], claims[b]) ==> a == b
  }

  lemma SameSection(claims: Claims, index: int, kind: Kind, a: Option<Section>, b: Option<Section>)
    requires OneServiceEach(claims) && From(claims, index, kind, a) && From(claims, index, kind, b)
    ensures a == b
  {}

  lemma SameIndexSame(claims: Claims, p: Participant, q: Participant)
    requires OneServiceEach(claims) && Resolves(claims, p) && Resolves(claims, q) && p.index == q.index
    ensures p == q
  {
    SameSection(claims, p.index, Execution, p.execution, q.execution);
    SameSection(claims, p.index, Beacon, p.consensus, q.consensus);
    SameSection(claims, p.index, Validator, p.validator, q.validator);
  }

  lemma SamePlaceSame(claims: Claims, a: seq<Participant>, b: seq<Participant>, p: Participant)
    requires OneServiceEach(claims) && Describes(claims, a) && Describes(claims, b) && p in a
    ensures p in b
  {
    assert HasIndex(a, p.index);
    assert HasIndex(b, p.index);
    var q :| q in b && q.index == p.index;
    SameIndexSame(claims, p, q);
  }

  /** With one service of each kind at each index, any two orders give the same
      participants. */
  lemma FoldIsConfluent(claims: Claims, a: seq<Participant>, b: seq<Participant>)
    requires OneServiceEach(claims) && Describes(claims, a) && Describes(claims, b)
    ensures a == b
  {
    forall p
      ensures p in a <==> p in b
    {
      if p in a { SamePlaceSame(claims, a, b, p); }
      if p in b { SamePlaceSame(claims, b, a, p); }
    }
    var all := set p | p in a;
    forall p, q | p in all && q in all && p.index == q.index
      ensures p == q
    {
      SameIndexSame(claims, p, q);
    }
    SameAscending(a, b, all, Before);
  }

  /** A numbered client with its endpoints: what the suites rely on. */
  predicate Usable(p: Participant) {
    && p.index >= 1
    && p.execution.Some? && p.execution.value.ExecutionService?
    && p.execution.value.rpcURL != "" && p.execution.value.webSocketURL != ""
    && p.consensus.Some? && p.consensus.value.ConsensusService? && p.consensus.value.url != ""
  }

  lemma ClaimIsUsable(name: string, service: Service)
    ensures match ClaimOf(name, service)
            case Stands(index, Execution, s) =>
              index >= 1 && s.ExecutionService? && s.rpcURL != "" && s.webSocketURL != ""
            case Stands(index, Beacon, s) => index >= 1 && s.ConsensusService? && s.url != ""
            case Stands(index, Validator, s) => index >= 1 && s.ValidatorService?
            case _ => true
  {}

  lemma ResolvedIsUsable(services: map<string, Service>, p: Participant)
    requires Resolves(ClaimsOf(services), p) && p.Complete()
    ensures Usable(p)
  {
    var claims := ClaimsOf(services);
    var el :| el in claims && claims[el] == Stands(p.index, Execution, p.execution.value);
    var cl :| cl in claims && claims[cl] == Stands(p.index, Beacon, p.consensus.value);
    ClaimIsUsable(el, services[el]);
    ClaimIsUsable(cl, services[cl]);
  }

  /** Every participant the code returns has an index of at least 1 and the endpoints
      its clients must publish. */
  lemma DescribedAreUsable(services: map<string, Service>, participants: seq<Participant>)
    requires Describes(ClaimsOf(services), participants)
    ensures forall p :: p in participants ==> Usable(p)
  {
    forall p | p in participants
      ensures Usable(p)
    {
      ResolvedIsUsable(services, p);
    }
  }
}
