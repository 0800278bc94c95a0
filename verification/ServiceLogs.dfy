/** Streaming service logs (devnet/internal/kurtosis/diagnostics.go): consuming a
    stream whose responses hold maps, in whatever order Go iterates over them, and
    merging the services an enclave has and had. */
module ServiceLogs {
  import opened Seqs
  import opened Sorting
  import opened Wrappers

  /** One response: the services it says it did not find, and lines by service. A
      service with an entry but no lines counts as found. */
  datatype Response = Response(notFound: set<string>, logs: map<string, seq<string>>)

  /** How the stream ends. */
  datatype End = Eof | Broken

  datatype Delivery = Delivery(uuid: string, lines: seq<string>)

  // ---- What the stream says of one service ----

  /** The batches of lines the responses hold for a service, in stream order. */
  function BatchesIn(responses: seq<Response>, uuid: string): seq<seq<string>> {
    if |responses| == 0 then []
    else
      var last := responses[|responses| - 1];
      BatchesIn(responses[..|responses| - 1], uuid) + (if uuid in last.logs then [last.logs[uuid]] else [])
  }

  function BatchesDelivered(delivered: seq<Delivery>, uuid: string): seq<seq<string>> {
    if |delivered| == 0 then []
    else
      var last := delivered[|delivered| - 1];
      BatchesDelivered(delivered[..|delivered| - 1], uuid) + (if last.uuid == uuid then [last.lines] else [])
  }

  /** After these responses the service stands as not found. */
  predicate Missing(responses: seq<Response>, uuid: string) {
    if |responses| == 0 then false
    else
      var last := responses[|responses| - 1];
      uuid !in last.logs && (uuid in last.notFound || Missing(responses[..|responses| - 1], uuid))
  }

  predicate NoEntryFrom(responses: seq<Response>, uuid: string, k: nat) {
    forall j :: k <= j < |responses| ==> uuid !in responses[j].logs
  }

  /** The service's last mention is a response that does not find it and has no entry
      for it. */
  predicate LastMentionNotFound(responses: seq<Response>, uuid: string) {
    exists k :: 0 <= k < |responses| && uuid in responses[k].notFound && NoEntryFrom(responses, uuid, k)
  }

  lemma {:induction false} MissingIff(responses: seq<Response>, uuid: string)
    ensures Missing(responses, uuid) <==> LastMentionNotFound(responses, uuid)
  {
    if |responses| > 0 {
      var front, last := responses[..|responses| - 1], |responses| - 1;
      MissingIff(front, uuid);
      if LastMentionNotFound(responses, uuid) && uuid !in responses[last].notFound {
        var k :| 0 <= k < |responses| && uuid in responses[k].notFound && NoEntryFrom(responses, uuid, k);
        assert k < |front| && uuid in front[k].notFound && NoEntryFrom(front, uuid, k);
      }
      if Missing(responses, uuid) {
        if uuid in responses[last].notFound {
          assert NoEntryFrom(responses, uuid, last);
        } else {
          var k :| 0 <= k < |front| && uuid in front[k].notFound && NoEntryFrom(front, uuid, k);
          assert uuid in responses[k].notFound && NoEntryFrom(responses, uuid, k);
        }
      }
    }
  }

  // ---- The code ----

  /** The services of one response that were not found, in any order. */
  method MarkNotFound(response: Response, requested: set<string>, notFound: set<string>) returns (marked: set<string>)
    ensures marked == notFound + (response.notFound * requested)
  {
    marked := notFound;
    var left := response.notFound;
    while left != {}
      invariant left <= response.notFound
      invariant marked == notFound + ((response.notFound - left) * requested)
      decreases left
    {
      var uuid :| uuid in left;
      left := left - {uuid};
      if uuid in requested { marked := marked + {uuid}; }
    }
  }

  /** The batch a response holds for a service, if it is one of these. */
  function Entry(response: Response, uuids: set<string>, uuid: string): seq<seq<string>> {
    if uuid in response.logs && uuid in uuids then [response.logs[uuid]] else []
  }

  /** The entries of one response, in any order. */
  method DeliverEntries(response: Response, requested: set<string>, notFound: set<string>, consuming: bool,
                        delivered: seq<Delivery>)
    returns (stillMissing: set<string>, all: seq<Delivery>)
    ensures stillMissing == notFound - (response.logs.Keys * requested)
    ensures !consuming ==> all == delivered
    ensures consuming ==> forall uuid ::
      BatchesDelivered(all, uuid) == BatchesDelivered(delivered, uuid) + Entry(response, requested, uuid)
  {
    stillMissing, all := notFound, delivered;
    var left := response.logs.Keys;
    while left != {}
      invariant left <= response.logs.Keys
      invariant stillMissing == notFound - ((response.logs.Keys - left) * requested)
      invariant !consuming ==> all == delivered
      invariant consuming ==> forall uuid ::
        BatchesDelivered(all, uuid) == BatchesDelivered(delivered, uuid) + Entry(response, requested - left, uuid)
      decreases left
    {
      var uuid :| uuid in left;
      left := left - {uuid};
      if uuid !in requested { continue; }
      stillMissing := stillMissing - {uuid};
      if consuming {
        ghost var before := all;
        all := all + [Delivery(uuid, response.logs[uuid])];
        assert all[..|all| - 1] == before;
      }
    }
  }

  /** Whatever the iteration order: at a clean end of the stream, exactly the requested
      services whose last mention is not-found are missing, and each requested
      service's batches were delivered in stream order; a broken stream reports no
      missing services. */
  method ReceiveServiceLogs(responses: seq<Response>, end: End, requested: set<string>, consuming: bool)
    returns (missing: Option<set<string>>, delivered: seq<Delivery>)
    ensures missing.Some? <==> end == Eof
    ensures missing.Some? ==> forall uuid ::
      uuid in missing.value <==> uuid in requested && LastMentionNotFound(responses, uuid)
    ensures consuming ==> forall uuid ::
      BatchesDelivered(delivered, uuid) == if uuid in requested then BatchesIn(responses, uuid) else []
    ensures !consuming ==> delivered == []
  {
    var notFound: set<string> := {};
    delivered := [];
    for k := 0 to |responses|
      invariant forall uuid :: uuid in notFound <==> uuid in requested && Missing(responses[..k], uuid)
      invariant consuming ==> forall uuid ::
        BatchesDelivered(delivered, uuid) == if uuid in requested then BatchesIn(responses[..k], uuid) else []
      invariant !consuming ==> delivered == []
    {
      NextPrefix(responses, k);
      notFound := MarkNotFound(responses[k], requested, notFound);
      notFound, delivered := DeliverEntries(responses[k], requested, notFound, consuming, delivered);
    }
    assert responses[..|responses|] == responses;
    if end == Broken { return None, delivered; }
    forall uuid
      ensures Missing(responses, uuid) <==> LastMentionNotFound(responses, uuid)
    {
      MissingIff(responses, uuid);
    }
    return Some(notFound), delivered;
  }

  /** `serviceLogs`: without services there is nothing to ask, and no stream. */
  method ServiceLogs(uuids: seq<string>, started: bool, responses: seq<Response>, end: End, consuming: bool)
    returns (missing: Option<set<string>>, delivered: seq<Delivery>)
    ensures missing.Some? <==> uuids == [] || (started && end == Eof)
    ensures missing.Some? ==> forall uuid ::
      uuid in missing.value <==> uuid in uuids && LastMentionNotFound(responses, uuid)
    ensures started && consuming ==> forall uuid ::
      BatchesDelivered(delivered, uuid) == if uuid in uuids then BatchesIn(responses, uuid) else []
    ensures !started || !consuming ==> delivered == []
  {
    var requested: set<string> := {};
    for k := 0 to |uuids|
      invariant forall uuid :: uuid in requested <==> uuid in uuids[..k]
    {
      NextPrefix(uuids, k);
      requested := requested + {uuids[k]};
    }
    assert uuids[..|uuids|] == uuids;
    assert |uuids| > 0 ==> uuids[0] in requested;
    if requested == {} {
      return Some({}), [];
    }
    if !started { return None, []; }
    missing, delivered := ReceiveServiceLogs(responses, end, requested, consuming);
  }

  // ---- Service identities ----

  datatype Identity = Identity(name: string, uuid: string, status: string, ports: seq<string>)

  /** A service the enclave has, or the name and UUID of one it has or had. */
  datatype Identifier = Identifier(name: string, uuid: string)

  /** The last identifier of a UUID. */
  function LastIdentifier(identifiers: seq<Identifier>, uuid: string): Option<Identifier> {
    if |identifiers| == 0 then None
    else if identifiers[|identifiers| - 1].uuid == uuid then Some(identifiers[|identifiers| - 1])
    else LastIdentifier(identifiers[..|identifiers| - 1], uuid)
  }

  function UnmatchedStatus(currentComplete: bool): string {
    if currentComplete then "HISTORICAL" else "UNKNOWN"
  }

  function Unmatched(identifier: Identifier, currentComplete: bool): Identity {
    Identity(identifier.name, identifier.uuid, UnmatchedStatus(currentComplete), ["<unknown>"])
  }

  predicate IsCurrent(current: map<string, Identity>, uuid: string, identity: Identity) {
    exists key :: key in current && current[key] == identity && identity.uuid == uuid
  }

  predicate HasCurrent(current: map<string, Identity>, uuid: string) {
    exists key :: key in current && current[key].uuid == uuid
  }

  /** What the merged identity of a UUID may be: a current service's if there is one,
      or else its last identifier, with the status that completeness allows. */
  predicate MayBe(identifiers: seq<Identifier>, current: map<string, Identity>, currentComplete: bool,
                  uuid: string, merged: Option<Identity>) {
    if HasCurrent(current, uuid) then merged.Some? && IsCurrent(current, uuid, merged.value)
    else match LastIdentifier(identifiers, uuid)
         case None => merged == None
         case Some(identifier) => merged == Some(Unmatched(identifier, currentComplete))
  }

  lemma AddIdentifier(identifiers: seq<Identifier>, k: nat, currentComplete: bool, uuid: string, merged: Option<Identity>)
    requires k < |identifiers| && MayBe(identifiers[..k], map[], currentComplete, uuid, merged)
    ensures MayBe(identifiers[..k + 1], map[], currentComplete, uuid,
                  if uuid == identifiers[k].uuid then Some(Unmatched(identifiers[k], currentComplete)) else merged)
  {
    NextPrefix(identifiers, k);
    assert !HasCurrent(map[], uuid);
  }

  lemma AddCurrent(identifiers: seq<Identifier>, seen: map<string, Identity>, key: string, identity: Identity,
                   currentComplete: bool, uuid: string, merged: Option<Identity>)
    requires key !in seen && MayBe(identifiers, seen, currentComplete, uuid, merged)
    ensures MayBe(identifiers, seen[key := identity], currentComplete, uuid,
                  if uuid == identity.uuid then Some(identity) else merged)
  {
    var more := seen[key := identity];
    if uuid == identity.uuid {
      assert more[key] == identity;
    } else {
      assert HasCurrent(more, uuid) <==> HasCurrent(seen, uuid) by {
        if HasCurrent(seen, uuid) {
          var other :| other in seen && seen[other].uuid == uuid;
          assert more[other].uuid == uuid;
        }
      }
      if HasCurrent(seen, uuid) {
        var other :| other in seen && seen[other] == merged.value && merged.value.uuid == uuid;
        assert more[other] == merged.value;
      }
    }
  }

  function Lookup(byUuid: map<string, Identity>, uuid: string): Option<Identity> {
    if uuid in byUuid then Some(byUuid[uuid]) else None
  }

  /** Go's `cmp.Compare` of strings, by their characters. */
  predicate Precedes(a: string, b: string) {
    if |b| == 0 then false
    else if |a| == 0 then true
    else if a[0] != b[0] then a[0] < b[0]
    else Precedes(a[1..], b[1..])
  }

  lemma {:induction false} PrecedesOrders(a: string, b: string)
    ensures !(Precedes(a, b) && Precedes(b, a))
    ensures a == b || Precedes(a, b) || Precedes(b, a)
    decreases |a|
  {
    if |a| > 0 && |b| > 0 && a[0] == b[0] {
      PrecedesOrders(a[1..], b[1..]);
      assert a == [a[0]] + a[1..] && b == [b[0]] + b[1..];
    }
  }

  lemma {:induction false} PrecedesChains(a: string, b: string, c: string)
    requires Precedes(a, b) && Precedes(b, c)
    ensures Precedes(a, c)
    decreases |a|
  {
    if |a| > 0 && a[0] == b[0] == c[0] {
      PrecedesChains(a[1..], b[1..], c[1..]);
    }
  }

  /** By name, and by UUID where names are the same. */
  predicate ByNameThenUuid(a: Identity, b: Identity) {
    Precedes(a.name, b.name) || (a.name == b.name && Precedes(a.uuid, b.uuid))
  }

  lemma IdentitiesOrder(identities: set<Identity>)
    requires forall a, b :: a in identities && b in identities && a.uuid == b.uuid ==> a == b
    ensures Orders(ByNameThenUuid, identities)
  {
    forall a, b
      ensures !(ByNameThenUuid(a, b) && ByNameThenUuid(b, a))
      ensures a.uuid == b.uuid || ByNameThenUuid(a, b) || ByNameThenUuid(b, a)
    {
      PrecedesOrders(a.name, b.name);
      PrecedesOrders(a.uuid, b.uuid);
      PrecedesOrders(a.name, a.name);
    }
    forall a, b, c | ByNameThenUuid(a, b) && ByNameThenUuid(b, c)
      ensures ByNameThenUuid(a, c)
    {
      if Precedes(a.name, b.name) && Precedes(b.name, c.name) { PrecedesChains(a.name, b.name, c.name); }
      if Precedes(a.uuid, b.uuid) && Precedes(b.uuid, c.uuid) { PrecedesChains(a.uuid, b.uuid, c.uuid); }
    }
  }

  /** The merged identities: each UUID's, in ascending order. */
  ghost predicate Merges(identifiers: seq<Identifier>, current: map<string, Identity>, currentComplete: bool,
                         byUuid: map<string, Identity>, list: seq<Identity>) {
    && (forall uuid :: MayBe(identifiers, current, currentComplete, uuid, Lookup(byUuid, uuid)))
    && Ascending(list, ByNameThenUuid)
    && (forall identity :: identity in list <==> identity in byUuid.Values)
  }

  lemma {:induction false} LastHasUuid(identifiers: seq<Identifier>, uuid: string)
    ensures LastIdentifier(identifiers, uuid).Some? ==> LastIdentifier(identifiers, uuid).value.uuid == uuid
  {
    if |identifiers| > 0 {
      LastHasUuid(identifiers[..|identifiers| - 1], uuid);
    }
  }

  lemma OwnUuid(identifiers: seq<Identifier>, current: map<string, Identity>, currentComplete: bool, uuid: string,
                merged: Option<Identity>)
    requires MayBe(identifiers, current, currentComplete, uuid, merged) && merged.Some?
    ensures merged.value.uuid == uuid
  {
    LastHasUuid(identifiers, uuid);
  }

  lemma ValuesOrder(identifiers: seq<Identifier>, current: map<string, Identity>, currentComplete: bool,
                    byUuid: map<string, Identity>)
    requires forall uuid :: MayBe(identifiers, current, currentComplete, uuid, Lookup(byUuid, uuid))
    ensures Orders(ByNameThenUuid, byUuid.Values)
  {
    forall uuid | uuid in byUuid
      ensures byUuid[uuid].uuid == uuid
    {
      OwnUuid(identifiers, current, currentComplete, uuid, Lookup(byUuid, uuid));
    }
    IdentitiesOrder(byUuid.Values);
  }

  /** What `mergeServiceIdentities` sorts. */
  method MergeIdentities(identifiers: seq<Identifier>, current: map<string, Identity>, currentComplete: bool)
    returns (byUuid: map<string, Identity>)
    ensures forall uuid :: MayBe(identifiers, current, currentComplete, uuid, Lookup(byUuid, uuid))
  {
    byUuid := map[];
    for k := 0 to |identifiers|
      invariant forall uuid :: MayBe(identifiers[..k], map[], currentComplete, uuid, Lookup(byUuid, uuid))
    {
      var next := byUuid[identifiers[k].uuid := Unmatched(identifiers[k], currentComplete)];
      forall uuid
        ensures MayBe(identifiers[..k + 1], map[], currentComplete, uuid, Lookup(next, uuid))
      {
        AddIdentifier(identifiers, k, currentComplete, uuid, Lookup(byUuid, uuid));
      }
      byUuid := next;
    }
    assert identifiers[..|identifiers|] == identifiers;
    var left := current.Keys;
    ghost var seen: map<string, Identity> := map[];
    while left != {}
      invariant left <= current.Keys && seen == map key | key in current.Keys - left :: current[key]
      invariant forall uuid :: MayBe(identifiers, seen, currentComplete, uuid, Lookup(byUuid, uuid))
      decreases left
    {
      var key :| key in left;
      var identity := current[key];
      var next := byUuid[identity.uuid := identity];
      forall uuid
        ensures MayBe(identifiers, seen[key := identity], currentComplete, uuid, Lookup(next, uuid))
      {
        AddCurrent(identifiers, seen, key, identity, currentComplete, uuid, Lookup(byUuid, uuid));
      }
      left := left - {key};
      seen := seen[key := identity];
      byUuid := next;
    }
    assert seen == current;
  }

  /** `mergeServiceIdentities` */
  method MergeServiceIdentities(identifiers: seq<Identifier>, current: map<string, Identity>, currentComplete: bool)
    returns (list: seq<Identity>, ghost byUuid: map<string, Identity>)
    ensures Merges(identifiers, current, currentComplete, byUuid, list)
  {
    var merged := MergeIdentities(identifiers, current, currentComplete);
    byUuid := merged;
    ValuesOrder(identifiers, current, currentComplete, merged);
    list := Sort(merged.Values, ByNameThenUuid);
  }

  /** With one current service a UUID, the merge does not depend on the order. */
  lemma MergeIsConfluent(identifiers: seq<Identifier>, current: map<string, Identity>, currentComplete: bool,
                         a: map<string, Identity>, b: map<string, Identity>)
    requires forall x, y :: x in current && y in current && current[x].uuid == current[y].uuid ==> x == y
    requires forall uuid :: MayBe(identifiers, current, currentComplete, uuid, Lookup(a, uuid))
    requires forall uuid :: MayBe(identifiers, current, currentComplete, uuid, Lookup(b, uuid))
    ensures a == b
  {
    forall uuid
      ensures Lookup(a, uuid) == Lookup(b, uuid)
    {
      assert MayBe(identifiers, current, currentComplete, uuid, Lookup(a, uuid));
    }
    forall uuid | uuid in a
      ensures uuid in b && a[uuid] == b[uuid]
    {
      assert Lookup(a, uuid) == Lookup(b, uuid);
    }
    forall uuid | uuid in b
      ensures uuid in a
    {
      assert Lookup(a, uuid) == Lookup(b, uuid);
    }
  }

  /** And then neither does the list that is returned. */
  lemma MergedListIsConfluent(identifiers: seq<Identifier>, current: map<string, Identity>, currentComplete: bool,
                              byUuidA: map<string, Identity>, a: seq<Identity>,
                              byUuidB: map<string, Identity>, b: seq<Identity>)
    requires forall x, y :: x in current && y in current && current[x].uuid == current[y].uuid ==> x == y
    requires Merges(identifiers, current, currentComplete, byUuidA, a)
    requires Merges(identifiers, current, currentComplete, byUuidB, b)
    ensures a == b
  {
    MergeIsConfluent(identifiers, current, currentComplete, byUuidA, byUuidB);
    ValuesOrder(identifiers, current, currentComplete, byUuidA);
    SameAscending(a, b, byUuidA.Values, ByNameThenUuid);
  }
}
