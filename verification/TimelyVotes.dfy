/** Whether a validator's source and head votes of an epoch were timely: the scan
    of a few blocks after the duty (`TimelyVotes`), against the participation flags
    that `process_attestation` and `get_attestation_participation_flag_indices` of
    the Altair specification accumulate over every block of the chain. */
module TimelyVotes {
  import opened Bytes
  import opened MachineInts
  import opened Wrappers
  import Bitlist

  datatype AttestationData = AttestationData(slot: uint64, committeeIndex: uint64, headRoot: Root, targetRoot: Root)

  /** An attestation in a block: a vote, and which committee members cast it. */
  datatype Attestation = Attestation(data: AttestationData, members: seq<bool>)

  datatype Block = Block(root: Root, attestations: seq<Attestation>)

  /** The canonical chain: the block of each slot, if it has one. */
  type Chain = seq<Option<Block>>

  datatype Committee = Committee(index: uint64, slot: uint64, validators: seq<uint64>)

  datatype Votes = Votes(source: bool, head: bool)

  const NONE := Votes(false, false)

  function Or(a: Votes, b: Votes): Votes {
    Votes(a.source || b.source, a.head || b.head)
  }

  function BlockAt(chain: Chain, slot: nat): Option<Block> {
    if slot < |chain| then chain[slot] else None
  }

  // ---- The specification ----

  /** `get_block_root_at_slot`: the root of the latest block not after slot. */
  function RootAt(chain: Chain, slot: nat): Option<Root> {
    match BlockAt(chain, slot)
    case Some(block) => Some(block.root)
    case None => if slot == 0 then None else RootAt(chain, slot - 1)
  }

  predicate Seat(committees: seq<Committee>, index: uint64, i: int, seat: int) {
    0 <= i < |committees| && 0 <= seat < |committees[i].validators| && committees[i].validators[seat] == index
  }

  /** `get_attesting_indices`: some seat of the attestation's committee is the
      validator's and its bit is set. */
  ghost predicate Attests(committees: seq<Committee>, a: Attestation, index: uint64) {
    exists i, seat :: Seat(committees, index, i, seat)
      && committees[i].slot == a.data.slot && committees[i].index == a.data.committeeIndex
      && seat < |a.members| && a.members[seat]
  }

  /** What the flags of an epoch's attestations are judged by. */
  datatype Rules = Rules(chain: Chain, committees: seq<Committee>, epochStart: uint64, sourceWindow: nat, minDelay: uint64)

  /** The flags that including `a` in the block at slot t sets for the validator. A
      head vote counts only with the right target. */
  ghost function AttestationFlags(rules: Rules, index: uint64, a: Attestation, t: nat): Votes {
    if Attests(rules.committees, a, index) && a.data.slot <= t then
      Votes(t - a.data.slot <= rules.sourceWindow,
            && t - a.data.slot == rules.minDelay
            && RootAt(rules.chain, a.data.slot) == Some(a.data.headRoot)
            && RootAt(rules.chain, rules.epochStart) == Some(a.data.targetRoot))
    else NONE
  }

  ghost function BlockFlags(rules: Rules, index: uint64, attestations: seq<Attestation>, t: nat): Votes {
    if |attestations| == 0 then NONE
    else Or(BlockFlags(rules, index, attestations[..|attestations| - 1], t),
            AttestationFlags(rules, index, attestations[|attestations| - 1], t))
  }

  ghost function SlotFlags(rules: Rules, index: uint64, t: nat): Votes {
    match BlockAt(rules.chain, t)
    case None => NONE
    case Some(block) => BlockFlags(rules, index, block.attestations, t)
  }

  /** The flags accumulated over the blocks of the slots first..end. */
  ghost function FlagsIn(rules: Rules, index: uint64, first: nat, end: nat): Votes
    decreases end
  {
    if end <= first then NONE else Or(FlagsIn(rules, index, first, end - 1), SlotFlags(rules, index, end - 1))
  }

  /** Accumulated over the whole chain. */
  ghost function Participation(rules: Rules, index: uint64): Votes {
    FlagsIn(rules, index, 0, |rules.chain|)
  }

  /** Slots are uint64s, and `process_attestation` refuses an attestation included too
      early. */
  predicate ValidChain(chain: Chain, minDelay: uint64) {
    && |chain| <= TWO64
    && forall t, k :: 0 <= t < |chain| && chain[t].Some? && 0 <= k < |chain[t].value.attestations| ==>
      chain[t].value.attestations[k].data.slot + minDelay <= t
  }

  /** The committees of an epoch: each validator has one seat, and no two committees
      share slot and index. */
  ghost predicate Partition(committees: seq<Committee>) {
    && (forall index, i, seat, j, other :: Seat(committees, index, i, seat) && Seat(committees, index, j, other) ==>
          i == j && seat == other)
    && (forall i, j :: 0 <= i < j < |committees| ==>
          committees[i].slot != committees[j].slot || committees[i].index != committees[j].index)
  }

  // ---- What the node serves ----

  /** An attestation as the API gives it, its bits an SSZ bitlist. */
  datatype WireAttestation = WireAttestation(data: AttestationData, aggregationBits: seq<byte>)

  function Wire(a: Attestation): WireAttestation {
    WireAttestation(a.data, Bitlist.Encode(a.members))
  }

  datatype Node = Node(
    committees: Read<seq<Committee>>,
    header: uint64 -> Read<Root>,
    operations: uint64 -> Read<seq<WireAttestation>>)

  predicate Serves(served: seq<WireAttestation>, attestations: seq<Attestation>) {
    |served| == |attestations| && forall k :: 0 <= k < |served| ==> served[k] == Wire(attestations[k])
  }

  /** Any read may fail, but one that succeeds tells the truth. */
  ghost predicate Honest(node: Node, chain: Chain, committees: seq<Committee>) {
    && (node.committees.Found? ==> node.committees.value == committees)
    && (forall slot: uint64 {:trigger node.header(slot)} ::
          match node.header(slot)
          case Failed => true
          case NotFound => BlockAt(chain, slot) == None
          case Found(root) => BlockAt(chain, slot).Some? && BlockAt(chain, slot).value.root == root)
    && (forall slot: uint64 {:trigger node.operations(slot)} ::
          match node.operations(slot)
          case Failed => true
          case NotFound => BlockAt(chain, slot) == None
          case Found(served) =>
            BlockAt(chain, slot).Some? && Serves(served, BlockAt(chain, slot).value.attestations))
  }

  // ---- The code ----

  /** The walk back over empty slots ends at a block before a read fails. */
  predicate RootReadable(node: Node, slot: uint64) {
    node.header(slot).Found? || (node.header(slot).NotFound? && slot > 0 && RootReadable(node, slot - 1))
  }

  method RootAtOrBefore(node: Node, from: uint64, ghost chain: Chain, ghost committees: seq<Committee>)
    returns (r: Option<Root>)
    requires Honest(node, chain, committees)
    ensures r.Some? <==> RootReadable(node, from)
    ensures r.Some? ==> r == RootAt(chain, from)
  {
    var slot: uint64 := from;
    while true
      invariant slot <= from
      invariant RootReadable(node, slot) <==> RootReadable(node, from)
      invariant RootAt(chain, slot) == RootAt(chain, from)
      decreases slot
    {
      var header := node.header(slot);
      if header.Found? { return Some(header.value); }
      if !header.NotFound? || slot == 0 { return None; }
      slot := slot - 1;
    }
  }

  /** RootAt names the latest block: none lies between it and the slot. */
  lemma {:induction false} RootAtIsLatest(chain: Chain, slot: nat)
    ensures RootAt(chain, slot).None? ==> forall s: nat :: s <= slot ==> BlockAt(chain, s).None?
    ensures RootAt(chain, slot).Some? ==>
      exists s: nat :: s <= slot && BlockAt(chain, s).Some? && RootAt(chain, slot) == Some(BlockAt(chain, s).value.root)
        && forall later: nat :: s < later <= slot ==> BlockAt(chain, later).None?
  {
    if BlockAt(chain, slot).None? && slot > 0 {
      RootAtIsLatest(chain, slot - 1);
    }
  }

  datatype Duty = Duty(slot: uint64, committee: uint64, position: nat)

  ghost predicate IsDuty(committees: seq<Committee>, index: uint64, duty: Duty) {
    exists i :: Seat(committees, index, i, duty.position)
      && committees[i].slot == duty.slot && committees[i].index == duty.committee
  }

  /** The first seat the validator has, if it has one. */
  method FindDuty(committees: seq<Committee>, index: uint64) returns (duty: Option<Duty>)
    ensures duty.None? ==> forall i, seat :: !Seat(committees, index, i, seat)
    ensures duty.Some? ==> IsDuty(committees, index, duty.value)
  {
    for i := 0 to |committees|
      invariant forall j, seat :: 0 <= j < i ==> !Seat(committees, index, j, seat)
    {
      var candidate := committees[i];
      for member := 0 to |candidate.validators|
        invariant forall seat :: 0 <= seat < member ==> !Seat(committees, index, i, seat)
      {
        if candidate.validators[member] == index {
          assert Seat(committees, index, i, member);
          return Some(Duty(candidate.slot, candidate.index, member));
        }
      }
    }
    return None;
  }

  /** The code's test by slot, committee and bit is membership among the attesters. */
  lemma DutyDecides(committees: seq<Committee>, index: uint64, duty: Duty, a: Attestation)
    requires Partition(committees) && IsDuty(committees, index, duty)
    ensures Attests(committees, a, index) <==>
      a.data.slot == duty.slot && a.data.committeeIndex == duty.committee
      && Bitlist.Includes(Wire(a).aggregationBits, duty.position)
  {
    Bitlist.DecodesEncoding(a.members);
  }

  predicate WindowReadable(node: Node, duty: Duty, rules: Rules) {
    forall t: nat :: duty.slot + rules.minDelay <= t <= duty.slot + rules.sourceWindow ==> !node.operations(Wrap(t)).Failed?
  }

  ghost predicate ReadsSucceed(node: Node, duty: Duty, rules: Rules) {
    && RootReadable(node, duty.slot)
    && RootReadable(node, rules.epochStart)
    && WindowReadable(node, duty, rules)
  }

  method BlockVotes(duty: Duty, headRoot: Root, targetRoot: Root, minDelay: uint64, delay: nat,
                    served: seq<WireAttestation>,
                    ghost rules: Rules, ghost index: uint64, ghost attestations: seq<Attestation>)
    returns (votes: Votes)
    requires minDelay == rules.minDelay
    requires Partition(rules.committees) && IsDuty(rules.committees, index, duty)
    requires Serves(served, attestations) && delay <= rules.sourceWindow
    requires RootAt(rules.chain, duty.slot) == Some(headRoot)
    requires RootAt(rules.chain, rules.epochStart) == Some(targetRoot)
    ensures votes == BlockFlags(rules, index, attestations, duty.slot + delay)
  {
    votes := NONE;
    for k := 0 to |served|
      invariant votes == BlockFlags(rules, index, attestations[..k], duty.slot + delay)
    {
      assert attestations[..k + 1][..k] == attestations[..k];
      DutyDecides(rules.committees, index, duty, attestations[k]);
      var attestation := served[k];
      var data := attestation.data;
      if data.slot != duty.slot || data.committeeIndex != duty.committee
         || !Bitlist.Includes(attestation.aggregationBits, duty.position) {
        continue;
      }
      votes := Votes(true, votes.head);
      if delay == minDelay && data.headRoot == headRoot && data.targetRoot == targetRoot {
        votes := Votes(true, true);
      }
    }
    assert attestations[..|served|] == attestations;
  }

  lemma {:induction false} NotOfSlot(rules: Rules, index: uint64, duty: Duty, attestations: seq<Attestation>, t: nat)
    requires Partition(rules.committees) && IsDuty(rules.committees, index, duty)
    requires forall k :: 0 <= k < |attestations| ==> attestations[k].data.slot < duty.slot
    ensures BlockFlags(rules, index, attestations, t) == NONE
  {
    if |attestations| > 0 {
      var last := |attestations| - 1;
      NotOfSlot(rules, index, duty, attestations[..last], t);
      DutyDecides(rules.committees, index, duty, attestations[last]);
    }
  }

  /** Where slot plus delay wraps, the block read instead is of a slot before the duty,
      and holds none of its votes; nor is there a block where it should have been. */
  lemma WrappedSlotIsQuiet(rules: Rules, index: uint64, duty: Duty, delay: uint64)
    requires ValidChain(rules.chain, rules.minDelay)
    requires Partition(rules.committees) && IsDuty(rules.committees, index, duty)
    ensures SlotFlags(rules, index, duty.slot + delay) ==
      match BlockAt(rules.chain, Wrap(duty.slot + delay))
      case None => NONE
      case Some(block) => BlockFlags(rules, index, block.attestations, duty.slot + delay)
  {
    var t, slot := duty.slot + delay, Wrap(duty.slot + delay);
    if t < TWO64 {
      WrapFits(t);
    } else if BlockAt(rules.chain, slot).Some? {
      assert slot == t - TWO64;
      NotOfSlot(rules, index, duty, BlockAt(rules.chain, slot).value.attestations, t);
    }
  }

  lemma OneDuty(committees: seq<Committee>, index: uint64, duty: Duty)
    requires Partition(committees) && IsDuty(committees, index, duty)
    ensures forall other :: IsDuty(committees, index, other) ==> other == duty
  {}

  lemma {:induction false} FlagsSplit(rules: Rules, index: uint64, a: nat, b: nat, c: nat)
    requires a <= b <= c
    ensures FlagsIn(rules, index, a, c) == Or(FlagsIn(rules, index, a, b), FlagsIn(rules, index, b, c))
    decreases c
  {
    if b < c {
      FlagsSplit(rules, index, a, b, c - 1);
    }
  }

  lemma {:induction false} NoFlagsIn(rules: Rules, index: uint64, first: nat, end: nat)
    requires forall t :: first <= t < end ==> SlotFlags(rules, index, t) == NONE
    ensures FlagsIn(rules, index, first, end) == NONE
    decreases end
  {
    if first < end {
      NoFlagsIn(rules, index, first, end - 1);
    }
  }

  lemma {:induction false} NoSourceIn(rules: Rules, index: uint64, first: nat, end: nat)
    requires forall t :: first <= t < end ==> !SlotFlags(rules, index, t).source
    ensures !FlagsIn(rules, index, first, end).source
    decreases end
  {
    if first < end {
      NoSourceIn(rules, index, first, end - 1);
    }
  }

  /** A block outside the window sets no flag, and one past the source window no
      source flag. */
  lemma {:induction false} QuietBlock(rules: Rules, index: uint64, duty: Duty, attestations: seq<Attestation>, t: nat)
    requires Partition(rules.committees) && IsDuty(rules.committees, index, duty)
    requires forall k :: 0 <= k < |attestations| ==> attestations[k].data.slot + rules.minDelay <= t
    ensures t < duty.slot + rules.minDelay ==> BlockFlags(rules, index, attestations, t) == NONE
    ensures t > duty.slot + rules.sourceWindow && rules.minDelay <= rules.sourceWindow ==>
              BlockFlags(rules, index, attestations, t) == NONE
    ensures rules.minDelay > rules.sourceWindow ==> !BlockFlags(rules, index, attestations, t).source
  {
    if |attestations| > 0 {
      var last := |attestations| - 1;
      QuietBlock(rules, index, duty, attestations[..last], t);
      DutyDecides(rules.committees, index, duty, attestations[last]);
    }
  }

  lemma QuietSlot(rules: Rules, index: uint64, duty: Duty, t: nat)
    requires ValidChain(rules.chain, rules.minDelay)
    requires Partition(rules.committees) && IsDuty(rules.committees, index, duty)
    ensures t < duty.slot + rules.minDelay ==> SlotFlags(rules, index, t) == NONE
    ensures t > duty.slot + rules.sourceWindow && rules.minDelay <= rules.sourceWindow ==>
              SlotFlags(rules, index, t) == NONE
    ensures rules.minDelay > rules.sourceWindow ==> !SlotFlags(rules, index, t).source
  {
    if BlockAt(rules.chain, t).Some? {
      QuietBlock(rules, index, duty, BlockAt(rules.chain, t).value.attestations, t);
    }
  }

  /** Outside the slots the code reads, the chain sets none of the flags. */
  lemma WindowSuffices(rules: Rules, index: uint64, duty: Duty, delay: nat)
    requires ValidChain(rules.chain, rules.minDelay)
    requires Partition(rules.committees) && IsDuty(rules.committees, index, duty)
    requires delay == if rules.minDelay <= rules.sourceWindow then rules.sourceWindow + 1 else rules.minDelay
    ensures var window := FlagsIn(rules, index, duty.slot + rules.minDelay, duty.slot + delay);
            if rules.minDelay <= rules.sourceWindow then window == Participation(rules, index)
            else window == NONE && !Participation(rules, index).source
  {
    forall t: nat
      ensures t < duty.slot + rules.minDelay ==> SlotFlags(rules, index, t) == NONE
      ensures t > duty.slot + rules.sourceWindow && rules.minDelay <= rules.sourceWindow ==>
                SlotFlags(rules, index, t) == NONE
      ensures rules.minDelay > rules.sourceWindow ==> !SlotFlags(rules, index, t).source
    {
      QuietSlot(rules, index, duty, t);
    }
    var length, first, last := |rules.chain|, duty.slot + rules.minDelay, duty.slot + delay;
    if rules.minDelay <= rules.sourceWindow {
      var end := if length < last then last else length;
      NoFlagsIn(rules, index, length, end);
      FlagsSplit(rules, index, 0, length, end);
      NoFlagsIn(rules, index, 0, first);
      FlagsSplit(rules, index, 0, first, last);
      NoFlagsIn(rules, index, last, end);
      FlagsSplit(rules, index, 0, last, end);
    } else {
      NoSourceIn(rules, index, 0, length);
    }
  }

  /** The flags in the slots the code scans. */
  ghost function ScannedVotes(rules: Rules, index: uint64, duty: Duty): Votes {
    var delays := if rules.minDelay <= rules.sourceWindow then rules.sourceWindow + 1 else rules.minDelay;
    FlagsIn(rules, index, duty.slot + rules.minDelay, duty.slot + delays)
  }

  /** A chain and a duty the code may be asked about, with these constants. */
  ghost predicate Suits(rules: Rules, slotsPerEpoch: uint64, minDelay: uint64, index: uint64, duty: Duty) {
    && rules.minDelay == minDelay && rules.sourceWindow == Isqrt(slotsPerEpoch)
    && ValidChain(rules.chain, minDelay) && Partition(rules.committees) && IsDuty(rules.committees, index, duty)
  }

  /** The loop over the delays of the window. */
  method ScanVotes(node: Node, duty: Duty, headRoot: Root, targetRoot: Root, minDelay: uint64, sourceWindow: nat,
                   ghost rules: Rules, ghost index: uint64)
    returns (r: Option<Votes>)
    requires minDelay == rules.minDelay && sourceWindow == rules.sourceWindow < TWO32
    requires Honest(node, rules.chain, rules.committees)
    requires ValidChain(rules.chain, minDelay) && Partition(rules.committees)
    requires IsDuty(rules.committees, index, duty)
    requires RootAt(rules.chain, duty.slot) == Some(headRoot)
    requires RootAt(rules.chain, rules.epochStart) == Some(targetRoot)
    ensures r.Some? <==> WindowReadable(node, duty, rules)
    ensures r.Some? ==> r.value == ScannedVotes(rules, index, duty)
  {
    var votes := NONE;
    var delay := minDelay;
    while delay <= sourceWindow
      invariant minDelay <= delay
      invariant delay <= sourceWindow + 1 || delay == minDelay
      invariant votes == FlagsIn(rules, index, duty.slot + minDelay, duty.slot + delay)
      invariant forall t: nat :: duty.slot + minDelay <= t < duty.slot + delay && t <= duty.slot + sourceWindow ==>
                  !node.operations(Wrap(t)).Failed?
    {
      var slot := Wrap(duty.slot + delay);
      var operations := node.operations(slot);
      if operations.Failed? { return None; }
      WrappedSlotIsQuiet(rules, index, duty, delay);
      if operations.Found? {
        ghost var attestations := BlockAt(rules.chain, slot).value.attestations;
        var block := BlockVotes(duty, headRoot, targetRoot, minDelay, delay, operations.value,
                                rules, index, attestations);
        votes := Or(votes, block);
      }
      delay := delay + 1;
    }
    return Some(votes);
  }

  /** The whole reading. The scan stops at ⌊√SLOTS_PER_EPOCH⌋ slots and yet finds
      every source flag of the chain; it finds the head flags too exactly when the
      minimum delay lies in that window or there is no head flag to find. */
  method TimelyVotesOf(slotsPerEpoch: uint64, minDelay: uint64, index: uint64, epoch: uint64, node: Node, ghost rules: Rules)
    returns (r: Option<Votes>)
    requires rules.minDelay == minDelay && rules.sourceWindow == Isqrt(slotsPerEpoch)
    requires rules.epochStart == Wrap(epoch * slotsPerEpoch)
    requires Honest(node, rules.chain, rules.committees)
    requires ValidChain(rules.chain, minDelay) && Partition(rules.committees)
    ensures r.Some? ==> r.value.source == Participation(rules, index).source
    ensures r.Some? ==>
      (r.value.head == Participation(rules, index).head
       <==> minDelay <= Isqrt(slotsPerEpoch) || !Participation(rules, index).head)
    ensures r.Some? ==> exists duty ::
      IsDuty(rules.committees, index, duty) && r.value == ScannedVotes(rules, index, duty)
    ensures r.Some? <==> node.committees.Found? && exists duty ::
      IsDuty(rules.committees, index, duty) && ReadsSucceed(node, duty, rules)
  {
    if !node.committees.Found? { return None; }
    var found := FindDuty(node.committees.value, index);
    if found.None? { return None; }
    var duty := found.value;
    OneDuty(rules.committees, index, duty);
    var head := RootAtOrBefore(node, duty.slot, rules.chain, rules.committees);
    if head.None? { return None; }
    var target := RootAtOrBefore(node, Wrap(epoch * slotsPerEpoch), rules.chain, rules.committees);
    if target.None? { return None; }
    var sourceWindow := Isqrt(slotsPerEpoch);
    IsqrtBound(slotsPerEpoch);
    r := ScanVotes(node, duty, head.value, target.value, minDelay, sourceWindow, rules, index);
    WindowSuffices(rules, index, duty, if minDelay <= sourceWindow then sourceWindow + 1 else minDelay);
  }

  // ---- Exactly when the window suffices ----

  const VOTE := Attestation(AttestationData(0, 0, ZERO_ROOT, ZERO_ROOT), [true])

  /** A vote of slot 0, included `delay` slots later, and nothing else. */
  function LateChain(delay: uint64): (chain: Chain)
    requires delay > 0
    ensures |chain| == delay + 1
  {
    seq(delay + 1, slot => if slot == 0 then Some(Block(ZERO_ROOT, []))
                           else if slot == delay then Some(Block(ZERO_ROOT, [VOTE])) else None)
  }

  function LateNode(committees: seq<Committee>, delay: uint64): Node {
    Node(Found(committees),
         (slot: uint64) => if slot == 0 || slot == delay then Found(ZERO_ROOT) else NotFound,
         (slot: uint64) => if slot == 0 then Found([]) else if slot == delay then Found([Wire(VOTE)]) else NotFound)
  }

  /** Whenever the minimum delay exceeds the source window, there are a chain with a head
      vote and a node whose reads all succeed, on which the code, by its own account,
      finds none: one validator's, included at the minimum delay. */
  lemma HeadVoteMissed(slotsPerEpoch: uint64, minDelay: uint64) returns (rules: Rules, node: Node, duty: Duty)
    requires minDelay > Isqrt(slotsPerEpoch)
    ensures Suits(rules, slotsPerEpoch, minDelay, 7, duty) && rules.epochStart == 0
    ensures Honest(node, rules.chain, rules.committees) && node.committees.Found? && ReadsSucceed(node, duty, rules)
    ensures Participation(rules, 7).head && !ScannedVotes(rules, 7, duty).head
  {
    var committees := [Committee(0, 0, [7])];
    rules := Rules(LateChain(minDelay), committees, 0, Isqrt(slotsPerEpoch), minDelay);
    node, duty := LateNode(committees, minDelay), Duty(0, 0, 0);
    var attestations := [VOTE];
    assert Seat(committees, 7, 0, 0);
    assert rules.chain[minDelay] == Some(Block(ZERO_ROOT, attestations));
    assert AttestationFlags(rules, 7, VOTE, minDelay).head;
    assert attestations[..0] == [];
    assert BlockFlags(rules, 7, attestations, minDelay).head;
    assert SlotFlags(rules, 7, minDelay).head;
    assert FlagsIn(rules, 7, 0, minDelay + 1).head;
    WindowSuffices(rules, 7, duty, minDelay);
  }

  /** The scan gives the whole chain's flags, on every chain and for every duty, exactly
      when the minimum delay is at most ⌊√SLOTS_PER_EPOCH⌋. */
  lemma WindowExactIff(slotsPerEpoch: uint64, minDelay: uint64)
    ensures minDelay <= Isqrt(slotsPerEpoch) <==>
      forall rules, index, duty :: Suits(rules, slotsPerEpoch, minDelay, index, duty) ==>
        ScannedVotes(rules, index, duty) == Participation(rules, index)
  {
    if minDelay <= Isqrt(slotsPerEpoch) {
      forall rules, index, duty | Suits(rules, slotsPerEpoch, minDelay, index, duty)
        ensures ScannedVotes(rules, index, duty) == Participation(rules, index)
      {
        WindowSuffices(rules, index, duty, rules.sourceWindow + 1);
      }
    } else {
      var rules, node, duty := HeadVoteMissed(slotsPerEpoch, minDelay);
      assert Suits(rules, slotsPerEpoch, minDelay, 7, duty);
    }
  }
}
