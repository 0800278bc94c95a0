/** The resumable scan for the first epoch whose attestation reward matches
    (rewards.go): over any polls, with any reads failing. */
module RewardScanner {
  import opened Arithmetic
  import opened Beacon
  import opened MachineInts
  import opened Seqs
  import opened Wrappers

  /** What one poll sees: the head slot, and the reward of each epoch. A response
      that does not cover exactly the validator counts as failed. */
  datatype Poll = Poll(head: Read<uint64>, rewards: uint64 -> Read<AttestationReward>)

  function Epoch(slot: uint64, slotsPerEpoch: uint64): (epoch: uint64)
    requires slotsPerEpoch > 0
  {
    DivShrinks(slot, slotsPerEpoch);
    slot / slotsPerEpoch
  }

  /** `rewardsAvailable`; the sum wraps. */
  predicate RewardsAvailable(headEpoch: uint64, epoch: uint64) {
    Wrap(epoch + 2) <= headEpoch
  }

  /** The test says what it means, that the head is two epochs on, for every epoch
      but the last two of the uint64 range, and there unless the head's epoch
      reaches the wrapped sum. */
  lemma AvailableIff(headEpoch: uint64, epoch: uint64)
    ensures (RewardsAvailable(headEpoch, epoch) <==> epoch + 2 <= headEpoch)
       <==> epoch < TWO64 - 2 || headEpoch < epoch + 2 - TWO64
  {}

  /** A successful read of a reward tells the truth. */
  ghost predicate Honest(poll: Poll, truth: uint64 -> AttestationReward) {
    forall epoch :: poll.rewards(epoch).Found? ==> poll.rewards(epoch).value == truth(epoch)
  }

  predicate Available(poll: Poll, slotsPerEpoch: uint64, epoch: nat) {
    slotsPerEpoch > 0 && poll.head.Found? && epoch + 2 <= Epoch(poll.head.value, slotsPerEpoch)
  }

  /** The code's test for reading an epoch on this poll. */
  predicate Reads(poll: Poll, slotsPerEpoch: uint64, epoch: uint64) {
    slotsPerEpoch > 0 && poll.head.Found? && RewardsAvailable(Epoch(poll.head.value, slotsPerEpoch), epoch)
  }

  /** Every epoch but the last two of the uint64 range is read only if it is available,
      and an available one is always read. */
  lemma ReadsWhatIsAvailable(poll: Poll, slotsPerEpoch: uint64, epoch: uint64)
    ensures Available(poll, slotsPerEpoch, epoch) ==> Reads(poll, slotsPerEpoch, epoch)
    ensures Reads(poll, slotsPerEpoch, epoch) && epoch < TWO64 - 2 ==> Available(poll, slotsPerEpoch, epoch)
  {
    if slotsPerEpoch > 0 && poll.head.Found? {
      AvailableIff(Epoch(poll.head.value, slotsPerEpoch), epoch);
    }
  }

  /** What a scan comes to. It has no end where every epoch there is passes the test, is
      read, and does not match. */
  datatype ScanResult = Matched | NotYet | ReadFailed | Endless

  ghost predicate MatchesNowhere(truth: uint64 -> AttestationReward, matches: AttestationReward -> bool) {
    forall epoch :: !matches(truth(epoch))
  }

  predicate CountsOn(first: uint64, epochs: seq<uint64>) {
    forall k :: 0 <= k < |epochs| ==> epochs[k] == Counter(first, k)
  }

  /** Turns of the counter, one after the other from its start, were spent on epochs that
      do not match. */
  ghost predicate NoneMatched(truth: uint64 -> AttestationReward, matches: AttestationReward -> bool, first: uint64, turns: nat) {
    forall k: nat :: k < turns ==> !matches(truth(Counter(first, k)))
  }

  /** An epoch the loop reads and goes on from. */
  predicate Passes(poll: Poll, matches: AttestationReward -> bool, headEpoch: uint64, epoch: uint64) {
    RewardsAvailable(headEpoch, epoch) && poll.rewards(epoch).Found? && !matches(poll.rewards(epoch).value)
  }

  lemma EveryEpochPasses(first: uint64, before: seq<uint64>, here: seq<uint64>,
                         poll: Poll, matches: AttestationReward -> bool, headEpoch: uint64)
    requires |here| == TWO64 && CountsOn(first, before + here)
    requires forall epoch :: epoch in here ==> Passes(poll, matches, headEpoch, epoch)
    ensures forall epoch :: Passes(poll, matches, headEpoch, epoch)
  {
    forall epoch: uint64
      ensures Passes(poll, matches, headEpoch, epoch)
    {
      var k := TurnsTo(Counter(first, |before|), epoch);
      WrapAdds(first + |before|, k);
      assert (before + here)[|before| + k] == here[k] == epoch;
    }
  }

  lemma PassedGrows(truth: uint64 -> AttestationReward, matches: AttestationReward -> bool, first: uint64, passed: seq<uint64>)
    requires CountsOn(first, passed) && NoneMatched(truth, matches, first, |passed|)
    requires !matches(truth(Counter(first, |passed|)))
    ensures CountsOn(first, passed + [Counter(first, |passed|)])
    ensures NoneMatched(truth, matches, first, |passed| + 1)
    ensures Counter(first, |passed| + 1) == Wrap(Counter(first, |passed|) + 1)
  {
    CounterStep(first, |passed|);
  }

  class Scanner {
    const slotsPerEpoch: uint64
    const matches: AttestationReward -> bool
    const first: uint64
    var next: uint64
    /** The epochs whose reward has been read and found not to match, in order. */
    ghost var passed: seq<uint64>

    constructor (slotsPerEpoch: uint64, matches: AttestationReward -> bool, first: uint64)
      ensures this.slotsPerEpoch == slotsPerEpoch && this.matches == matches && this.first == first
      ensures next == first && passed == []
    {
      this.slotsPerEpoch, this.matches, this.first := slotsPerEpoch, matches, first;
      next, passed := first, [];
    }

    /** At every moment between scans: no epoch was skipped or read twice on one round of
        the counter, and none that was passed matches. */
    ghost predicate Valid(truth: uint64 -> AttestationReward)
      reads this
    {
      && slotsPerEpoch > 0
      && next == Counter(first, |passed|)
      && CountsOn(first, passed)
      && NoneMatched(truth, matches, first, |passed|)
    }

    /** The loop, once the head's epoch is known. */
    method ScanTo(headEpoch: uint64, poll: Poll, ghost truth: uint64 -> AttestationReward) returns (r: ScanResult)
      requires Valid(truth) && Honest(poll, truth)
      modifies this
      ensures Valid(truth) && old(passed) <= passed
      ensures forall epoch :: epoch in passed[|old(passed)|..] ==> RewardsAvailable(headEpoch, epoch)
      ensures r == NotYet <==> !RewardsAvailable(headEpoch, next)
      ensures r == ReadFailed <==> RewardsAvailable(headEpoch, next) && !poll.rewards(next).Found?
      ensures r == Matched <==>
        RewardsAvailable(headEpoch, next) && poll.rewards(next).Found? && matches(truth(next))
      ensures r == Endless <==>
        forall epoch :: Passes(poll, matches, headEpoch, epoch)
    {
      var turns := 0;
      ghost var here: seq<uint64> := [];
      while RewardsAvailable(headEpoch, next)
        invariant Valid(truth) && passed == old(passed) + here && turns == |here| <= TWO64
        invariant forall epoch :: epoch in here ==> Passes(poll, matches, headEpoch, epoch)
        decreases TWO64 - turns
      {
        if turns == TWO64 {
          EveryEpochPasses(first, old(passed), here, poll, matches, headEpoch);
          assert Passes(poll, matches, headEpoch, next);
          return Endless;
        }
        var reward := poll.rewards(next);
        ghost var passes := Passes(poll, matches, headEpoch, next);
        if !reward.Found? { return ReadFailed; }
        if matches(reward.value) { return Matched; }
        PassedGrows(truth, matches, first, passed);
        here := here + [next];
        passed := passed + [next];
        next := Wrap(next + 1);
        turns := turns + 1;
      }
      assert !Passes(poll, matches, headEpoch, next);
      return NotYet;
    }

    /** One poll's scan. An epoch is read only if it is available, and a read that fails
        is made again by the next scan. */
    method Scan(poll: Poll, ghost truth: uint64 -> AttestationReward) returns (r: ScanResult)
      requires Valid(truth) && Honest(poll, truth)
      modifies this
      ensures Valid(truth) && old(passed) <= passed
      ensures forall epoch :: epoch in passed[|old(passed)|..] ==> Reads(poll, slotsPerEpoch, epoch)
      ensures r == NotYet <==> poll.head.Found? && !Reads(poll, slotsPerEpoch, next)
      ensures r == ReadFailed <==>
        !poll.head.Found? || (Reads(poll, slotsPerEpoch, next) && !poll.rewards(next).Found?)
      ensures r == Matched <==>
        Reads(poll, slotsPerEpoch, next) && poll.rewards(next).Found? && matches(truth(next))
      ensures r == Endless <==>
        MatchesNowhere(truth, matches) && forall epoch :: Reads(poll, slotsPerEpoch, epoch) && poll.rewards(epoch).Found?
      ensures !poll.head.Found? ==> passed == old(passed)
    {
      if !poll.head.Found? { return ReadFailed; }
      var headEpoch := Epoch(poll.head.value, slotsPerEpoch);
      r := ScanTo(headEpoch, poll, truth);
      assert forall epoch :: Passes(poll, matches, headEpoch, epoch) <==>
        Reads(poll, slotsPerEpoch, epoch) && poll.rewards(epoch).Found? && !matches(truth(epoch));
    }
  }

  /** The first epoch, counting on from `first`, whose reward matches. */
  ghost predicate IsFirstMatch(truth: uint64 -> AttestationReward, matches: AttestationReward -> bool, first: uint64, epoch: uint64) {
    matches(truth(epoch)) && forall e :: TurnsTo(first, e) < TurnsTo(first, epoch) ==> !matches(truth(e))
  }

  lemma FirstMatch(truth: uint64 -> AttestationReward, matches: AttestationReward -> bool, first: uint64, turns: nat)
    requires NoneMatched(truth, matches, first, turns) && matches(truth(Counter(first, turns)))
    ensures IsFirstMatch(truth, matches, first, Counter(first, turns))
  {
    TurnsAtMost(first, turns);
    forall e | TurnsTo(first, e) < TurnsTo(first, Counter(first, turns))
      ensures !matches(truth(e))
    {
      assert !matches(truth(Counter(first, TurnsTo(first, e))));
    }
  }

  /** Unless the counter has gone round, that is the least from `first`; and if it has,
      there is none from `first`. */
  lemma FirstMatchIsLeast(truth: uint64 -> AttestationReward, matches: AttestationReward -> bool, first: uint64, epoch: uint64)
    ensures IsFirstMatch(truth, matches, first, epoch) <==>
      && matches(truth(epoch))
      && (forall e: uint64 :: first <= e && (e < epoch || epoch < first) ==> !matches(truth(e)))
      && (epoch < first ==> forall e: uint64 :: e < epoch ==> !matches(truth(e)))
  {
    forall e: uint64
      ensures TurnsTo(first, e) < TurnsTo(first, epoch) <==>
        (first <= e && (e < epoch || epoch < first)) || e < epoch < first
    {}
  }

  /** Every read of this poll succeeds. */
  ghost predicate Clean(poll: Poll) {
    poll.head.Found? && forall epoch :: poll.rewards(epoch).Found?
  }

  lemma AvailableBelow(poll: Poll, slotsPerEpoch: uint64, lower: uint64, epoch: uint64)
    requires Available(poll, slotsPerEpoch, epoch)
    ensures lower <= epoch ==> Available(poll, slotsPerEpoch, lower)
  {}

  /** A clean scan that found nothing has passed everything available from `first`. */
  lemma CleanScanPasses(poll: Poll, slotsPerEpoch: uint64, first: uint64, turns: nat, epoch: uint64)
    requires Available(poll, slotsPerEpoch, epoch) && first <= epoch
    requires !Reads(poll, slotsPerEpoch, Counter(first, turns))
    ensures TurnsTo(first, epoch) < turns
  {
    if first + turns <= epoch {
      WrapFits(first + turns);
      AvailableBelow(poll, slotsPerEpoch, Counter(first, turns), epoch);
      ReadsWhatIsAvailable(poll, slotsPerEpoch, Counter(first, turns));
    }
  }

  /** No poll that is clean could see a match. */
  ghost predicate NoneSeen(slotsPerEpoch: uint64, matches: AttestationReward -> bool, first: uint64, polls: seq<Poll>,
                           truth: uint64 -> AttestationReward) {
    forall poll, epoch: uint64 ::
      (poll in polls && Clean(poll) && first <= epoch && Available(poll, slotsPerEpoch, epoch)) ==> !matches(truth(epoch))
  }

  lemma NoneSeenStep(slotsPerEpoch: uint64, matches: AttestationReward -> bool, first: uint64, polls: seq<Poll>, poll: Poll,
                     truth: uint64 -> AttestationReward, turns: nat)
    requires NoneSeen(slotsPerEpoch, matches, first, polls, truth)
    requires NoneMatched(truth, matches, first, turns)
    requires Clean(poll) ==> !Reads(poll, slotsPerEpoch, Counter(first, turns))
    ensures NoneSeen(slotsPerEpoch, matches, first, polls + [poll], truth)
  {
    forall epoch: uint64 | Clean(poll) && first <= epoch && Available(poll, slotsPerEpoch, epoch)
      ensures !matches(truth(epoch))
    {
      CleanScanPasses(poll, slotsPerEpoch, first, turns, epoch);
      assert !matches(truth(Counter(first, TurnsTo(first, epoch))));
    }
  }

  /** What the polls come to: an epoch, none before they run out, or a scan without end. */
  datatype Awaited = FirstMatching(epoch: uint64) | RanOut | NoEnd

  /** Polls until a scan finds a match, or until the polls run out. It returns the
      first match and nothing else, and misses it only if no clean poll could see it. */
  method AwaitAttestationReward(
    slotsPerEpoch: uint64, matches: AttestationReward -> bool, first: uint64, polls: seq<Poll>,
    ghost truth: uint64 -> AttestationReward)
    returns (r: Awaited)
    requires slotsPerEpoch > 0
    requires forall poll :: poll in polls ==> Honest(poll, truth)
    ensures r.FirstMatching? ==> IsFirstMatch(truth, matches, first, r.epoch)
    ensures r.FirstMatching? ==> exists poll :: poll in polls && Reads(poll, slotsPerEpoch, r.epoch)
    ensures r.RanOut? ==> NoneSeen(slotsPerEpoch, matches, first, polls, truth)
    ensures r.NoEnd? ==> MatchesNowhere(truth, matches)
  {
    var scanner := new Scanner(slotsPerEpoch, matches, first);
    assert polls[..0] == [];
    for k := 0 to |polls|
      invariant fresh(scanner)
      invariant scanner.slotsPerEpoch == slotsPerEpoch && scanner.matches == matches && scanner.first == first
      invariant scanner.Valid(truth)
      invariant NoneSeen(slotsPerEpoch, matches, first, polls[..k], truth)
    {
      var scan := scanner.Scan(polls[k], truth);
      match scan
      case Matched =>
        FirstMatch(truth, matches, first, |scanner.passed|);
        return FirstMatching(scanner.next);
      case Endless =>
        return NoEnd;
      case _ =>
        NextPrefix(polls, k);
        NoneSeenStep(slotsPerEpoch, matches, first, polls[..k], polls[k], truth, |scanner.passed|);
    }
    assert polls[..|polls|] == polls;
    return RanOut;
  }
}
