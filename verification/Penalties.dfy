/** Missed-vote penalties (`Spec.missedVotePenalties`): uint64 arithmetic against
    the unbounded formulas of `get_base_reward` and `get_flag_index_deltas` in the
    Altair beacon-chain specification. */
module Penalties {
  import opened Arithmetic
  import opened MachineInts
  import opened Wrappers

  datatype Spec = Spec(
    increment: uint64,
    baseRewardFactor: uint64,
    sourceWeight: uint64,
    targetWeight: uint64,
    weightDenominator: uint64,
    minEpochsToInactivityPenalty: uint64,
    minInclusionDelay: uint64)

  /** Go divides by each of these, and panics on zero. */
  predicate Divisible(spec: Spec, total: uint64) {
    spec.increment > 0 && spec.weightDenominator > 0 && total > 0
  }

  function Mul64(a: uint64, b: uint64): uint64 {
    Wrap(a * b)
  }

  function Div64(a: uint64, b: uint64): uint64
    requires b > 0
  {
    DivShrinks(a, b);
    a / b
  }

  /** The base reward as the code computes it, every product wrapping. */
  function BaseReward(spec: Spec, effectiveBalance: uint64, total: uint64): uint64
    requires Divisible(spec, total)
  {
    IsqrtBound(total);
    Mul64(Div64(effectiveBalance, spec.increment),
          Div64(Mul64(spec.increment, spec.baseRewardFactor), Isqrt(total)))
  }

  /** (source, target) */
  function MissedVotePenalties(spec: Spec, effectiveBalance: uint64, total: uint64): (uint64, uint64)
    requires Divisible(spec, total)
  {
    var baseReward := BaseReward(spec, effectiveBalance, total);
    (Div64(Mul64(baseReward, spec.sourceWeight), spec.weightDenominator),
     Div64(Mul64(baseReward, spec.targetWeight), spec.weightDenominator))
  }

  /** The specification's base reward, over unbounded integers: the whole
      increments of the balance times the base reward of one increment. */
  function IdealBaseReward(spec: Spec, effectiveBalance: nat, total: nat): nat
    requires spec.increment > 0 && total > 0
  {
    Mul(Div(effectiveBalance, spec.increment), Div(Mul(spec.increment, spec.baseRewardFactor), Isqrt(total)))
  }

  function IdealPenalty(spec: Spec, weight: nat, effectiveBalance: nat, total: nat): nat
    requires spec.increment > 0 && total > 0 && spec.weightDenominator > 0
  {
    Div(Mul(IdealBaseReward(spec, effectiveBalance, total), weight), spec.weightDenominator)
  }

  /** The caller-checkable range in which no product can overflow. */
  predicate InRange(spec: Spec, effectiveBalance: uint64, total: uint64) {
    && Divisible(spec, total)
    && effectiveBalance <= total
    && spec.increment * spec.baseRewardFactor < TWO64
    && spec.baseRewardFactor * spec.sourceWeight < TWO32
    && spec.baseRewardFactor * spec.targetWeight < TWO32
  }

  // ---- Bounds ----

  /** baseReward * root <= total * factor, because both quotients round down. */
  lemma BaseRewardTimesRoot(base: nat, increments: nat, perIncrement: nat, increment: nat, factor: nat, root: nat,
                            total: nat)
    requires base == increments * perIncrement
    requires perIncrement * root <= increment * factor && increments * increment <= total
    ensures base * root <= total * factor
  {
    calc {
      base * root;
      increments * (perIncrement * root);
    <= { MulMonotone(perIncrement * root, increment * factor, increments); }
      increments * (increment * factor);
      (increments * increment) * factor;
    <= { MulMonotone(increments * increment, total, factor); }
      total * factor;
    }
  }

  lemma BoundFromRoot(base: nat, factor: nat, root: nat, total: nat)
    requires 0 < root < TWO32 && total < (root + 1) * (root + 1)
    requires base * root <= total * factor
    ensures base <= (TWO32 + 1) * factor
  {
    assert total <= (root + 2) * root;
    MulMonotone(total, (root + 2) * root, factor);
    assert (root + 2) * root * factor == ((root + 2) * factor) * root;
    CancelMul(base, (root + 2) * factor, root);
    MulMonotone(root + 2, TWO32 + 1, factor);
  }

  lemma IdealTimesRoot(spec: Spec, effectiveBalance: uint64, total: uint64, root: nat)
    requires Divisible(spec, total) && effectiveBalance <= total && root == Isqrt(total)
    ensures IdealBaseReward(spec, effectiveBalance, total) * root <= total * spec.baseRewardFactor
  {
    var increments := Div(effectiveBalance, spec.increment);
    var perIncrement := Div(Mul(spec.increment, spec.baseRewardFactor), root);
    QuotientTimes(effectiveBalance, spec.increment);
    QuotientTimes(Mul(spec.increment, spec.baseRewardFactor), root);
    BaseRewardTimesRoot(IdealBaseReward(spec, effectiveBalance, total), increments, perIncrement,
                        spec.increment, spec.baseRewardFactor, root, total);
  }

  /** The balance of all validators is at most its root's square plus twice the
      root, so a base reward is at most (2^32 + 1) * factor. */
  lemma BaseRewardBound(spec: Spec, effectiveBalance: uint64, total: uint64)
    requires Divisible(spec, total) && effectiveBalance <= total
    ensures IdealBaseReward(spec, effectiveBalance, total) <= (TWO32 + 1) * spec.baseRewardFactor
  {
    IsqrtBound(total);
    var base, root := IdealBaseReward(spec, effectiveBalance, total), Isqrt(total);
    assert base * root <= total * spec.baseRewardFactor by {
      IdealTimesRoot(spec, effectiveBalance, total, root);
    }
    BoundFromRoot(base, spec.baseRewardFactor, root, total);
  }

  lemma WeightedBound(base: nat, factor: nat, weight: nat)
    requires base <= (TWO32 + 1) * factor && factor * weight < TWO32
    ensures base * weight < TWO64
  {
    MulMonotone(base, (TWO32 + 1) * factor, weight);
    assert (TWO32 + 1) * factor * weight == (TWO32 + 1) * (factor * weight);
    MulMonotone(factor * weight, TWO32 - 1, TWO32 + 1);
  }

  // ---- Exactly when the wrapping code is exact ----

  lemma WrapBelow(a: nat)
    ensures Wrap(a) <= a
    ensures a >= TWO64 ==> Wrap(a) + TWO64 <= a
  {}

  /** A dividend that wraps always shows in the quotient. */
  lemma WrappedQuotient(a: nat, d: nat)
    requires 0 < d <= TWO64
    ensures Div(Wrap(a), d) <= Div(a, d)
    ensures Div(Wrap(a), d) == Div(a, d) <==> a < TWO64
  {
    WrapBelow(a);
    QuotientMonotone(Wrap(a), a, d);
    if a >= TWO64 {
      QuotientBelow(Wrap(a), a, d);
    }
  }

  /** The balance is below one increment, or no product of the base reward overflows. */
  predicate BaseRewardFits(spec: Spec, effectiveBalance: uint64, total: uint64)
    requires Divisible(spec, total)
  {
    || Div(effectiveBalance, spec.increment) == 0
    || (Mul(spec.increment, spec.baseRewardFactor) < TWO64 && IdealBaseReward(spec, effectiveBalance, total) < TWO64)
  }

  lemma WrappedQuotientGap(a: nat, d: nat)
    requires 0 < d <= TWO32
    ensures a >= TWO64 ==> Div(Wrap(a), d) + TWO32 <= Div(a, d)
  {
    if a >= TWO64 {
      WrapBelow(a);
      DivAdd(Wrap(a), TWO64, d);
      DivAntitone(TWO64, d, TWO32);
      QuotientMonotone(Wrap(a) + TWO64, a, d);
    }
  }

  lemma ProductGap(n: nat, small: nat, large: nat)
    requires n > 0 && small + TWO32 <= large
    ensures Mul(n, small) + TWO32 <= Mul(n, large)
  {
    MulMonotone(small + TWO32, large, n);
    MulDistributes(n, small, TWO32);
    MulMonotone(1, n, TWO32);
  }

  lemma WrappedProduct(n: nat, wrapped: nat, exact: nat)
    requires wrapped == exact || wrapped + TWO32 <= exact
    ensures if n == 0 || (wrapped == exact && Mul(n, exact) < TWO64) then Wrap(Mul(n, wrapped)) == Mul(n, exact)
            else Wrap(Mul(n, wrapped)) + TWO32 <= Mul(n, exact)
  {
    WrapBelow(Mul(n, wrapped));
    if n > 0 && wrapped != exact {
      ProductGap(n, wrapped, exact);
    }
  }

  /** For every input Go does not panic on: the base reward is the specification's
      exactly when its products fit; and otherwise it is short by 2^32 at least. */
  lemma BaseRewardExactIff(spec: Spec, effectiveBalance: uint64, total: uint64)
    requires Divisible(spec, total)
    ensures var base, ideal := BaseReward(spec, effectiveBalance, total), IdealBaseReward(spec, effectiveBalance, total);
            && (base == ideal <==> BaseRewardFits(spec, effectiveBalance, total))
            && (base == ideal || base + TWO32 <= ideal)
  {
    var product, root := Mul(spec.increment, spec.baseRewardFactor), Isqrt(total);
    IsqrtBound(total);
    if product < TWO64 {
      WrapFits(product);
    } else {
      WrappedQuotientGap(product, root);
    }
    WrappedProduct(Div(effectiveBalance, spec.increment), Div(Wrap(product), root), Div(product, root));
  }

  lemma PenaltyExactIff(base: nat, ideal: nat, weight: nat, denominator: nat)
    requires 0 < denominator < TWO64 && (base == ideal || (base + TWO32 <= ideal && denominator <= TWO32))
    ensures Div(Wrap(Mul(base, weight)), denominator) == Div(Mul(ideal, weight), denominator)
       <==> weight == 0 || (base == ideal && Mul(ideal, weight) < TWO64)
  {
    WrapBelow(Mul(base, weight));
    if base == ideal {
      WrappedQuotient(Mul(base, weight), denominator);
    } else if weight > 0 {
      ProductGap(weight, base, ideal);
      QuotientBelow(Wrap(Mul(base, weight)), Mul(ideal, weight), denominator);
    }
  }

  /** And each penalty is the specification's exactly when its weight is zero, or the base
      reward is and the weighted base reward fits: always where the base reward fits, and
      where it does not for every denominator up to 2^32. */
  lemma PenaltiesExactIff(spec: Spec, effectiveBalance: uint64, total: uint64)
    requires Divisible(spec, total)
    requires BaseRewardFits(spec, effectiveBalance, total) || spec.weightDenominator <= TWO32
    ensures var ideal, penalties, fits := IdealBaseReward(spec, effectiveBalance, total),
                                          MissedVotePenalties(spec, effectiveBalance, total),
                                          BaseRewardFits(spec, effectiveBalance, total);
            && (penalties.0 == IdealPenalty(spec, spec.sourceWeight, effectiveBalance, total)
                <==> spec.sourceWeight == 0 || (fits && Mul(ideal, spec.sourceWeight) < TWO64))
            && (penalties.1 == IdealPenalty(spec, spec.targetWeight, effectiveBalance, total)
                <==> spec.targetWeight == 0 || (fits && Mul(ideal, spec.targetWeight) < TWO64))
  {
    var base, ideal := BaseReward(spec, effectiveBalance, total), IdealBaseReward(spec, effectiveBalance, total);
    BaseRewardExactIff(spec, effectiveBalance, total);
    PenaltyExactIff(base, ideal, spec.sourceWeight, spec.weightDenominator);
    PenaltyExactIff(base, ideal, spec.targetWeight, spec.weightDenominator);
  }

  lemma WrappedPenaltyBelow(base: nat, ideal: nat, weight: nat, denominator: nat)
    requires base <= ideal && denominator > 0
    ensures Div(Wrap(Mul(base, weight)), denominator) <= Div(Mul(ideal, weight), denominator)
  {
    WrapBelow(Mul(base, weight));
    MulMonotone(base, ideal, weight);
    QuotientMonotone(Wrap(Mul(base, weight)), Mul(ideal, weight), denominator);
  }

  /** Past that, a wrong base reward can hide in the quotient: here it is zero instead of
      2^32 + 1, and both penalties are zero all the same. */
  lemma WideDenominatorHides() returns (spec: Spec, balance: uint64, total: uint64)
    ensures Divisible(spec, total) && balance <= total && spec.sourceWeight == 1
    ensures !BaseRewardFits(spec, balance, total)
    ensures MissedVotePenalties(spec, balance, total).0 == IdealPenalty(spec, spec.sourceWeight, balance, total)
  {
    spec, balance, total := Spec(TWO32, TWO32, 1, 1, TWO63, 0, 0), TWO32, (TWO32 - 1) * (TWO32 - 1);
    IsqrtUnique(total, TWO32 - 1);
    assert Mul(TWO32, TWO32) == TWO64 && Div(balance, TWO32) == 1;
    assert Div(TWO64, TWO32 - 1) == TWO32 + 1;
  }

  /** Whatever wraps, no penalty exceeds the specification's. */
  lemma PenaltiesNeverExceed(spec: Spec, effectiveBalance: uint64, total: uint64)
    requires Divisible(spec, total)
    ensures var penalties := MissedVotePenalties(spec, effectiveBalance, total);
            && penalties.0 <= IdealPenalty(spec, spec.sourceWeight, effectiveBalance, total)
            && penalties.1 <= IdealPenalty(spec, spec.targetWeight, effectiveBalance, total)
  {
    var base, ideal := BaseReward(spec, effectiveBalance, total), IdealBaseReward(spec, effectiveBalance, total);
    BaseRewardExactIff(spec, effectiveBalance, total);
    WrappedPenaltyBelow(base, ideal, spec.sourceWeight, spec.weightDenominator);
    WrappedPenaltyBelow(base, ideal, spec.targetWeight, spec.weightDenominator);
  }

  lemma RangeFits(spec: Spec, effectiveBalance: uint64, total: uint64)
    requires InRange(spec, effectiveBalance, total)
    ensures var base := IdealBaseReward(spec, effectiveBalance, total);
            Mul(base, spec.sourceWeight) < TWO64 && Mul(base, spec.targetWeight) < TWO64
    ensures spec.sourceWeight > 0 || spec.targetWeight > 0 ==> BaseRewardFits(spec, effectiveBalance, total)
  {
    var base := IdealBaseReward(spec, effectiveBalance, total);
    BaseRewardBound(spec, effectiveBalance, total);
    WeightedBound(base, spec.baseRewardFactor, spec.sourceWeight);
    WeightedBound(base, spec.baseRewardFactor, spec.targetWeight);
    if spec.sourceWeight > 0 { MulMonotone(1, spec.sourceWeight, base); }
    if spec.targetWeight > 0 { MulMonotone(1, spec.targetWeight, base); }
  }

  lemma WeightlessPenalties(spec: Spec, effectiveBalance: uint64, total: uint64)
    requires Divisible(spec, total) && spec.sourceWeight == 0 && spec.targetWeight == 0
    ensures MissedVotePenalties(spec, effectiveBalance, total) == (0, 0)
    ensures IdealPenalty(spec, 0, effectiveBalance, total) == 0
  {}

  /** In range, the wrapping code computes the specification's integers. */
  lemma PenaltiesMatchSpecification(spec: Spec, effectiveBalance: uint64, total: uint64)
    requires InRange(spec, effectiveBalance, total)
    ensures MissedVotePenalties(spec, effectiveBalance, total)
         == (IdealPenalty(spec, spec.sourceWeight, effectiveBalance, total),
             IdealPenalty(spec, spec.targetWeight, effectiveBalance, total))
  {
    if spec.sourceWeight == 0 && spec.targetWeight == 0 {
      WeightlessPenalties(spec, effectiveBalance, total);
    } else {
      RangeFits(spec, effectiveBalance, total);
      PenaltiesExactIff(spec, effectiveBalance, total);
    }
  }

  /** The bound on factor * weight is the least that serves every balance: at exactly
      2^32 there is an input, with everything else in range, whose product overflows. */
  lemma RangeIsTight() returns (spec: Spec, balance: uint64)
    ensures Divisible(spec, balance) && spec.increment * spec.baseRewardFactor < TWO64
    ensures spec.baseRewardFactor * spec.sourceWeight == TWO32
    ensures BaseReward(spec, balance, balance) * spec.sourceWeight >= TWO64
    ensures MissedVotePenalties(spec, balance, balance).0
         < IdealPenalty(spec, spec.sourceWeight, balance, balance)
  {
    spec, balance := Spec(TWO32 - 1, 1, TWO32, 1, 1, 0, 0), TWO64 - 1;
    IsqrtUnique(balance, TWO32 - 1);
  }

  lemma IdealMonotone(spec: Spec, weight: nat, small: nat, large: nat, lowTotal: nat, highTotal: nat)
    requires spec.increment > 0 && spec.weightDenominator > 0
    requires small <= large && 0 < lowTotal <= highTotal
    ensures IdealPenalty(spec, weight, small, highTotal) <= IdealPenalty(spec, weight, large, lowTotal)
  {
    IsqrtMonotone(lowTotal, highTotal);
    var product := Mul(spec.increment, spec.baseRewardFactor);
    DivAntitone(product, Isqrt(lowTotal), Isqrt(highTotal));
    QuotientMonotone(small, large, spec.increment);
    ProductMonotone(Div(small, spec.increment), Div(large, spec.increment),
                    Div(product, Isqrt(highTotal)), Div(product, Isqrt(lowTotal)));
    var low, high := IdealBaseReward(spec, small, highTotal), IdealBaseReward(spec, large, lowTotal);
    ProductMonotone(low, high, weight, weight);
    QuotientMonotone(Mul(low, weight), Mul(high, weight), spec.weightDenominator);
  }

  /** More at stake never costs less; a larger network never costs more. */
  lemma PenaltiesMonotone(spec: Spec, small: uint64, large: uint64, lowTotal: uint64, highTotal: uint64)
    requires small <= large && lowTotal <= highTotal
    requires InRange(spec, large, lowTotal)
    ensures var lesser := MissedVotePenalties(spec, small, highTotal);
            var greater := MissedVotePenalties(spec, large, lowTotal);
            lesser.0 <= greater.0 && lesser.1 <= greater.1
  {
    PenaltiesMatchSpecification(spec, small, highTotal);
    PenaltiesMatchSpecification(spec, large, lowTotal);
    IdealMonotone(spec, spec.sourceWeight, small, large, lowTotal, highTotal);
    IdealMonotone(spec, spec.targetWeight, small, large, lowTotal, highTotal);
  }

  /** Missing both votes costs the weighted share of the base reward, short of it
      by at most the one shor the two roundings can lose. */
  lemma PenaltiesShareBaseReward(spec: Spec, effectiveBalance: uint64, total: uint64)
    requires InRange(spec, effectiveBalance, total)
    ensures var penalties := MissedVotePenalties(spec, effectiveBalance, total);
            var share := Div(Mul(IdealBaseReward(spec, effectiveBalance, total),
                                 spec.sourceWeight + spec.targetWeight), spec.weightDenominator);
            share - 1 <= penalties.0 + penalties.1 <= share
  {
    PenaltiesMatchSpecification(spec, effectiveBalance, total);
    var base := IdealBaseReward(spec, effectiveBalance, total);
    MulDistributes(base, spec.sourceWeight, spec.targetWeight);
    DivAdd(Mul(base, spec.sourceWeight), Mul(base, spec.targetWeight), spec.weightDenominator);
  }

  // ---- VoteAmounts ----

  datatype IdealReward = IdealReward(effectiveBalance: uint64, head: int64, target: int64, source: int64)

  datatype VoteAmounts = VoteAmounts(timely: IdealReward, missedSource: uint64, missedTarget: uint64)

  datatype Refusal = ReadFailed | InactivityLeak | NoIdealReward

  /** What the beacon node answers about the state at a slot and the rewards of an
      epoch. Any answer but Found is an error here. */
  datatype Node = Node(
    finalizedEpoch: uint64 -> Read<uint64>,
    effectiveBalance: uint64 -> Read<uint64>,
    totalActiveBalance: uint64 -> Read<uint64>,
    idealRewards: uint64 -> Read<seq<IdealReward>>)

  function PreviousEpoch(slot: nat, slotsPerEpoch: nat): int
    requires slotsPerEpoch > 0
  {
    slot / slotsPerEpoch - 1
  }

  /** `is_in_inactivity_leak` of the Altair specification, in the state at slot. */
  predicate IsInInactivityLeak(slot: nat, slotsPerEpoch: nat, finalizedEpoch: nat, minEpochs: nat)
    requires slotsPerEpoch > 0
  {
    PreviousEpoch(slot, slotsPerEpoch) - finalizedEpoch > minEpochs
  }

  function StateSlot(epoch: uint64, slotsPerEpoch: uint64): uint64 {
    Wrap(Mul(Wrap(epoch + 2), slotsPerEpoch) - 1)
  }

  /** The slots of the next epoch are uint64s. */
  predicate SlotsFit(epoch: uint64, slotsPerEpoch: uint64) {
    slotsPerEpoch > 0 && Mul(epoch + 2, slotsPerEpoch) <= TWO64
  }

  lemma OneFactorFits(a: nat, b: nat)
    requires b > 0 && Mul(a, b) <= TWO64
    ensures a < TWO64 || (a == TWO64 && Mul(a, b) == a)
  {
    if b >= 2 {
      MulMonotone(2, b, a);
    }
  }

  lemma LastOfWindow(epochs: nat, slotsPerEpoch: nat)
    requires epochs > 0 && slotsPerEpoch > 0
    ensures Mul(epochs, slotsPerEpoch) > 0
    ensures (Mul(epochs, slotsPerEpoch) - 1) / slotsPerEpoch == epochs - 1
  {
    MulMonotone(1, epochs, slotsPerEpoch);
    var last := Mul(epochs, slotsPerEpoch) - 1;
    assert last == (epochs - 1) * slotsPerEpoch + (slotsPerEpoch - 1);
    QuotientIs(last, epochs - 1, slotsPerEpoch - 1, slotsPerEpoch);
  }

  lemma StateSlotFits(epoch: uint64, slotsPerEpoch: uint64)
    requires SlotsFit(epoch, slotsPerEpoch)
    ensures StateSlot(epoch, slotsPerEpoch) == Mul(epoch + 2, slotsPerEpoch) - 1
  {
    OneFactorFits(epoch + 2, slotsPerEpoch);
    if epoch + 2 < TWO64 {
      WrapFits(epoch + 2);
      MulMonotone(1, slotsPerEpoch, epoch + 2);
      WrapFits(Mul(epoch + 2, slotsPerEpoch) - 1);
    } else {
      assert Wrap(TWO64) == 0 && Wrap(-1) == TWO64 - 1 && Mul(0, slotsPerEpoch) == 0;
    }
  }

  /** The state read is the last slot of the epoch after `epoch`, the one whose
      processing pays `epoch`'s rewards, exactly when that epoch's slots are uint64s. */
  lemma StateSlotIsLastOfNextEpoch(epoch: uint64, slotsPerEpoch: uint64)
    requires slotsPerEpoch > 0
    ensures var slot := StateSlot(epoch, slotsPerEpoch);
            slot + 1 == Mul(epoch + 2, slotsPerEpoch) <==> SlotsFit(epoch, slotsPerEpoch)
    ensures var slot := StateSlot(epoch, slotsPerEpoch);
            SlotsFit(epoch, slotsPerEpoch) ==>
              slot / slotsPerEpoch == epoch + 1 && PreviousEpoch(slot, slotsPerEpoch) == epoch
  {
    if SlotsFit(epoch, slotsPerEpoch) {
      StateSlotFits(epoch, slotsPerEpoch);
      LastOfWindow(epoch + 2, slotsPerEpoch);
    }
  }

  /** The code's test for an inactivity leak; the sum wraps. */
  predicate Leaks(spec: Spec, epoch: uint64, finalized: uint64) {
    epoch > Wrap(finalized + spec.minEpochsToInactivityPenalty)
  }

  /** The first ideal reward at this effective balance. */
  predicate IsFirstAt(ideal: seq<IdealReward>, balance: uint64, reward: IdealReward) {
    exists i :: 0 <= i < |ideal| && ideal[i] == reward && reward.effectiveBalance == balance
                && forall j :: 0 <= j < i ==> ideal[j].effectiveBalance != balance
  }

  method VoteAmountsOf(spec: Spec, slotsPerEpoch: uint64, epoch: uint64, node: Node)
    returns (r: Result<VoteAmounts, Refusal>)
    requires spec.increment > 0 && spec.weightDenominator > 0
    requires forall slot :: node.totalActiveBalance(slot) != Found(0)
    ensures var slot := StateSlot(epoch, slotsPerEpoch);
            r == Err(InactivityLeak) <==>
              node.finalizedEpoch(slot).Found? && Leaks(spec, epoch, node.finalizedEpoch(slot).value)
    // A read fails the call only if the code gets to it.
    ensures var slot := StateSlot(epoch, slotsPerEpoch);
            r == Err(ReadFailed) <==>
              || !node.finalizedEpoch(slot).Found?
              || (!Leaks(spec, epoch, node.finalizedEpoch(slot).value)
                  && !(node.effectiveBalance(slot).Found? && node.totalActiveBalance(slot).Found?
                       && node.idealRewards(epoch).Found?))
    // Where nothing wraps, the refusal is the specification's leak.
    ensures var slot := StateSlot(epoch, slotsPerEpoch);
            SlotsFit(epoch, slotsPerEpoch)
            && node.finalizedEpoch(slot).Found?
            && node.finalizedEpoch(slot).value + spec.minEpochsToInactivityPenalty < TWO64 ==>
              (r == Err(InactivityLeak) <==>
               IsInInactivityLeak(slot, slotsPerEpoch, node.finalizedEpoch(slot).value, spec.minEpochsToInactivityPenalty))
    ensures r.Ok? ==>
      var slot := StateSlot(epoch, slotsPerEpoch);
      && node.effectiveBalance(slot).Found? && node.totalActiveBalance(slot).Found? && node.idealRewards(epoch).Found?
      && IsFirstAt(node.idealRewards(epoch).value, node.effectiveBalance(slot).value, r.value.timely)
      && (r.value.missedSource, r.value.missedTarget)
         == MissedVotePenalties(spec, node.effectiveBalance(slot).value, node.totalActiveBalance(slot).value)
    ensures r == Err(NoIdealReward) ==>
      var slot := StateSlot(epoch, slotsPerEpoch);
      && node.effectiveBalance(slot).Found? && node.idealRewards(epoch).Found?
      && forall reward :: reward in node.idealRewards(epoch).value
           ==> reward.effectiveBalance != node.effectiveBalance(slot).value
  {
    var slot := StateSlot(epoch, slotsPerEpoch);
    if SlotsFit(epoch, slotsPerEpoch) {
      StateSlotIsLastOfNextEpoch(epoch, slotsPerEpoch);
    }
    var finalized := node.finalizedEpoch(slot);
    if !finalized.Found? { return Err(ReadFailed); }
    if Leaks(spec, epoch, finalized.value) { return Err(InactivityLeak); }
    var balance := node.effectiveBalance(slot);
    if !balance.Found? { return Err(ReadFailed); }
    var total := node.totalActiveBalance(slot);
    if !total.Found? { return Err(ReadFailed); }
    var ideal := node.idealRewards(epoch);
    if !ideal.Found? { return Err(ReadFailed); }
    var (source, target) := MissedVotePenalties(spec, balance.value, total.value);
    for i := 0 to |ideal.value|
      invariant forall j :: 0 <= j < i ==> ideal.value[j].effectiveBalance != balance.value
    {
      if ideal.value[i].effectiveBalance == balance.value {
        return Ok(VoteAmounts(ideal.value[i], source, target));
      }
    }
    return Err(NoIdealReward);
  }
}
