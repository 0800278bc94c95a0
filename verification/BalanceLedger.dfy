/** What the beacon chain does to one validator's balance, slot by slot, and the
    equation `BalanceAtEpochStart` and `BlockBalanceChanges` claim about it.
    Balances never go below zero (`decrease_balance` of the Altair specification),
    so a debit can be forgiven in part; slashings are not in the ledger. */
module BalanceLedger {
  import opened Arithmetic
  import opened Beacon
  import opened MachineInts
  import opened Wrappers

  datatype Withdrawal = Withdrawal(validatorIndex: uint64, amount: uint64)

  datatype SyncReward = SyncReward(validatorIndex: uint64, reward: int64)

  datatype Block = Block(
    proposerIndex: uint64, proposerTotal: uint64, withdrawals: seq<Withdrawal>, syncRewards: seq<SyncReward>)

  /** One validator's view of a canonical chain: the block of each slot, if it has
      one, and the validator's attestation reward for each epoch. */
  datatype History = History(
    index: uint64,
    slotsPerEpoch: nat,
    genesisBalance: nat,
    blocks: nat -> Option<Block>,
    attestation: nat -> AttestationReward)

  // ---- Ledgers ----

  function Sum(deltas: seq<int>): int {
    if |deltas| == 0 then 0 else deltas[0] + Sum(deltas[1..])
  }

  lemma {:induction false} SumConcat(a: seq<int>, b: seq<int>)
    ensures Sum(a + b) == Sum(a) + Sum(b)
  {
    if |a| == 0 {
      assert a + b == b;
    } else {
      assert (a + b)[1..] == a[1..] + b;
      SumConcat(a[1..], b);
    }
  }

  function Credit(balance: nat, delta: int): nat {
    if balance + delta < 0 then 0 else balance + delta
  }

  /** Credits and debits in order; a debit stops at zero. */
  function Apply(balance: nat, deltas: seq<int>): nat
    decreases |deltas|
  {
    if |deltas| == 0 then balance else Apply(Credit(balance, deltas[0]), deltas[1..])
  }

  /** What the debits that met an empty balance did not take. */
  function Forgiven(balance: nat, deltas: seq<int>): nat
    decreases |deltas|
  {
    if |deltas| == 0 then 0
    else Credit(balance, deltas[0]) - (balance + deltas[0]) + Forgiven(Credit(balance, deltas[0]), deltas[1..])
  }

  lemma {:induction false} ApplyConserves(balance: nat, deltas: seq<int>)
    ensures Apply(balance, deltas) == balance + Sum(deltas) + Forgiven(balance, deltas)
    decreases |deltas|
  {
    if |deltas| > 0 {
      ApplyConserves(Credit(balance, deltas[0]), deltas[1..]);
    }
  }

  /** No debit exceeds the balance it meets. */
  predicate Solvent(balance: int, deltas: seq<int>)
    decreases |deltas|
  {
    |deltas| == 0 || (balance + deltas[0] >= 0 && Solvent(balance + deltas[0], deltas[1..]))
  }

  lemma {:induction false} NothingForgivenIff(balance: nat, deltas: seq<int>)
    ensures Forgiven(balance, deltas) == 0 <==> Solvent(balance, deltas)
    decreases |deltas|
  {
    if |deltas| > 0 {
      NothingForgivenIff(Credit(balance, deltas[0]), deltas[1..]);
    }
  }

  /** An account and what every slot does to it. */
  datatype Ledger = Ledger(genesis: nat, steps: nat -> seq<int>)

  function Balance(l: Ledger, slot: nat): nat {
    if slot == 0 then l.genesis else Apply(Balance(l, slot - 1), l.steps(slot))
  }

  /** Over the slots after `after` through `last`. */
  function ForgivenIn(l: Ledger, after: nat, last: nat): nat
    decreases last
  {
    if last <= after then 0
    else ForgivenIn(l, after, last - 1) + Forgiven(Balance(l, last - 1), l.steps(last))
  }

  /** The balance covers every debit of the slots after `after` through `last`. */
  predicate SolventIn(l: Ledger, after: nat, last: nat)
    decreases last
  {
    last <= after || (SolventIn(l, after, last - 1) && Solvent(Balance(l, last - 1), l.steps(last)))
  }

  lemma {:induction false} NothingForgivenInIff(l: Ledger, after: nat, last: nat)
    ensures ForgivenIn(l, after, last) == 0 <==> SolventIn(l, after, last)
    decreases last
  {
    if after < last {
      NothingForgivenInIff(l, after, last - 1);
      NothingForgivenIff(Balance(l, last - 1), l.steps(last));
    }
  }

  /** Over the slots after `after` through `last`. */
  function SumIn(f: nat -> int, after: nat, last: nat): int
    decreases last
  {
    if last <= after then 0 else SumIn(f, after, last - 1) + f(last)
  }

  lemma {:induction false} SumInSplit(f: nat -> int, a: nat, b: nat, c: nat)
    requires a <= b <= c
    ensures SumIn(f, a, c) == SumIn(f, a, b) + SumIn(f, b, c)
    decreases c
  {
    if b < c {
      SumInSplit(f, a, b, c - 1);
    }
  }

  /** When every slot's step is a reward and a change, the balance moves by their
      sums and by what was forgiven. */
  lemma {:induction false} LedgerConserves(l: Ledger, rewards: nat -> int, changes: nat -> int, after: nat, last: nat)
    requires after <= last
    requires forall slot :: after < slot <= last ==> Sum(l.steps(slot)) == rewards(slot) + changes(slot)
    ensures Balance(l, last) == Balance(l, after) + SumIn(rewards, after, last) + SumIn(changes, after, last)
                              + ForgivenIn(l, after, last)
    decreases last
  {
    if after < last {
      LedgerConserves(l, rewards, changes, after, last - 1);
      ApplyConserves(Balance(l, last - 1), l.steps(last));
    }
  }

  // ---- The validator's ledger ----

  function Debit(withdrawal: Withdrawal, index: uint64): seq<int> {
    if withdrawal.validatorIndex == index then [0 - withdrawal.amount] else []
  }

  function WithdrawalDeltas(withdrawals: seq<Withdrawal>, index: uint64): seq<int> {
    if |withdrawals| == 0 then [] else Debit(withdrawals[0], index) + WithdrawalDeltas(withdrawals[1..], index)
  }

  function SyncDelta(reward: SyncReward, index: uint64): seq<int> {
    if reward.validatorIndex == index then [reward.reward] else []
  }

  function SyncDeltas(rewards: seq<SyncReward>, index: uint64): seq<int> {
    if |rewards| == 0 then [] else SyncDelta(rewards[0], index) + SyncDeltas(rewards[1..], index)
  }

  /** A block pays out withdrawals, then its proposer, then its sync committee. */
  function BlockDeltas(block: Block, index: uint64): seq<int> {
    WithdrawalDeltas(block.withdrawals, index)
    + (if block.proposerIndex == index then [block.proposerTotal] else [])
    + SyncDeltas(block.syncRewards, index)
  }

  function SlotBlockDeltas(h: History, slot: nat): seq<int> {
    match h.blocks(slot) case None => [] case Some(block) => BlockDeltas(block, h.index)
  }

  function RewardTotal(reward: AttestationReward): int {
    reward.head + reward.source + reward.target
  }

  /** The first slot of epoch E first applies the attestation rewards of E - 2. */
  function EpochDeltas(h: History, slot: nat): seq<int>
    requires h.slotsPerEpoch > 0
  {
    if slot % h.slotsPerEpoch == 0 && slot / h.slotsPerEpoch >= 2 then
      var reward := h.attestation(slot / h.slotsPerEpoch - 2);
      [reward.source, reward.target, reward.head]
    else []
  }

  function LedgerOf(h: History): Ledger
    requires h.slotsPerEpoch > 0
  {
    Ledger(h.genesisBalance, (slot: nat) => EpochDeltas(h, slot) + SlotBlockDeltas(h, slot))
  }

  /** What `BalanceAt` reads: the ledger once everything at the slot is booked. */
  function BalanceAt(h: History, slot: nat): nat
    requires h.slotsPerEpoch > 0
  {
    Balance(LedgerOf(h), slot)
  }

  /** What each slot's block did to the balance; zero for an empty slot. */
  function Changes(h: History): nat -> int {
    (slot: nat) => Sum(SlotBlockDeltas(h, slot))
  }

  /** What each slot's epoch processing did to the balance. */
  function Rewards(h: History): nat -> int
    requires h.slotsPerEpoch > 0
  {
    (slot: nat) => Sum(EpochDeltas(h, slot))
  }

  /** epoch * SLOTS_PER_EPOCH */
  function EpochStart(h: History, epoch: nat): nat {
    if epoch == 0 then 0 else EpochStart(h, epoch - 1) + h.slotsPerEpoch
  }

  /** The blocks that come between the starts of two epochs, each start with its block. */
  function EpochChanges(h: History, epoch: nat): int {
    SumIn(Changes(h), EpochStart(h, epoch), EpochStart(h, epoch + 1))
  }

  lemma {:induction false} EpochStartIsProduct(h: History, epoch: nat)
    ensures EpochStart(h, epoch) == Mul(epoch, h.slotsPerEpoch)
  {
    if epoch > 0 {
      EpochStartIsProduct(h, epoch - 1);
      MulDistributes(h.slotsPerEpoch, epoch - 1, 1);
    }
  }

  lemma {:induction false} EpochStartMonotone(h: History, first: nat, end: nat)
    requires first <= end
    ensures EpochStart(h, first) <= EpochStart(h, end)
    decreases end
  {
    if first < end {
      EpochStartMonotone(h, first, end - 1);
    }
  }

  lemma SumThree(reward: AttestationReward)
    ensures Sum([reward.source, reward.target, reward.head]) == RewardTotal(reward)
  {
    var deltas: seq<int> := [reward.source, reward.target, reward.head];
    var rest: seq<int>, last: seq<int> := [reward.target, reward.head], [reward.head];
    assert deltas[1..] == rest && rest[1..] == last && last[1..] == [];
    assert Sum(rest) == reward.target + Sum(last) && Sum(last) == reward.head + Sum([]);
  }

  /** Only the first slot of an epoch applies rewards. */
  lemma RewardsOfSlot(h: History, epoch: nat, slot: nat)
    requires h.slotsPerEpoch > 0 && EpochStart(h, epoch) <= slot < EpochStart(h, epoch + 1)
    ensures Rewards(h)(slot)
         == if slot == EpochStart(h, epoch) && epoch >= 2 then RewardTotal(h.attestation(epoch - 2)) else 0
  {
    EpochStartIsProduct(h, epoch);
    EpochStartIsProduct(h, epoch + 1);
    WindowOf(slot, epoch, h.slotsPerEpoch);
    if epoch >= 2 {
      SumThree(h.attestation(epoch - 2));
    }
  }

  lemma {:induction false} NoRewardsWithin(h: History, epoch: nat, start: nat, slot: nat)
    requires h.slotsPerEpoch > 0 && start == EpochStart(h, epoch) && start <= slot < EpochStart(h, epoch + 1)
    ensures SumIn(Rewards(h), start, slot) == 0
    decreases slot
  {
    if slot > start {
      NoRewardsWithin(h, epoch, start, slot - 1);
      RewardsOfSlot(h, epoch, slot);
    }
  }

  /** The window that ends where epoch + 2 starts applies `epoch`'s rewards, and no
      others. */
  lemma RewardsOfWindow(h: History, epoch: nat, start: nat, end: nat)
    requires h.slotsPerEpoch > 0
    requires start == EpochStart(h, epoch + 1) && end == EpochStart(h, epoch + 2)
    ensures start < end && SumIn(Rewards(h), start, end) == RewardTotal(h.attestation(epoch))
  {
    NoRewardsWithin(h, epoch + 1, start, end - 1);
    RewardsOfSlot(h, epoch + 2, end);
  }

  /** Between any two states the balance moves by the rewards applied, the blocks'
      changes, and what was forgiven. */
  lemma BalanceMoves(h: History, after: nat, last: nat)
    requires h.slotsPerEpoch > 0 && after <= last
    ensures BalanceAt(h, last) == BalanceAt(h, after) + SumIn(Rewards(h), after, last)
                                + SumIn(Changes(h), after, last) + ForgivenIn(LedgerOf(h), after, last)
  {
    forall slot | after < slot <= last
      ensures Sum(LedgerOf(h).steps(slot)) == Rewards(h)(slot) + Changes(h)(slot)
    {
      SumConcat(EpochDeltas(h, slot), SlotBlockDeltas(h, slot));
    }
    LedgerConserves(LedgerOf(h), Rewards(h), Changes(h), after, last);
  }

  /** The equation of one epoch: the rewards of `epoch`, applied when epoch + 2
      starts, and the blocks of epoch + 1's window make the whole difference, but
      for debits forgiven at zero. */
  lemma EpochEquation(h: History, epoch: nat)
    requires h.slotsPerEpoch > 0
    ensures var start, end := EpochStart(h, epoch + 1), EpochStart(h, epoch + 2);
            BalanceAt(h, end) == BalanceAt(h, start) + RewardTotal(h.attestation(epoch)) + EpochChanges(h, epoch + 1)
                               + ForgivenIn(LedgerOf(h), start, end)
  {
    var start, end := EpochStart(h, epoch + 1), EpochStart(h, epoch + 2);
    RewardsOfWindow(h, epoch, start, end);
    BalanceMoves(h, start, end);
  }

  /** The equation is exact exactly when the balance covered every debit. */
  lemma EquationHoldsIff(h: History, epoch: nat)
    requires h.slotsPerEpoch > 0
    ensures var start, end := EpochStart(h, epoch + 1), EpochStart(h, epoch + 2);
            BalanceAt(h, end) == BalanceAt(h, start) + RewardTotal(h.attestation(epoch)) + EpochChanges(h, epoch + 1)
            <==> SolventIn(LedgerOf(h), start, end)
  {
    EpochEquation(h, epoch);
    NothingForgivenInIff(LedgerOf(h), EpochStart(h, epoch + 1), EpochStart(h, epoch + 2));
  }

  /** The penalties suite's check, in the machine arithmetic it is written in. */
  predicate SuiteCheck(before: nat, missedSource: uint64, missedTarget: uint64, blocks: int64, after: nat) {
    var penalty := Wrap(missedSource + missedTarget);
    ToInt64(after) == ToInt64(ToInt64(ToInt64(before) - ToInt64(penalty)) + blocks)
  }

  /** The attestation reward the suite has just found: both votes missed. */
  function MissedReward(missedSource: uint64, missedTarget: uint64): AttestationReward {
    AttestationReward(0, ToInt64(0 - ToInt64(missedTarget)), ToInt64(0 - ToInt64(missedSource)))
  }

  lemma NegationResidue(n: int)
    ensures IsMultiple(ToInt64(0 - ToInt64(n)) + n)
  {
    var m := ToInt64(n);
    SumIsMultiple(ToInt64(0 - m) + n, ToInt64(0 - m) - (0 - m), m - n);
  }

  lemma MissedRewardResidue(missedSource: uint64, missedTarget: uint64, earned: int, owed: int)
    requires earned == RewardTotal(MissedReward(missedSource, missedTarget))
    requires owed == earned + Wrap(missedSource + missedTarget)
    ensures IsMultiple(owed)
  {
    var source, target := ToInt64(0 - ToInt64(missedSource)), ToInt64(0 - ToInt64(missedTarget));
    var sum := missedSource + missedTarget;
    NegationResidue(missedSource);
    NegationResidue(missedTarget);
    WrapResidue(sum);
    SumIsMultiple(earned + sum, source + missedSource, target + missedTarget);
    SumIsMultiple(owed, earned + sum, sum - Wrap(sum));
  }

  lemma RestDecides(owed: int, rest: int, gap: int)
    requires IsMultiple(owed) && gap == owed + rest
    ensures IsMultiple(gap) <==> IsMultiple(rest)
  {
    if IsMultiple(rest) { SumIsMultiple(gap, owed, rest); }
    if IsMultiple(gap) { SumIsMultiple(rest, gap, owed); }
  }

  lemma WantedBalance(before: int, penalty: int, changes: int)
    ensures ToInt64(ToInt64(ToInt64(before) - ToInt64(penalty)) + ToInt64(changes)) == ToInt64(before - penalty + changes)
  {
    ToInt64Sum(before, penalty);
    ToInt64Adds(before - penalty, changes);
  }

  lemma SuiteCheckIff(before: nat, missedSource: uint64, missedTarget: uint64, changes: int, after: nat, gap: int)
    requires gap == after - (before - Wrap(missedSource + missedTarget) + changes)
    ensures SuiteCheck(before, missedSource, missedTarget, ToInt64(changes), after) <==> IsMultiple(gap)
  {
    WantedBalance(before, Wrap(missedSource + missedTarget), changes);
    SameInt64(after, before - Wrap(missedSource + missedTarget) + changes);
  }

  /** The suite's check holds exactly when nothing was forgiven in the window (up to
      2^64), however its sums wrap. */
  lemma SuiteCheckHoldsIff(h: History, epoch: nat, missedSource: uint64, missedTarget: uint64)
    requires h.slotsPerEpoch > 0 && h.attestation(epoch) == MissedReward(missedSource, missedTarget)
    ensures var start, end := EpochStart(h, epoch + 1), EpochStart(h, epoch + 2);
            SuiteCheck(BalanceAt(h, start), missedSource, missedTarget, ToInt64(EpochChanges(h, epoch + 1)), BalanceAt(h, end))
            <==> IsMultiple(ForgivenIn(LedgerOf(h), start, end))
  {
    var start, end := EpochStart(h, epoch + 1), EpochStart(h, epoch + 2);
    var earned, forgiven := RewardTotal(h.attestation(epoch)), ForgivenIn(LedgerOf(h), start, end);
    EpochEquation(h, epoch);
    var owed := earned + Wrap(missedSource + missedTarget);
    var gap := owed + forgiven;
    SuiteCheckIff(BalanceAt(h, start), missedSource, missedTarget, EpochChanges(h, epoch + 1), BalanceAt(h, end), gap);
    MissedRewardResidue(missedSource, missedTarget, earned, owed);
    RestDecides(owed, forgiven, gap);
  }

  /** A validator without a balance misses a sync committee duty in slot 2. */
  ghost predicate MissesDuty(h: History) {
    && h.index == 7 && h.slotsPerEpoch == 1 && h.genesisBalance == 0
    && h.attestation(0) == AttestationReward(0, 0, 0)
    && h.blocks(1) == None && h.blocks(2) == Some(Block(8, 0, [], [SyncReward(7, -5)]))
  }

  lemma MissedDutyForgiven(h: History)
    requires MissesDuty(h)
    ensures ForgivenIn(LedgerOf(h), EpochStart(h, 1), EpochStart(h, 2)) == 5
  {
    var l := LedgerOf(h);
    assert l.steps(1) == [] && BalanceAt(h, 0) == 0 && BalanceAt(h, 1) == 0;
    var sync := [SyncReward(7, -5)];
    assert sync[1..] == [] && SyncDeltas(sync, 7) == [-5];
    var deltas: seq<int> := [0, 0, 0, -5];
    assert l.steps(2) == deltas;
    assert deltas[1..] == [0, 0, -5] && deltas[1..][1..] == [0, -5] && deltas[1..][1..][1..] == [-5];
    assert Forgiven(0, [-5]) == 5 by { assert [-5][1..] == []; }
    assert Forgiven(0, [0, -5]) == 5;
    assert Forgiven(0, [0, 0, -5]) == 5;
    assert EpochStart(h, 0) == 0 && EpochStart(h, 1) == 1 && EpochStart(h, 2) == 2;
    assert ForgivenIn(l, 1, 1) == 0;
  }

  lemma MissedNothing()
    ensures MissedReward(0, 0) == AttestationReward(0, 0, 0)
  {}

  /** At such an input the equation fails, because the debit takes nothing. */
  lemma EquationFails(h: History, start: nat, end: nat)
    requires MissesDuty(h) && start == EpochStart(h, 1) && end == EpochStart(h, 2)
    ensures BalanceAt(h, end) != BalanceAt(h, start) + RewardTotal(h.attestation(0)) + EpochChanges(h, 1)
  {
    MissedDutyForgiven(h);
    EpochEquation(h, 0);
    assert ForgivenIn(LedgerOf(h), start, end) == 5;
  }

  lemma SmallIsNoMultiple(n: int)
    requires 0 < n < TWO64
    ensures !IsMultiple(n)
  {}

  /** And so does the suite's check. */
  lemma SuiteCheckFails(h: History, start: nat, end: nat)
    requires MissesDuty(h) && start == EpochStart(h, 1) && end == EpochStart(h, 2)
    ensures !SuiteCheck(BalanceAt(h, start), 0, 0, ToInt64(EpochChanges(h, 1)), BalanceAt(h, end))
  {
    assert !IsMultiple(ForgivenIn(LedgerOf(h), start, end)) by {
      MissedDutyForgiven(h);
      SmallIsNoMultiple(ForgivenIn(LedgerOf(h), start, end));
    }
    MissedNothing();
    SuiteCheckHoldsIff(h, 0, 0, 0);
  }

  lemma SomeoneMissesDuty() returns (h: History)
    ensures MissesDuty(h)
  {
    var block := Block(8, 0, [], [SyncReward(7, -5)]);
    h := History(7, 1, 0, (slot: nat) => if slot == 2 then Some(block) else None,
                 (epoch: nat) => AttestationReward(0, 0, 0));
  }

  // ---- Chains of epochs ----

  function RewardsIn(h: History, first: nat, end: nat): int
    decreases end
  {
    if end <= first then 0 else RewardsIn(h, first, end - 1) + RewardTotal(h.attestation(end - 1))
  }

  function EpochChangesIn(h: History, first: nat, end: nat): int
    decreases end
  {
    if end <= first then 0 else EpochChangesIn(h, first, end - 1) + EpochChanges(h, end - 1)
  }

  /** The windows of consecutive epochs tile their slots: summed epoch by epoch,
      every block is counted once and none is missed. */
  lemma {:induction false} WindowsTile(h: History, first: nat, end: nat)
    requires first <= end
    ensures EpochChangesIn(h, first, end) == SumIn(Changes(h), EpochStart(h, first), EpochStart(h, end))
    decreases end
  {
    if first < end {
      WindowsTile(h, first, end - 1);
      EpochStartMonotone(h, first, end - 1);
      EpochStartMonotone(h, end - 1, end);
      SumInSplit(Changes(h), EpochStart(h, first), EpochStart(h, end - 1), EpochStart(h, end));
    }
  }

  lemma {:induction false} RewardsTile(h: History, first: nat, end: nat)
    requires h.slotsPerEpoch > 0 && first <= end
    ensures SumIn(Rewards(h), EpochStart(h, first + 1), EpochStart(h, end + 1)) == RewardsIn(h, first, end)
    decreases end
  {
    if first < end {
      var from, middle, to := EpochStart(h, first + 1), EpochStart(h, end), EpochStart(h, end + 1);
      RewardsTile(h, first, end - 1);
      EpochStartMonotone(h, first + 1, end);
      RewardsOfWindow(h, end - 1, middle, to);
      SumInSplit(Rewards(h), from, middle, to);
    }
  }

  /** The equation chained over any range of epochs: each epoch's rewards once, and
      each window's blocks once. */
  lemma RangeEquation(h: History, first: nat, end: nat)
    requires h.slotsPerEpoch > 0 && first <= end
    ensures var from, to := EpochStart(h, first + 1), EpochStart(h, end + 1);
            BalanceAt(h, to) == BalanceAt(h, from) + RewardsIn(h, first, end) + EpochChangesIn(h, first + 1, end + 1)
                              + ForgivenIn(LedgerOf(h), from, to)
  {
    RewardsTile(h, first, end);
    WindowsTile(h, first + 1, end + 1);
    EpochStartMonotone(h, first + 1, end + 1);
    BalanceMoves(h, EpochStart(h, first + 1), EpochStart(h, end + 1));
  }

  // ---- Reading the changes from a node ----

  /** What a beacon node answers for the block of a slot. */
  datatype Node = Node(
    operations: nat -> Read<Block>,
    blockRewards: nat -> Read<uint64>,
    syncRewards: nat -> Read<seq<SyncReward>>)

  function OwnSyncRewards(rewards: seq<SyncReward>, index: uint64): seq<SyncReward> {
    if |rewards| == 0 then []
    else if rewards[0].validatorIndex == index then [rewards[0]] + OwnSyncRewards(rewards[1..], index)
    else OwnSyncRewards(rewards[1..], index)
  }

  /** Any read may fail, but one that succeeds tells the truth. */
  ghost predicate Honest(node: Node, h: History) {
    && (forall slot: nat {:trigger node.operations(slot)} ::
          && (node.operations(slot).Found? ==> h.blocks(slot) == Some(node.operations(slot).value))
          && (node.operations(slot).NotFound? ==> h.blocks(slot) == None))
    && (forall slot: nat {:trigger node.blockRewards(slot)} :: node.blockRewards(slot).Found? ==>
          h.blocks(slot).Some? && node.blockRewards(slot).value == h.blocks(slot).value.proposerTotal)
    && (forall slot: nat {:trigger node.syncRewards(slot)} :: node.syncRewards(slot).Found? ==>
          h.blocks(slot).Some? && node.syncRewards(slot).value == OwnSyncRewards(h.blocks(slot).value.syncRewards, h.index))
  }

  /** The reads BlockBalanceChange makes at slot all succeed. */
  predicate Readable(node: Node, index: uint64, slot: nat) {
    match node.operations(slot)
    case Failed => false
    case NotFound => true
    case Found(block) => (block.proposerIndex == index ==> node.blockRewards(slot).Found?) && node.syncRewards(slot).Found?
  }

  lemma {:induction false} OwnRewardsSum(rewards: seq<SyncReward>, index: uint64)
    ensures SyncDeltas(OwnSyncRewards(rewards, index), index) == SyncDeltas(rewards, index)
    ensures forall reward :: reward in OwnSyncRewards(rewards, index) ==> reward.validatorIndex == index
  {
    if |rewards| > 0 {
      OwnRewardsSum(rewards[1..], index);
      var own := OwnSyncRewards(rewards, index);
      if rewards[0].validatorIndex == index {
        assert own[1..] == OwnSyncRewards(rewards[1..], index);
      } else {
        assert SyncDeltas(rewards, index) == SyncDeltas(rewards[1..], index);
      }
    }
  }

  method SubtractWithdrawals(withdrawals: seq<Withdrawal>, index: uint64, initial: int64, ghost exact: int)
    returns (change: int64)
    requires initial == ToInt64(exact)
    ensures change == ToInt64(exact + Sum(WithdrawalDeltas(withdrawals, index)))
  {
    change := initial;
    ghost var seen := exact;
    for i := 0 to |withdrawals|
      invariant change == ToInt64(seen)
      invariant seen + Sum(WithdrawalDeltas(withdrawals[i..], index))
             == exact + Sum(WithdrawalDeltas(withdrawals, index))
    {
      var withdrawal := withdrawals[i];
      SumConcat(Debit(withdrawal, index), WithdrawalDeltas(withdrawals[i + 1..], index));
      assert withdrawals[i..][1..] == withdrawals[i + 1..];
      if withdrawal.validatorIndex == index {
        ToInt64Sum(seen, withdrawal.amount);
        change := ToInt64(change - ToInt64(withdrawal.amount));
        seen := seen - withdrawal.amount;
      }
    }
  }

  method AddSyncRewards(rewards: seq<SyncReward>, index: uint64, initial: int64, ghost exact: int)
    returns (change: int64)
    requires initial == ToInt64(exact)
    requires forall reward :: reward in rewards ==> reward.validatorIndex == index
    ensures change == ToInt64(exact + Sum(SyncDeltas(rewards, index)))
  {
    change := initial;
    ghost var seen := exact;
    for i := 0 to |rewards|
      invariant change == ToInt64(seen)
      invariant seen + Sum(SyncDeltas(rewards[i..], index)) == exact + Sum(SyncDeltas(rewards, index))
    {
      assert rewards[i..][1..] == rewards[i + 1..];
      SumConcat(SyncDelta(rewards[i], index), SyncDeltas(rewards[i + 1..], index));
      ToInt64Sum(seen, rewards[i].reward);
      change := ToInt64(change + rewards[i].reward);
      seen := seen + rewards[i].reward;
    }
  }

  method BlockBalanceChange(node: Node, index: uint64, slot: nat, ghost h: History) returns (r: Option<int64>)
    requires Honest(node, h) && h.index == index
    ensures r.Some? <==> Readable(node, index, slot)
    ensures r.Some? ==> r.value == ToInt64(Changes(h)(slot))
  {
    var operations := node.operations(slot);
    if operations.NotFound? { return Some(0); }
    if operations.Failed? { return None; }
    var block := operations.value;
    var change: int64 := 0;
    if block.proposerIndex == index {
      var proposed := node.blockRewards(slot);
      if !proposed.Found? { return None; }
      ToInt64Adds(0, proposed.value);
      change := ToInt64(change + ToInt64(proposed.value));
    }
    ghost var proposal: seq<int> := if block.proposerIndex == index then [block.proposerTotal] else [];
    assert change == ToInt64(Sum(proposal));
    change := SubtractWithdrawals(block.withdrawals, index, change, Sum(proposal));
    var rewards := node.syncRewards(slot);
    if !rewards.Found? { return None; }
    OwnRewardsSum(block.syncRewards, index);
    change := AddSyncRewards(rewards.value, index, change, Sum(proposal) + Sum(WithdrawalDeltas(block.withdrawals, index)));
    SumConcat(WithdrawalDeltas(block.withdrawals, index) + proposal, SyncDeltas(block.syncRewards, index));
    SumConcat(WithdrawalDeltas(block.withdrawals, index), proposal);
    return Some(change);
  }

  /** What `BlockBalanceChanges` comes to: a sum, a failed read, or no end, where the
      counter can never get past the last slot. */
  datatype Reading = Total(change: int64) | Unreadable | Endless

  /** The bounds of the window as the code computes them. */
  lemma WindowBounds(h: History, epoch: nat)
    ensures Wrap(Wrap(Mul(epoch, h.slotsPerEpoch)) + h.slotsPerEpoch) == Wrap(EpochStart(h, epoch + 1))
    ensures Wrap(Wrap(Mul(epoch, h.slotsPerEpoch)) + 1) == Wrap(EpochStart(h, epoch) + 1)
    ensures EpochStart(h, epoch + 1) < TWO64 ==>
      Wrap(Mul(epoch, h.slotsPerEpoch)) == EpochStart(h, epoch) && Wrap(EpochStart(h, epoch + 1)) == EpochStart(h, epoch + 1)
  {
    EpochStartIsProduct(h, epoch);
    WrapAdds(Mul(epoch, h.slotsPerEpoch), h.slotsPerEpoch);
    WrapAdds(Mul(epoch, h.slotsPerEpoch), 1);
    if EpochStart(h, epoch + 1) < TWO64 {
      WrapFits(EpochStart(h, epoch));
      WrapFits(EpochStart(h, epoch + 1));
    }
  }

  /** The slots the loop comes to, unless a read fails. If the last one is the last
      uint64, the counter goes round through all of them. */
  predicate InLoop(first: uint64, last: uint64, slot: uint64) {
    last == TWO64 - 1 || first <= slot <= last
  }

  predicate LoopReadable(node: Node, index: uint64, first: uint64, last: uint64) {
    forall slot: uint64 :: InLoop(first, last, slot) ==> Readable(node, index, slot)
  }

  /** Over the slots from first through last. */
  function SumFrom(f: nat -> int, first: nat, last: int): int
    decreases last
  {
    if last < first then 0 else SumFrom(f, first, last - 1) + f(last)
  }

  lemma {:induction false} SumFromIs(f: nat -> int, after: nat, last: nat)
    ensures SumFrom(f, after + 1, last) == SumIn(f, after, last)
    decreases last
  {
    if after < last {
      SumFromIs(f, after, last - 1);
    }
  }

  predicate TurnsReadable(node: Node, index: uint64, first: uint64, turns: nat) {
    forall k: nat :: k < turns ==> Readable(node, index, Counter(first, k))
  }

  lemma AllReadable(node: Node, index: uint64, first: uint64)
    requires TurnsReadable(node, index, first, TWO64)
    ensures forall slot: uint64 :: Readable(node, index, slot)
  {
    forall slot: uint64
      ensures Readable(node, index, slot)
    {
      assert Counter(first, TurnsTo(first, slot)) == slot;
    }
  }

  lemma LoopDone(node: Node, index: uint64, first: uint64, last: uint64, turns: nat)
    requires TurnsReadable(node, index, first, turns) && last < first + turns <= TWO64
    ensures LoopReadable(node, index, first, last) || last == TWO64 - 1
  {
    if last < TWO64 - 1 {
      forall slot: uint64 | InLoop(first, last, slot)
        ensures Readable(node, index, slot)
      {
        assert Counter(first, slot - first) == slot;
      }
    }
  }

  /** Short of the last uint64, the counter does not wrap, and the sum is of the slots
      behind it. */
  ghost predicate SumSoFar(h: History, first: uint64, last: uint64, turns: nat, change: int64) {
    last < TWO64 - 1 ==>
      && (turns == 0 || first + turns <= last + 1)
      && change == ToInt64(SumFrom(Changes(h), first, first + turns - 1))
  }

  lemma SumDone(h: History, first: uint64, last: uint64, turns: nat, change: int64)
    requires SumSoFar(h, first, last, turns, change) && turns <= TWO64 && last < Counter(first, turns)
    ensures last < TWO64 - 1 && last < first + turns <= TWO64
    ensures change == ToInt64(SumFrom(Changes(h), first, last))
  {
    if first + turns < TWO64 {
      WrapFits(first + turns);
    }
    if turns == 0 {
      assert SumFrom(Changes(h), first, first - 1) == 0 == SumFrom(Changes(h), first, last);
    }
  }

  lemma SumOneMore(h: History, first: uint64, last: uint64, turns: nat, change: int64, next: int64)
    requires SumSoFar(h, first, last, turns, change) && Counter(first, turns) <= last
    requires next == ToInt64(Changes(h)(Counter(first, turns)))
    ensures SumSoFar(h, first, last, turns + 1, ToInt64(change + next))
  {
    if last < TWO64 - 1 {
      WrapFits(first + turns);
      ToInt64Adds(SumFrom(Changes(h), first, first + turns - 1), Changes(h)(first + turns));
    }
  }

  /** The loop: it ends with the int64 sum of the changes of its slots, or at a read that
      fails, or, through the whole round of uint64s, not at all. */
  method SumChanges(node: Node, index: uint64, start: uint64, last: uint64, ghost h: History) returns (r: Reading)
    requires Honest(node, h) && h.index == index
    ensures r.Unreadable? <==> !LoopReadable(node, index, Wrap(start + 1), last)
    ensures r.Endless? <==> LoopReadable(node, index, Wrap(start + 1), last) && last == TWO64 - 1
    ensures r.Total? ==> r.change == ToInt64(SumFrom(Changes(h), Wrap(start + 1), last))
  {
    var change: int64 := 0;
    var first := Wrap(start + 1);
    var slot := first;
    var turns := 0;
    while slot <= last
      invariant turns <= TWO64 && slot == Counter(first, turns)
      invariant TurnsReadable(node, index, first, turns)
      invariant SumSoFar(h, first, last, turns, change)
      decreases TWO64 - turns
    {
      if turns == TWO64 {
        AllReadable(node, index, first);
        return Endless;
      }
      var blockChange := BlockBalanceChange(node, index, slot, h);
      if blockChange.None? {
        assert InLoop(first, last, slot);
        return Unreadable;
      }
      SumOneMore(h, first, last, turns, change, blockChange.value);
      change := ToInt64(change + blockChange.value);
      CounterStep(first, turns);
      slot := Wrap(slot + 1);
      turns := turns + 1;
    }
    SumDone(h, first, last, turns, change);
    LoopDone(node, index, first, last, turns);
    return Total(change);
  }

  /** Where the window fits, the loop is over exactly its blocks. */
  lemma LoopIsWindow(node: Node, index: uint64, h: History, start: nat, end: nat)
    requires start <= end < TWO64 - 1
    ensures LoopReadable(node, index, Wrap(start + 1), Wrap(end))
       <==> forall slot :: start < slot <= end ==> Readable(node, index, slot)
    ensures SumFrom(Changes(h), Wrap(start + 1), Wrap(end)) == SumIn(Changes(h), start, end)
  {
    WrapFits(start + 1);
    WrapFits(end);
    SumFromIs(Changes(h), start, end);
    forall slot: nat | start < slot <= end && LoopReadable(node, index, start + 1, end)
      ensures Readable(node, index, slot)
    {
      assert InLoop(start + 1, end, slot);
    }
  }

  /** Where the window fits, it is the one promised, and the sum is over exactly its
      blocks. */
  method BlockBalanceChanges(node: Node, index: uint64, slotsPerEpoch: uint64, epoch: uint64, ghost h: History)
    returns (r: Reading)
    requires Honest(node, h) && h.index == index && h.slotsPerEpoch == slotsPerEpoch
    ensures
      var first, last := Wrap(EpochStart(h, epoch) + 1), Wrap(EpochStart(h, epoch + 1));
      && (r.Unreadable? <==> !LoopReadable(node, index, first, last))
      && (r.Endless? <==> LoopReadable(node, index, first, last) && last == TWO64 - 1)
      && (r.Total? ==> r.change == ToInt64(SumFrom(Changes(h), first, last)))
    ensures EpochStart(h, epoch + 1) < TWO64 - 1 ==>
      && (r.Total? <==> forall slot :: EpochStart(h, epoch) < slot <= EpochStart(h, epoch + 1) ==> Readable(node, index, slot))
      && (r.Total? ==> r.change == ToInt64(EpochChanges(h, epoch)))
  {
    var start := Wrap(Mul(epoch, slotsPerEpoch));
    var last := Wrap(start + slotsPerEpoch);
    WindowBounds(h, epoch);
    r := SumChanges(node, index, start, last, h);
    if EpochStart(h, epoch + 1) < TWO64 - 1 {
      LoopIsWindow(node, index, h, EpochStart(h, epoch), EpochStart(h, epoch + 1));
    }
  }
}
