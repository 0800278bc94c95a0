/** The operation scanner and the withdrawal accounting of `ExpectExitAndWithdrawal`
    (staking.go): polled with any reads failing, over a chain with empty slots. */
module Staking {
  import opened MachineInts
  import opened Seqs
  import opened Wrappers

  type Address = nat

  datatype Withdrawal = Withdrawal(validatorIndex: uint64, address: Address, amount: uint64)

  datatype Operations = Operations(executionBlock: uint64, voluntaryExits: seq<uint64>, withdrawals: seq<Withdrawal>)

  /** The canonical chain: the block of each slot, if it has one. */
  type Chain = nat -> Option<Operations>

  /** The slot a counter stands at after it has come so far. */
  function SlotAt(reached: nat): uint64 {
    if reached < TWO64 then reached else SlotAt(reached - TWO64)
  }

  function Next(slot: uint64): uint64 {
    if slot == TWO64 - 1 then 0 else slot + 1
  }

  lemma {:induction false} SlotAtStep(reached: nat)
    ensures SlotAt(reached + 1) == Next(SlotAt(reached))
  {
    if reached >= TWO64 {
      SlotAtStep(reached - TWO64);
    }
  }

  function Served(chain: Chain, reached: nat): Option<Operations> {
    chain(SlotAt(reached))
  }

  /** Past the last uint64 the chain is read over from slot 0. */
  ghost predicate GoesRound(chain: Chain) {
    forall reached: nat {:trigger Served(chain, reached)} :: Served(chain, reached) == chain(reached)
  }

  datatype Record = Record(status: string, effectiveBalance: uint64)

  // ---- What is in the chain ----

  /** The slots after `after` through `last` that have a block, in order. */
  function BlockSlots(chain: Chain, after: nat, last: nat): seq<nat>
    decreases last
  {
    if last <= after then []
    else BlockSlots(chain, after, last - 1) + (if chain(last).Some? then [last] else [])
  }

  /** Each block is there once, in order. */
  lemma {:induction false} BlockSlotsOnce(chain: Chain, after: nat, last: nat)
    ensures forall slot :: slot in BlockSlots(chain, after, last) <==> after < slot <= last && chain(slot).Some?
    ensures forall i, j :: 0 <= i < j < |BlockSlots(chain, after, last)| ==>
      BlockSlots(chain, after, last)[i] < BlockSlots(chain, after, last)[j]
    decreases last
  {
    if after < last {
      BlockSlotsOnce(chain, after, last - 1);
      var before := BlockSlots(chain, after, last - 1);
      assert forall i :: 0 <= i < |before| ==> before[i] in before && before[i] < last;
    }
  }

  function Own(withdrawals: seq<Withdrawal>, index: uint64): seq<Withdrawal> {
    if |withdrawals| == 0 then []
    else Own(withdrawals[..|withdrawals| - 1], index)
         + (if withdrawals[|withdrawals| - 1].validatorIndex == index then [withdrawals[|withdrawals| - 1]] else [])
  }

  function WithdrawalsAt(chain: Chain, slot: nat): seq<Withdrawal> {
    match chain(slot) case None => [] case Some(operations) => operations.withdrawals
  }

  predicate ExitsAt(chain: Chain, slot: nat, index: uint64) {
    chain(slot).Some? && index in chain(slot).value.voluntaryExits
  }

  /** The validator's withdrawals in the slots after `after` through `last`. */
  function OwnIn(chain: Chain, index: uint64, after: nat, last: nat): seq<Withdrawal>
    decreases last
  {
    if last <= after then [] else OwnIn(chain, index, after, last - 1) + Own(WithdrawalsAt(chain, last), index)
  }

  ghost predicate ExitsIn(chain: Chain, index: uint64, after: nat, last: nat) {
    exists slot: nat :: after < slot <= last && ExitsAt(chain, slot, index)
  }

  lemma ExitsInStep(chain: Chain, index: uint64, after: nat, last: nat)
    requires after < last
    ensures ExitsIn(chain, index, after, last)
       <==> ExitsIn(chain, index, after, last - 1) || ExitsAt(chain, last, index)
  {
    if ExitsIn(chain, index, after, last) && !ExitsAt(chain, last, index) {
      var slot: nat :| after < slot <= last && ExitsAt(chain, slot, index);
      assert after < slot <= last - 1;
    }
  }

  /** The execution block of the last block not after `last`, or the one to start from. */
  function LastBlockIn(chain: Chain, initial: uint64, after: nat, last: nat): uint64
    decreases last
  {
    if last <= after then initial
    else match chain(last) case Some(operations) => operations.executionBlock
         case None => LastBlockIn(chain, initial, after, last - 1)
  }

  // ---- The recipient's wallet ----

  function PaidTo(withdrawals: seq<Withdrawal>, recipient: Address): nat {
    if |withdrawals| == 0 then 0
    else PaidTo(withdrawals[..|withdrawals| - 1], recipient)
         + (if withdrawals[|withdrawals| - 1].address == recipient then withdrawals[|withdrawals| - 1].amount else 0)
  }

  /** An amount of shor in planck. */
  function Planck(shor: nat, amount: int): int {
    shor * amount
  }

  lemma PlanckAdds(shor: nat, a: int, b: int)
    ensures Planck(shor, a + b) == Planck(shor, a) + Planck(shor, b)
    ensures Planck(shor, a - b) == Planck(shor, a) - Planck(shor, b)
  {}

  /** The recipient's account, block by block: withdrawals in shor, at `shor` planck
      each, and whatever else moves the account in that block. */
  datatype Wallet = Wallet(recipient: Address, shor: nat, genesis: int, other: nat -> int)

  function BalanceAtSlot(wallet: Wallet, chain: Chain, slot: nat): int {
    if slot == 0 then wallet.genesis
    else BalanceAtSlot(wallet, chain, slot - 1)
         + (if chain(slot).Some?
            then Planck(wallet.shor, PaidTo(WithdrawalsAt(chain, slot), wallet.recipient)) + wallet.other(slot)
            else 0)
  }

  /** What reaches the recipient after `after` through `last` from anything but this
      validator, in planck. */
  function ForeignIn(wallet: Wallet, chain: Chain, index: uint64, after: nat, last: nat): int
    decreases last
  {
    if last <= after then 0
    else ForeignIn(wallet, chain, index, after, last - 1)
         + (if chain(last).Some? then
              Planck(wallet.shor, PaidTo(WithdrawalsAt(chain, last), wallet.recipient)
                                  - PaidTo(Own(WithdrawalsAt(chain, last), index), wallet.recipient))
              + wallet.other(last)
            else 0)
  }

  lemma {:induction false} PaidToConcat(a: seq<Withdrawal>, b: seq<Withdrawal>, recipient: Address)
    ensures PaidTo(a + b, recipient) == PaidTo(a, recipient) + PaidTo(b, recipient)
  {
    if |b| == 0 {
      assert a + b == a;
    } else {
      assert (a + b)[..|a + b| - 1] == a + b[..|b| - 1];
      PaidToConcat(a, b[..|b| - 1], recipient);
    }
  }

  /** One slot's gain is this validator's payment plus the rest. */
  lemma GainOfSlot(wallet: Wallet, chain: Chain, index: uint64, slot: nat)
    requires slot > 0
    ensures BalanceAtSlot(wallet, chain, slot) - BalanceAtSlot(wallet, chain, slot - 1)
         == Planck(wallet.shor, PaidTo(Own(WithdrawalsAt(chain, slot), index), wallet.recipient))
            + ForeignIn(wallet, chain, index, slot - 1, slot)
  {
    var paid := PaidTo(WithdrawalsAt(chain, slot), wallet.recipient);
    var own := PaidTo(Own(WithdrawalsAt(chain, slot), index), wallet.recipient);
    assert ForeignIn(wallet, chain, index, slot - 1, slot - 1) == 0;
    if chain(slot).None? {
      assert own == 0 && Planck(wallet.shor, 0) == 0;
    } else {
      PlanckAdds(wallet.shor, paid, own);
    }
  }

  lemma {:induction false} ForeignSplit(wallet: Wallet, chain: Chain, index: uint64, after: nat, last: nat)
    requires after < last
    ensures ForeignIn(wallet, chain, index, after, last)
         == ForeignIn(wallet, chain, index, after, last - 1) + ForeignIn(wallet, chain, index, last - 1, last)
  {
    assert ForeignIn(wallet, chain, index, last - 1, last - 1) == 0;
  }

  /** The recipient's gain over any slots is what this validator's withdrawals paid
      plus what came from elsewhere. */
  lemma {:induction false} GainSplits(wallet: Wallet, chain: Chain, index: uint64, after: nat, last: nat)
    requires after <= last
    ensures BalanceAtSlot(wallet, chain, last) - BalanceAtSlot(wallet, chain, after)
         == Planck(wallet.shor, PaidTo(OwnIn(chain, index, after, last), wallet.recipient))
            + ForeignIn(wallet, chain, index, after, last)
    decreases last
  {
    if after < last {
      var before, own := OwnIn(chain, index, after, last - 1), Own(WithdrawalsAt(chain, last), index);
      GainSplits(wallet, chain, index, after, last - 1);
      GainOfSlot(wallet, chain, index, last);
      ForeignSplit(wallet, chain, index, after, last);
      PaidToConcat(before, own, wallet.recipient);
      PlanckAdds(wallet.shor, PaidTo(before, wallet.recipient), PaidTo(own, wallet.recipient));
    }
  }

  /** Empty slots leave the account alone, so the wallet at the last visited block is
      the wallet at the last scanned slot. */
  lemma {:induction false} WalletAtLastBlock(wallet: Wallet, chain: Chain, initial: uint64, after: nat, last: nat)
    requires after <= last && chain(after).Some? && chain(after).value.executionBlock == initial
    ensures exists slot: nat :: (
      && after <= slot <= last && chain(slot).Some?
      && chain(slot).value.executionBlock == LastBlockIn(chain, initial, after, last)
      && BalanceAtSlot(wallet, chain, slot) == BalanceAtSlot(wallet, chain, last))
    decreases last
  {
    if after < last && chain(last).None? {
      WalletAtLastBlock(wallet, chain, initial, after, last - 1);
    }
  }

  // ---- Polling ----

  /** What one poll sees of the beacon node and the execution node. */
  datatype Poll = Poll(
    head: Read<uint64>,
    operations: uint64 -> Read<Operations>,
    record: Read<Record>,
    balance: uint64 -> Read<int>)

  /** Any read may fail, but one that succeeds tells the truth. */
  ghost predicate Honest(poll: Poll, chain: Chain, wallet: Wallet) {
    && (forall slot: uint64 {:trigger poll.operations(slot)} ::
          match poll.operations(slot)
          case Failed => true
          case NotFound => chain(slot) == None
          case Found(operations) => chain(slot) == Some(operations))
    && (forall slot: uint64 {:trigger chain(slot)} :: chain(slot).Some? ==>
          var read := poll.balance(chain(slot).value.executionBlock);
          read.Found? ==> read.value == BalanceAtSlot(wallet, chain, slot))
  }

  /** What a scan comes to. It has no end where the head is the last uint64, which the
      counter never gets past, and no read fails. */
  datatype ScanResult = Done | Broken | Endless

  datatype Outcome = ReadFailed | ExitMissing | WrongRecipient | NotWithdrawn | StakeNotCovered | GainMismatch | Passed | NoEnd

  function Total(withdrawals: seq<Withdrawal>): nat {
    if |withdrawals| == 0 then 0
    else Total(withdrawals[..|withdrawals| - 1]) + withdrawals[|withdrawals| - 1].amount
  }

  predicate AllTo(withdrawals: seq<Withdrawal>, recipient: Address) {
    forall k :: 0 <= k < |withdrawals| ==> withdrawals[k].address == recipient
  }

  lemma {:induction false} AllPaid(withdrawals: seq<Withdrawal>, recipient: Address)
    requires AllTo(withdrawals, recipient)
    ensures PaidTo(withdrawals, recipient) == Total(withdrawals)
  {
    if |withdrawals| > 0 {
      AllPaid(withdrawals[..|withdrawals| - 1], recipient);
    }
  }

  /** On balance nothing but this validator's withdrawals reached the recipient after
      `after` through `last`; past 2^64 shor, exactly what the wrapped sum lost. */
  predicate NoNetForeign(chain: Chain, wallet: Wallet, index: uint64, after: nat, last: nat) {
    var total := Total(OwnIn(chain, index, after, last));
    ForeignIn(wallet, chain, index, after, last) == Planck(wallet.shor, Wrap(total) - total)
  }

  lemma LostToWrap(shor: nat, total: nat)
    requires total < TWO64
    ensures Planck(shor, Wrap(total) - total) == 0
  {}

  /** Below 2^64 shor, the rule is that what came from elsewhere was spent again. */
  lemma NoNetForeignIff(chain: Chain, wallet: Wallet, index: uint64, after: nat, last: nat)
    requires Total(OwnIn(chain, index, after, last)) < TWO64
    ensures NoNetForeign(chain, wallet, index, after, last) <==> ForeignIn(wallet, chain, index, after, last) == 0
  {
    LostToWrap(wallet.shor, Total(OwnIn(chain, index, after, last)));
  }

  // ---- A wallet that does not spend ----

  predicate IsForeign(withdrawal: Withdrawal, index: uint64, recipient: Address) {
    withdrawal.validatorIndex != index && withdrawal.address == recipient && withdrawal.amount > 0
  }

  /** Something other than this validator paid the recipient in the block at slot. */
  predicate ForeignAt(wallet: Wallet, chain: Chain, index: uint64, slot: nat) {
    && chain(slot).Some?
    && (wallet.other(slot) != 0
        || exists k :: 0 <= k < |WithdrawalsAt(chain, slot)|
                       && IsForeign(WithdrawalsAt(chain, slot)[k], index, wallet.recipient))
  }

  lemma {:induction false} ForeignWithdrawals(withdrawals: seq<Withdrawal>, index: uint64, recipient: Address)
    ensures PaidTo(Own(withdrawals, index), recipient) <= PaidTo(withdrawals, recipient)
    ensures PaidTo(Own(withdrawals, index), recipient) == PaidTo(withdrawals, recipient)
       <==> forall k :: 0 <= k < |withdrawals| ==> !IsForeign(withdrawals[k], index, recipient)
  {
    if |withdrawals| > 0 {
      var front, last := withdrawals[..|withdrawals| - 1], withdrawals[|withdrawals| - 1];
      ForeignWithdrawals(front, index, recipient);
      if last.validatorIndex == index {
        PaidToConcat(Own(front, index), [last], recipient);
        assert [last][..0] == [];
        assert PaidTo([last], recipient) == if last.address == recipient then last.amount else 0;
      } else {
        assert Own(withdrawals, index) == Own(front, index);
      }
      assert forall k :: 0 <= k < |front| ==> front[k] == withdrawals[k];
    }
  }

  lemma PlanckSign(shor: nat, amount: nat)
    requires shor > 0
    ensures Planck(shor, amount) >= 0 && (Planck(shor, amount) == 0 <==> amount == 0)
  {}

  /** The flow of one slot from elsewhere, in planck. */
  lemma ForeignFlow(wallet: Wallet, chain: Chain, index: uint64, slot: nat)
    requires wallet.shor > 0 && slot > 0 && (chain(slot).Some? ==> wallet.other(slot) >= 0)
    ensures ForeignIn(wallet, chain, index, slot - 1, slot) >= 0
    ensures ForeignIn(wallet, chain, index, slot - 1, slot) == 0 <==> !ForeignAt(wallet, chain, index, slot)
  {
    assert ForeignIn(wallet, chain, index, slot - 1, slot - 1) == 0;
    if chain(slot).Some? {
      var all := WithdrawalsAt(chain, slot);
      ForeignWithdrawals(all, index, wallet.recipient);
      PlanckSign(wallet.shor, PaidTo(all, wallet.recipient) - PaidTo(Own(all, index), wallet.recipient));
    }
  }

  lemma {:induction false} ForeignFlows(wallet: Wallet, chain: Chain, index: uint64, after: nat, last: nat)
    requires wallet.shor > 0
    requires forall slot: nat :: after < slot <= last && chain(slot).Some? ==> wallet.other(slot) >= 0
    ensures ForeignIn(wallet, chain, index, after, last) >= 0
    ensures ForeignIn(wallet, chain, index, after, last) == 0
       <==> forall slot: nat :: after < slot <= last ==> !ForeignAt(wallet, chain, index, slot)
    decreases last
  {
    if after < last {
      ForeignFlows(wallet, chain, index, after, last - 1);
      ForeignSplit(wallet, chain, index, after, last);
      ForeignFlow(wallet, chain, index, last);
    }
  }

  /** For a recipient that spends nothing meanwhile, and below 2^64 shor, the comparison's
      rule is that no block of the window holds a payment from anywhere else. */
  lemma NothingForeignIff(chain: Chain, wallet: Wallet, index: uint64, after: nat, last: nat)
    requires wallet.shor > 0 && Total(OwnIn(chain, index, after, last)) < TWO64
    requires forall slot: nat :: after < slot <= last && chain(slot).Some? ==> wallet.other(slot) >= 0
    ensures NoNetForeign(chain, wallet, index, after, last)
       <==> forall slot: nat :: after < slot <= last ==> !ForeignAt(wallet, chain, index, slot)
  {
    NoNetForeignIff(chain, wallet, index, after, last);
    ForeignFlows(wallet, chain, index, after, last);
  }

  /** For one that spends, a payment can hide: another validator pays 5 shor, and the
      recipient spends as much in the same block. */
  lemma OffsetPaymentHides(shor: nat) returns (chain: Chain, wallet: Wallet)
    ensures NoNetForeign(chain, wallet, 7, 0, 1) && ForeignAt(wallet, chain, 7, 1)
  {
    var foreign := Withdrawal(8, 1, 5);
    chain := (slot: nat) => if slot == 1 then Some(Operations(1, [], [foreign])) else None;
    wallet := Wallet(1, shor, 0, (slot: nat) => 0 - Planck(shor, 5));
    var all := WithdrawalsAt(chain, 1);
    assert all == [foreign] && all[..0] == [];
    assert IsForeign(all[0], 7, 1);
    assert Own(all, 7) == [] && PaidTo(all, 1) == 5;
    assert OwnIn(chain, 7, 0, 1) == [];
    assert ForeignIn(wallet, chain, 7, 0, 0) == 0;
    NoNetForeignIff(chain, wallet, 7, 0, 1);
  }

  /** In the slots after `after` through `last` the exit was included, every withdrawal
      went to the recipient, and they cover the stake. */
  ghost predicate Covered(chain: Chain, recipient: Address, index: uint64, effectiveBalance: uint64, after: nat, last: nat) {
    var own := OwnIn(chain, index, after, last);
    ExitsIn(chain, index, after, last) && AllTo(own, recipient) && Wrap(Total(own)) >= effectiveBalance
  }

  /** And on balance the recipient gained nothing else. */
  ghost predicate Settled(chain: Chain, wallet: Wallet, index: uint64, effectiveBalance: uint64, after: nat, last: nat) {
    Covered(chain, wallet.recipient, index, effectiveBalance, after, last) && NoNetForeign(chain, wallet, index, after, last)
  }

  /** The counter came from `first` to `slot`, past the last uint64 or not, without a
      read that failed. */
  predicate Scanned(poll: Poll, first: uint64, slot: uint64, wrapped: bool) {
    forall s: uint64 {:trigger poll.operations(s)} ::
      (if wrapped then first < s || s <= slot else first < s <= slot) ==> !poll.operations(s).Failed?
  }

  /** The operation scanner together with what its callback collects. */
  class ExitWatch {
    const index: uint64
    const effectiveBalance: uint64
    const recipient: Address
    const shor: nat
    const startSlot: uint64
    const startBlock: uint64
    const balanceBefore: int
    var lastSlot: uint64
    var lastBlock: uint64
    var exitIncluded: bool
    var withdrawals: seq<Withdrawal>
    /** How far the slot counter has come; `lastSlot`, unless it went round. */
    ghost var reached: nat
    /** The slots whose block has been visited, in the order of the visits. */
    ghost var visited: seq<nat>

    constructor (index: uint64, effectiveBalance: uint64, recipient: Address, shor: nat,
                 headSlot: uint64, headBlock: uint64, balanceBefore: int)
      ensures this.index == index && this.effectiveBalance == effectiveBalance
      ensures this.recipient == recipient && this.shor == shor
      ensures startSlot == headSlot && startBlock == headBlock && this.balanceBefore == balanceBefore
      ensures lastSlot == headSlot == reached && lastBlock == headBlock
      ensures !exitIncluded && withdrawals == [] && visited == []
    {
      this.index, this.effectiveBalance, this.recipient, this.shor := index, effectiveBalance, recipient, shor;
      startSlot, startBlock, this.balanceBefore := headSlot, headBlock, balanceBefore;
      lastSlot, lastBlock, exitIncluded, withdrawals := headSlot, headBlock, false, [];
      reached, visited := headSlot, [];
    }

    /** At every moment between scans, failed ones included: each block after the
        start was visited exactly once and in order, and what was collected is what
        those blocks hold. */
    ghost predicate Valid(chain: Chain)
      reads this
    {
      && startSlot <= reached && lastSlot == SlotAt(reached)
      && chain(startSlot).Some? && chain(startSlot).value.executionBlock == startBlock
      && visited == BlockSlots(chain, startSlot, reached)
      && lastBlock == LastBlockIn(chain, startBlock, startSlot, reached)
      && withdrawals == OwnIn(chain, index, startSlot, reached)
      && (exitIncluded <==> ExitsIn(chain, index, startSlot, reached))
    }

    method Visit(operations: Operations)
      modifies this`exitIncluded, this`withdrawals
      ensures exitIncluded <==> old(exitIncluded) || index in operations.voluntaryExits
      ensures withdrawals == old(withdrawals) + Own(operations.withdrawals, index)
    {
      for k := 0 to |operations.voluntaryExits|
        invariant exitIncluded <==> old(exitIncluded) || index in operations.voluntaryExits[..k]
        invariant withdrawals == old(withdrawals)
      {
        exitIncluded := exitIncluded || operations.voluntaryExits[k] == index;
      }
      for k := 0 to |operations.withdrawals|
        invariant withdrawals == old(withdrawals) + Own(operations.withdrawals[..k], index)
        invariant exitIncluded <==> old(exitIncluded) || index in operations.voluntaryExits
      {
        assert operations.withdrawals[..k + 1][..k] == operations.withdrawals[..k];
        if operations.withdrawals[k].validatorIndex == index {
          withdrawals := withdrawals + [operations.withdrawals[k]];
        }
      }
      assert operations.withdrawals[..|operations.withdrawals|] == operations.withdrawals;
    }

    /** One slot's turn in the loop of `scan`; false if its read fails. */
    method ScanSlot(slot: uint64, read: Read<Operations>, ghost chain: Chain) returns (ok: bool)
      requires Valid(chain) && slot == SlotAt(reached + 1)
      requires read.NotFound? ==> chain(reached + 1) == None
      requires read.Found? ==> chain(reached + 1) == Some(read.value)
      modifies this
      ensures Valid(chain) && ok == !read.Failed?
      ensures reached == if ok then old(reached) + 1 else old(reached)
      ensures lastSlot == if ok then slot else old(lastSlot)
    {
      if read.Failed? { return false; }
      ExitsInStep(chain, index, startSlot, reached + 1);
      if read.Found? {
        Visit(read.value);
        lastBlock := read.value.executionBlock;
        visited := visited + [reached + 1];
      }
      lastSlot := slot;
      reached := reached + 1;
      return true;
    }

    method Scan(poll: Poll, ghost chain: Chain, ghost wallet: Wallet) returns (r: ScanResult)
      requires GoesRound(chain) && Valid(chain) && Honest(poll, chain, wallet)
      modifies this
      ensures Valid(chain) && old(reached) <= reached
      ensures r == Done <==> poll.head.Found? && poll.head.value < Next(lastSlot)
      // A scan that ends short of the head does so only at a read that failed.
      ensures r == Broken <==>
        !poll.head.Found? || (Next(lastSlot) <= poll.head.value && poll.operations(Next(lastSlot)).Failed?)
      ensures r == Endless <==>
        poll.head == Read.Found(TWO64 - 1) && forall slot :: !poll.operations(slot).Failed?
      ensures !poll.head.Found? ==> reached == old(reached)
      ensures poll.head.Found? && poll.head.value < TWO64 - 1 && old(reached) < TWO64 - 1 ==>
        reached < TWO64 - 1 && (reached == old(reached) || reached <= poll.head.value)
    {
      if !poll.head.Found? { return Broken; }
      var slot, first, wrapped := Next(lastSlot), lastSlot, false;
      while slot <= poll.head.value
        invariant Valid(chain) && slot == Next(lastSlot) && Scanned(poll, first, lastSlot, wrapped)
        invariant if wrapped then old(reached) <= reached && lastSlot <= first
                  else 0 <= reached - old(reached) == lastSlot - first
        invariant wrapped && (first < TWO64 - 1 || lastSlot == first) ==> poll.head.value == TWO64 - 1
        invariant lastSlot == first || lastSlot <= poll.head.value
        decreases !wrapped, TWO64 - lastSlot
      {
        if wrapped && lastSlot == first {
          return Endless;
        }
        SlotAtStep(reached);
        assert Served(chain, reached + 1) == chain(slot);
        var ok := ScanSlot(slot, poll.operations(slot), chain);
        if !ok { return Broken; }
        wrapped := wrapped || slot == 0;
        slot := Next(slot);
      }
      return Done;
    }

    /** At every reachable state the recipient has gained what the collected
        withdrawals paid it, plus what came from elsewhere. */
    lemma GainMatchesCollected(chain: Chain, wallet: Wallet)
      requires Valid(chain) && wallet.recipient == recipient && wallet.shor == shor
      ensures BalanceAtSlot(wallet, chain, reached) - BalanceAtSlot(wallet, chain, startSlot)
           == Planck(shor, PaidTo(withdrawals, recipient)) + ForeignIn(wallet, chain, index, startSlot, reached)
    {
      GainSplits(wallet, chain, index, startSlot, reached);
    }

    lemma GainDecides(chain: Chain, wallet: Wallet, withdrawnShor: uint64, balanceAfter: int)
      requires Valid(chain) && wallet.recipient == recipient && wallet.shor == shor
      requires balanceBefore == BalanceAtSlot(wallet, chain, startSlot)
      requires balanceAfter == BalanceAtSlot(wallet, chain, reached)
      requires AllTo(withdrawals, recipient) && withdrawnShor == Wrap(Total(withdrawals))
      ensures balanceAfter - balanceBefore == Planck(shor, withdrawnShor)
         <==> NoNetForeign(chain, wallet, index, startSlot, reached)
    {
      GainMatchesCollected(chain, wallet);
      AllPaid(withdrawals, recipient);
      PlanckAdds(shor, withdrawnShor, Total(withdrawals));
    }

    /** This poll's head is scanned, and its other reads say that all is done. */
    predicate Agrees(poll: Poll)
      reads this`lastSlot, this`lastBlock
    {
      && poll.head.Found? && poll.head.value < Next(lastSlot)
      && poll.record.Found? && poll.record.value.status == "withdrawal_done"
      && poll.balance(lastBlock).Found?
    }

    lemma CheckDecides(poll: Poll, chain: Chain, wallet: Wallet)
      requires Valid(chain) && Honest(poll, chain, wallet) && reached < TWO64
      requires wallet.recipient == recipient && wallet.shor == shor
      requires balanceBefore == BalanceAtSlot(wallet, chain, startSlot)
      ensures Agrees(poll) && Covered(chain, recipient, index, effectiveBalance, startSlot, reached) ==>
        (poll.balance(lastBlock).value - balanceBefore == Planck(shor, Wrap(Total(withdrawals)))
         <==> NoNetForeign(chain, wallet, index, startSlot, reached))
    {
      if Agrees(poll) && Covered(chain, recipient, index, effectiveBalance, startSlot, reached) {
        WalletAtLastBlock(wallet, chain, startBlock, startSlot, reached);
        GainDecides(chain, wallet, Wrap(Total(withdrawals)), poll.balance(lastBlock).value);
      }
    }

    method SumCollected() returns (r: Option<uint64>)
      ensures r.Some? <==> AllTo(withdrawals, recipient)
      ensures r.Some? ==> r.value == Wrap(Total(withdrawals))
    {
      var withdrawnShor: uint64 := 0;
      for k := 0 to |withdrawals|
        invariant AllTo(withdrawals[..k], recipient)
        invariant withdrawnShor == Wrap(Total(withdrawals[..k]))
      {
        assert withdrawals[..k + 1][..k] == withdrawals[..k];
        if withdrawals[k].address != recipient { return None; }
        WrapAdds(Total(withdrawals[..k]), withdrawals[k].amount);
        withdrawnShor := Wrap(withdrawnShor + withdrawals[k].amount);
      }
      assert withdrawals[..|withdrawals|] == withdrawals;
      return Some(withdrawnShor);
    }

    /** One poll passes exactly when its scan reached the head, its two other reads
        succeed, and what was collected covers the stake and is what the wallet gained.
        Where the counter has not gone round, that is when the chain up to the scanned
        slot settles the exit. */
    method Check(poll: Poll, ghost chain: Chain, ghost wallet: Wallet) returns (outcome: Outcome)
      requires GoesRound(chain) && Valid(chain) && Honest(poll, chain, wallet)
      requires wallet.recipient == recipient && wallet.shor == shor
      requires balanceBefore == BalanceAtSlot(wallet, chain, startSlot)
      modifies this
      ensures Valid(chain) && old(reached) <= reached
      ensures !poll.head.Found? ==> reached == old(reached)
      ensures poll.head.Found? && poll.head.value < TWO64 - 1 && old(reached) < TWO64 - 1 ==>
        && reached < TWO64 - 1 && (reached == old(reached) || reached <= poll.head.value)
        && (reached < poll.head.value ==> poll.operations(reached + 1).Failed?)
      ensures outcome == NoEnd <==>
        poll.head == Read.Found(TWO64 - 1) && forall slot :: !poll.operations(slot).Failed?
      ensures outcome == Passed <==>
        && Agrees(poll) && Covered(chain, recipient, index, effectiveBalance, startSlot, reached)
        && poll.balance(lastBlock).value - balanceBefore == Planck(shor, Wrap(Total(withdrawals)))
      ensures reached < TWO64 ==>
        (outcome == Passed <==> Agrees(poll) && Settled(chain, wallet, index, effectiveBalance, startSlot, reached))
    {
      var scan := Scan(poll, chain, wallet);
      if scan == Endless { return NoEnd; }
      if scan == Broken { return ReadFailed; }
      if reached < TWO64 {
        CheckDecides(poll, chain, wallet);
      }
      if !exitIncluded { return ExitMissing; }
      var withdrawnShor := SumCollected();
      if withdrawnShor.None? { return WrongRecipient; }
      if !poll.record.Found? { return ReadFailed; }
      if poll.record.value.status != "withdrawal_done" { return NotWithdrawn; }
      if withdrawnShor.value < effectiveBalance { return StakeNotCovered; }
      var balanceAfter := poll.balance(lastBlock);
      if !balanceAfter.Found? { return ReadFailed; }
      var gained := balanceAfter.value - balanceBefore;
      if gained != Planck(shor, withdrawnShor.value) { return GainMismatch; }
      return Passed;
    }
  }

  /** Every read of this poll succeeds, and it says the withdrawal is done. */
  ghost predicate Clean(poll: Poll) {
    && poll.head.Found? && poll.record.Found? && poll.record.value.status == "withdrawal_done"
    && (forall slot :: !poll.operations(slot).Failed?)
    && (forall block :: poll.balance(block).Found?)
  }

  /** The furthest head these polls saw, or the one the watch started from. */
  function FurthestHead(polls: seq<Poll>, headSlot: uint64): uint64 {
    if |polls| == 0 then headSlot
    else
      var before, last := FurthestHead(polls[..|polls| - 1], headSlot), polls[|polls| - 1];
      if last.head.Found? && before < last.head.value then last.head.value else before
  }

  lemma {:induction false} FurthestSoFar(polls: seq<Poll>, k: nat, headSlot: uint64)
    requires k <= |polls|
    ensures FurthestHead(polls[..k], headSlot) <= FurthestHead(polls, headSlot)
    decreases |polls|
  {
    if k < |polls| {
      FurthestSoFar(polls[..|polls| - 1], k, headSlot);
      assert polls[..|polls| - 1][..k] == polls[..k];
    } else {
      assert polls[..k] == polls;
    }
  }

  /** No head seen before poll k is past its own. */
  predicate Leads(polls: seq<Poll>, k: nat, headSlot: uint64)
    requires k < |polls|
  {
    polls[k].head.Found? && FurthestHead(polls[..k], headSlot) <= polls[k].head.value
  }

  /** No poll before the k-th was clean, led, and had an exit that was settled. */
  ghost predicate NoneMissed(chain: Chain, wallet: Wallet, index: uint64, effectiveBalance: uint64, headSlot: uint64,
                             polls: seq<Poll>, k: nat)
    requires k <= |polls|
  {
    forall j :: 0 <= j < k && Clean(polls[j]) && Leads(polls, j, headSlot) ==>
      !Settled(chain, wallet, index, effectiveBalance, headSlot, polls[j].head.value)
  }

  lemma NoneMissedStep(chain: Chain, wallet: Wallet, index: uint64, effectiveBalance: uint64, headSlot: uint64,
                       polls: seq<Poll>, k: nat)
    requires k < |polls| && NoneMissed(chain, wallet, index, effectiveBalance, headSlot, polls, k)
    requires Clean(polls[k]) && Leads(polls, k, headSlot) ==>
      !Settled(chain, wallet, index, effectiveBalance, headSlot, polls[k].head.value)
    ensures NoneMissed(chain, wallet, index, effectiveBalance, headSlot, polls, k + 1)
  {}

  /** Short of the last uint64, no counter has gone round. */
  predicate WithinHeads(reached: nat, furthest: uint64) {
    reached <= furthest || furthest == TWO64 - 1
  }

  /** How the polls end: one passes, they run out, or a scan has no end. */
  datatype Expectation = Met | RanOut | NeverEnds

  /** Polls until a check passes. A pass means that the chain settles the exit at the
      last slot scanned, as long as no head was the last uint64; and the exit is not
      missed: where the polls run out, no clean poll whose head leads had an exit that
      was settled. */
  method ExpectExitAndWithdrawal(
    index: uint64, effectiveBalance: uint64, headSlot: uint64, headBlock: uint64, balanceBefore: int, polls: seq<Poll>,
    ghost chain: Chain, wallet: Wallet)
    returns (r: Expectation, ghost last: nat)
    requires GoesRound(chain)
    requires chain(headSlot).Some? && chain(headSlot).value.executionBlock == headBlock
    requires balanceBefore == BalanceAtSlot(wallet, chain, headSlot)
    requires forall poll :: poll in polls ==> Honest(poll, chain, wallet)
    ensures headSlot <= last && WithinHeads(last, FurthestHead(polls, headSlot))
    ensures r == Met ==> Covered(chain, wallet.recipient, index, effectiveBalance, headSlot, last)
    ensures r == Met && last < TWO64 ==> Settled(chain, wallet, index, effectiveBalance, headSlot, last)
    ensures r == RanOut ==> NoneMissed(chain, wallet, index, effectiveBalance, headSlot, polls, |polls|)
    ensures r == NeverEnds ==> FurthestHead(polls, headSlot) == TWO64 - 1
  {
    var watch := new ExitWatch(index, effectiveBalance, wallet.recipient, wallet.shor, headSlot, headBlock, balanceBefore);
    for k := 0 to |polls|
      invariant fresh(watch) && watch.Valid(chain)
      invariant watch.index == index && watch.effectiveBalance == effectiveBalance
      invariant watch.recipient == wallet.recipient && watch.shor == wallet.shor
      invariant watch.startSlot == headSlot && watch.balanceBefore == balanceBefore
      invariant WithinHeads(watch.reached, FurthestHead(polls[..k], headSlot))
      invariant NoneMissed(chain, wallet, index, effectiveBalance, headSlot, polls, k)
    {
      NextPrefix(polls, k);
      FurthestSoFar(polls, k, headSlot);
      FurthestSoFar(polls, k + 1, headSlot);
      var outcome := watch.Check(polls[k], chain, wallet);
      if outcome == Passed { return Met, watch.reached; }
      if outcome == NoEnd { return NeverEnds, watch.reached; }
      if Clean(polls[k]) && Leads(polls, k, headSlot) {
        assert watch.reached == polls[k].head.value;
        assert watch.Agrees(polls[k]);
      }
      NoneMissedStep(chain, wallet, index, effectiveBalance, headSlot, polls, k);
    }
    FurthestSoFar(polls, |polls|, headSlot);
    return RanOut, watch.reached;
  }
}
