# Proofs about qrl-tests

qrl-tests is an end-to-end test harness for QRL networks: it provisions devnets in
Kurtosis enclaves, runs lanes of suites on them, and turns the reports into a verdict.
The suites are only as good as the code they lean on, so this Dafny 4.11 project models
the parts of the harness that compute, decide or coordinate, and proves what they promise
for every input, every run and every pattern of failures. `dafny verify dfyconfig.toml`
checks all of it.

| Module | Code it models | What is proved |
|---|---|---|
| `Merkle`, `Signing` | SSZ roots of deposits, domains and signing roots | the in-place fold computes the recursive tree; trees compose; equal roots mean equal inputs or an explicit collision |
| `Bitlist` | aggregation bits | the decoder and the SSZ encoding are inverse to each other |
| `Penalties` | missed-vote penalties | exactly when uint64 arithmetic computes the specification's integers, and never too much; monotone, conserved up to rounding |
| `BalanceLedger` | the balance oracle of the penalties suite | the epoch equation, its exact condition, and its chaining over any range of epochs |
| `TimelyVotes` | timely source and head votes | exactly when a bounded scan returns the participation flags of the whole chain |
| `RewardScanner`, `Staking` | resumable scanners | nothing skipped or seen twice over any polls; the withdrawal accounting agrees with the wallet |
| `Results`, `RunManifest` | verdicts, summary, manifest, exit error | classifying the aggregate is the join of the suites' classes; the three records agree |
| `LaneScheduler`, `LanePlan` | parallel lanes | every interleaving is bounded, deadlock-free, and refines the sequential order; exactly which plans never share an enclave |
| `EnclaveHistory`, `LaneProtocol`, `DevnetManager`, `LaneLifecycle` | networks and lanes | whatever fails, and whatever others do meanwhile, a lane follows one protocol with its enclave; every history that follows it stops and diagnoses exactly once and leaks nothing silently |
| `ConcurrentLanes` | the whole run | the scheduler and the lanes at work together: every lane of every reachable state is accounted for, no run goes on for ever, and every one can be brought to its return |
| `ServiceNames`, `Participants`, `ServiceLogs`, `Sorting` | folds over Go maps and streams | the results do not depend on iteration order |
| `SampledRange` | heights compared by the sync suites | spread, gap and size of the sample, exactly when it has them, and exactly when there is one |

`MachineInts`, `Arithmetic`, `Beacon`, `Bytes`, `Seqs` and `Wrappers` hold what these share: uint64 and
int64 arithmetic, nonlinear facts, folds over sequences, and failure-carrying values.

## How the code is modelled

- A loop is a loop over the same variables, an object with mutable fields is a class, a
  buffer overwritten in place is an array. Each is proved against a specification function
  or relation, and the lemmas are about those.
- SHA-256 is an arbitrary function from byte strings to 32 bytes. Binding results name the
  two colliding inputs, so they hold of any hash.
- A read of a node returns Found, NotFound (the 404 of a missed slot) or Failed. Every poll
  has reads of its own, any of which may fail; one that succeeds tells the truth about one
  fixed chain.
- A Go error is the set of the causes it joins; nil is the empty set.
- uint64 sums, products and conversions wrap as in Go wherever the code relies on them.
- A loop whose counter could go round for ever is cut off once it has come past every
  uint64, with a result that says it has no end.
- Iterating over a Go map is picking a remaining key arbitrarily.
- What is asked of the engine, by whomever, is a history of moments. Between any two calls
  of a lane others may do anything to other enclaves, and an enclave whose destruction was
  requested may go away.
- The references are the Simple Serialize (SSZ) document of the Ethereum consensus
  specifications, sections "Merkleization" and "Bitlist[N]", and the Altair beacon-chain
  specification, sections `get_base_reward`, `get_flag_index_deltas` and
  `get_attestation_participation_flag_indices`, with Qrysm's constants kept symbolic.

## Where the code does less than it says

- The balance equation of an epoch is exact if and only if the balance covered every debit
  of the window, because balances stop at zero (`BalanceLedger.EquationHoldsIff`). The
  suite's own comparison holds if and only if the forgiven amount is a multiple of 2^64
  (`BalanceLedger.SuiteCheckHoldsIff`). Both fail for a validator without a balance that
  misses a sync committee duty (`BalanceLedger.EquationFails`,
  `BalanceLedger.SuiteCheckFails`).
- The wallet comparison of an exit is about a net flow: it passes if and only if what came
  from elsewhere was spent again (`Staking.ExitWatch.GainDecides`), so a payment can hide behind a
  spend (`Staking.OffsetPaymentHides`). For a recipient that spends nothing it is what it
  says (`Staking.NothingForeignIff`).
- `TimelyVotes` says it finds a timely head vote, but stops at ⌊√SLOTS_PER_EPOCH⌋ slots: it
  returns the flags of every chain if and only if the minimum inclusion delay is at most
  that (`TimelyVotes.WindowExactIff`). Past it the source flag is still right, and for any
  constants there are a chain and a readable node where the head flag is not
  (`TimelyVotes.HeadVoteMissed`).
- The base reward is the specification's if and only if its products fit in 64 bits
  (`Penalties.BaseRewardExactIff`). A penalty is if and only if its weight is zero, or the
  base reward is and its weighted product fits (`Penalties.PenaltiesExactIff`), unless the
  denominator exceeds 2^32: there a wrong base reward can hide in the rounding
  (`Penalties.WideDenominatorHides`). A wrapped penalty is never too high
  (`Penalties.PenaltiesNeverExceed`). A range of constants serves every balance
  (`Penalties.PenaltiesMatchSpecification`), and its bound on factor · weight is the least
  that does (`Penalties.RangeIsTight`).
- `sampledRange` promises values from first to last. The list it returns spreads so if and
  only if its counter does not wrap (`SampledRange.Sample`). The loop ends at all if and
  only if the last value is not past the furthest uint64 the counter reaches: the greatest
  one that differs from the first by a multiple of the largest power of two in the step
  (`SampledRange.EverEndsIff`). Over the whole uint64 range it never does
  (`SampledRange.FullRangeNeverEnds`). "About 25" values can be up to 50.
- A suite that succeeded without a pass can hide behind another suite's pass: classifying
  the aggregate gives the suites' join if and only if it does not pass or every suite has a
  pass (`Results.AggregateIsJoinIff`, `Results.AggregateHidesEmptySuite`). That is why the
  code looks at the suites again; with that, the lane's verdict is the join
  (`Results.ClassifyLane`).
- `epoch + 2` wraps for the last two epochs of the uint64 range
  (`RewardScanner.AvailableIff`).
- A loop whose bound is the last uint64 never gets past it: where no read fails, the sum of
  balance changes, the reward scan and the exit scan have no end there
  (`BalanceLedger.SumChanges`, `RewardScanner.Scanner.ScanTo`, `Staking.ExitWatch.Scan`).

Two limits the callers respect: results are looked up by lane name, so summary and
manifest agree whatever the lanes do if and only if names are unique
(`RunManifest.AgreeIffUnique`), as they are in every run of the runner
(`RunManifest.RunnerNamesDiffer`); and trailing zero chunks are invisible in an SSZ root, so
roots bind values of one length only (`Merkle.PaddingIsInvisible`).

## Model

| member | source | states |
|---|---|---|
| Merkle.PassMergesBlocks | e2e/internal/signing/ssz.go:87-92 | one pass turns the roots of the aligned blocks of 2^k leaves into those of the blocks of 2^(k+1) leaves |
| Merkle.FoldPass | e2e/internal/signing/ssz.go:87-92 | the in-place pass leaves in cell i the parent of the old cells 2i and 2i+1: no cell is overwritten before it is read |
| Merkle.LeastWidth | e2e/internal/signing/ssz.go:80-83 | the width is the least power of two that is at least max(1, length) |
| Merkle.PaddedLevel | e2e/internal/signing/ssz.go:84-85 | the array holds the chunks, zero-padded to that width |
| Merkle.FoldLevel | e2e/internal/signing/ssz.go:86-95 | after pass k, cell i is the root of the i-th aligned block of 2^k leaves |
| Merkle.FoldToRoot | e2e/internal/signing/ssz.go:86-96 | the passes end with the root of the recursive perfect tree over the initial cells |
| Merkle.Merkleize | e2e/internal/signing/ssz.go:79-97 | the result is SSZ's recursive root of the zero-padded chunks, for every length |
| Merkle.Composition | e2e/internal/signing/ssz.go:79-97 | 2^k chunks followed by 1 to 2^k more merkleize to the parent of the first half's root and the second half's root at depth k |
| Merkle.PaddingIsInvisible | e2e/internal/signing/ssz.go:84-85 | one more zero chunk within the same width does not change the root |
| Merkle.TreeBinding | e2e/internal/signing/ssz.go:86-96 | different leaves with one root exhibit two different hash inputs with one hash |
| Merkle.ChunksBinding | e2e/internal/signing/ssz.go:79-97 | chunk lists of one length with one root are equal or exhibit a collision |
| Signing.ChunksInjective | e2e/internal/signing/ssz.go:72-75 | values of one length with the same zero-padded chunks are equal |
| Signing.FixedBytesRoot | e2e/internal/signing/ssz.go:68-77 | the loop of copies yields exactly the 32-byte chunks of the value, whose root is returned; a wrong length is refused with both lengths |
| Signing.LittleEndianRoundTrip | e2e/internal/signing/ssz.go:62-66 | reading back the little-endian bytes of a value that fits gives the value |
| Signing.Uint64RootInjective | e2e/internal/signing/ssz.go:62-66 | equal uint64 roots come from equal values |
| Signing.FieldRoots | e2e/internal/signing/ssz.go:28-42 | the four field roots in order, if and only if every field has its length; else the first field that does not |
| Signing.DepositMessageHashTreeRoot | e2e/internal/signing/ssz.go:20-26 | succeeds if and only if the fields are well sized, with the Merkle root of the four field roots |
| Signing.DepositDataHashTreeRoot | e2e/internal/signing/ssz.go:50-60 | succeeds if and only if fields and signature are well sized, with the Merkle root of the five field roots |
| Signing.DataRootExtendsMessageRoot | e2e/internal/signing/ssz.go:50-60 | the deposit's root is H(message root, H(H(signature root, 0), H(0, 0))) |
| Signing.PairRoot | e2e/internal/signing/signing.go:42-44 | the root of two chunks is their hash |
| Signing.BytesBinding | e2e/internal/signing/ssz.go:68-77 | byte vectors of one length with one root are equal or exhibit a collision |
| Signing.MessageBinding | e2e/internal/signing/ssz.go:20-42 | deposit messages with one root are equal or exhibit a collision |
| Signing.DataBinding | e2e/internal/signing/ssz.go:50-60 | deposits with one root are equal, signature included, or exhibit a collision |
| Signing.DomainBinding | e2e/internal/signing/signing.go:30-39 | one domain means one domain type, and one fork version and genesis root up to a collision on the 28 bytes it keeps |
| Signing.SigningRootBinding | e2e/internal/signing/signing.go:42-44 | one signing root means one object root and one domain, or exhibits a collision |
| Signing.DepositSignatureBinding | e2e/internal/signing/signing.go:42-44 | one signing root of deposit messages means one message and one domain, or exhibits a collision |
| Bitlist.LengthInBytes | e2e/internal/beacon/types.go:118-123 | on arbitrary bytes the length is that of a bit in the last byte, so the subtraction never underflows and no position below it is out of range |
| Bitlist.PackBit | e2e/internal/beacon/types.go:111-114 | bit 8i+k of packed bits is bit k of byte i |
| Bitlist.PackLength | e2e/internal/beacon/types.go:118-123 | the highest set bit of the last byte of packed bits is the last bit, if it is set |
| Bitlist.DecodesEncoding | e2e/internal/beacon/types.go:111-123 | for every bit sequence b, the length read from its SSZ encoding is that of b, and Includes(p) if and only if p < length and b[p] |
| Bitlist.ReadingDecides | e2e/internal/beacon/types.go:111-123 | two bitlists whose last byte is not zero and that read the same are the same bytes |
| Bitlist.EncodesDecoding | e2e/internal/beacon/types.go:111-123 | encoding what was read from any bitlist whose last byte is not zero gives its bytes back |
| MachineInts.Isqrt | e2e/internal/rewards/validator.go:60 | the integer square root: the greatest r with r·r ≤ n |
| Penalties.BaseRewardBound | e2e/internal/rewards/validator.go:59-64 | a base reward is at most (2^32 + 1) · factor when the effective balance is part of the total |
| Penalties.WrappedQuotient | e2e/internal/rewards/validator.go:61-63 | a product that wraps always shows in its quotient |
| Penalties.BaseRewardExactIff | e2e/internal/rewards/validator.go:60-61 | the wrapping base reward is Altair's if and only if the balance is below one increment or no product overflows; otherwise it falls short by at least 2^32 |
| Penalties.PenaltyExactIff | e2e/internal/rewards/validator.go:61-63 | of a base reward that is right, or short by 2^32 or more: its share is the exact one if and only if the weight is zero, or the base reward is right and the product fits |
| Penalties.PenaltiesExactIff | e2e/internal/rewards/validator.go:59-64 | each penalty is Altair's if and only if its weight is zero, or no product of the base reward overflows and the weighted base reward fits in 64 bits, for denominators up to 2^32, and for any where the base reward is exact |
| Penalties.WideDenominatorHides | e2e/internal/rewards/validator.go:59-64 | past 2^32 there is an input whose base reward has wrapped and whose penalty is right |
| Penalties.PenaltiesNeverExceed | e2e/internal/rewards/validator.go:59-64 | whatever wraps, no penalty exceeds Altair's |
| Penalties.PenaltiesMatchSpecification | e2e/internal/rewards/validator.go:56-64 | with increment · factor < 2^64 and factor · weight < 2^32 the wrapping uint64 code computes the Altair integers for every balance up to the total |
| Penalties.RangeIsTight | e2e/internal/rewards/validator.go:59-64 | an input with factor · weight = 2^32, all else in range, whose product overflows and whose penalty is too small |
| Penalties.PenaltiesMonotone | e2e/internal/rewards/validator.go:56-64 | penalties grow with the effective balance and shrink with the total active balance |
| Penalties.PenaltiesShareBaseReward | e2e/internal/rewards/validator.go:59-64 | source and target penalties together are the base reward's weighted share, short of it by at most one |
| Penalties.StateSlotIsLastOfNextEpoch | e2e/internal/rewards/validator.go:117-122 | the state read is the last slot of the next epoch, whose previous epoch is the one asked about, if and only if that epoch's slots are uint64s |
| Penalties.VoteAmountsOf | e2e/internal/rewards/validator.go:121-152 | each of the four outcomes exactly when it is due: a failed read, a leak (the Altair one where nothing wraps), no ideal reward at the balance, or the first ideal reward there and the penalties |
| BalanceLedger.ApplyConserves | e2e/internal/rewards/validator.go:184-187 | deltas move a balance by their sum plus what was forgiven at zero |
| BalanceLedger.NothingForgivenIff | e2e/internal/rewards/validator.go:184-187 | nothing is forgiven if and only if no debit exceeds the balance it meets |
| BalanceLedger.RewardsOfSlot | e2e/internal/rewards/validator.go:154-159 | only the first slot of an epoch applies attestation rewards, those of two epochs before |
| BalanceLedger.RewardsOfWindow | e2e/internal/rewards/validator.go:154-159 | the window between two epoch starts applies the rewards of exactly one epoch |
| BalanceLedger.BalanceMoves | e2e/internal/rewards/validator.go:161-166 | between any two states the balance moves by the rewards, the blocks' changes and what was forgiven |
| BalanceLedger.EpochEquation | e2e/internal/rewards/validator.go:154-182 | balance at the start of e+2 = balance at the start of e+1 + reward of e + block changes of e+1 + what was forgiven |
| BalanceLedger.EquationHoldsIff | e2e/internal/rewards/validator.go:154-182 | without the last term the equation holds if and only if the balance covered every debit of the window |
| BalanceLedger.SuiteCheckHoldsIff | e2e/suites/consensus/penalties/e2e_test.go:142-152 | the suite's int64 comparison holds if and only if the forgiven amount is a multiple of 2^64, however its sums wrap |
| BalanceLedger.SomeoneMissesDuty | e2e/internal/rewards/validator.go:184-187 | there is a chain on which a validator without a balance misses a sync committee duty |
| BalanceLedger.EquationFails | e2e/internal/rewards/validator.go:154-182 | on any such chain the equation fails |
| BalanceLedger.SuiteCheckFails | e2e/suites/consensus/penalties/e2e_test.go:142-152 | and the suite's comparison fails |
| BalanceLedger.WindowsTile | e2e/internal/rewards/validator.go:168-182 | over any range of epochs the windows count every block exactly once |
| BalanceLedger.RewardsTile | e2e/internal/rewards/validator.go:154-159 | over any range of epochs each epoch's reward is applied exactly once |
| BalanceLedger.RangeEquation | e2e/internal/rewards/validator.go:154-182 | the equation chained over any range of epochs |
| BalanceLedger.BlockBalanceChange | e2e/internal/rewards/validator.go:188-218 | the int64 sum of proposal, withdrawals and sync rewards is what the block did to the ledger, zero for an empty slot, if and only if the reads succeed |
| BalanceLedger.SubtractWithdrawals | e2e/internal/rewards/validator.go:205-209 | subtracting the validator's withdrawals one by one in int64 is subtracting their sum |
| BalanceLedger.AddSyncRewards | e2e/internal/rewards/validator.go:214-216 | adding the validator's sync rewards one by one in int64 is adding their sum |
| BalanceLedger.SumChanges | e2e/internal/rewards/validator.go:174-180 | for every start and last slot: a failed read if and only if one of the slots the counter comes to is unreadable, else their int64 sum, or no end if and only if the last one is the last uint64 |
| BalanceLedger.LoopIsWindow | e2e/internal/rewards/validator.go:171-175 | below the last uint64 the slots of the loop are those of the window, and so is their sum |
| BalanceLedger.BlockBalanceChanges | e2e/internal/rewards/validator.go:171-182 | where the window fits, the sum over the second slot of the epoch through the first of the next, if and only if all are readable; elsewhere what the wrapped bounds give |
| TimelyVotes.RootAtOrBefore | e2e/internal/rewards/validator.go:289-300 | the walk ends, with the root the specification names, if and only if no read on the way to a block fails |
| TimelyVotes.RootAtIsLatest | e2e/internal/rewards/validator.go:287-300 | that root is of the latest block not after the slot |
| TimelyVotes.FindDuty | e2e/internal/rewards/validator.go:276-285 | a duty is found if and only if the validator has a seat, and it is such a seat |
| TimelyVotes.DutyDecides | e2e/internal/rewards/validator.go:260-264 | the test by slot, committee and aggregation bit is membership among the attesters |
| TimelyVotes.BlockVotes | e2e/internal/rewards/validator.go:260-271 | the votes read from one block are the participation flags its attestations set |
| TimelyVotes.QuietBlock | e2e/internal/rewards/validator.go:227-230 | a block outside the window sets no flag, and one past the source window no source flag |
| TimelyVotes.WrappedSlotIsQuiet | e2e/internal/rewards/validator.go:253-264 | where slot plus delay wraps, the block read instead holds none of the duty's votes, and the chain has no block there |
| TimelyVotes.WindowSuffices | e2e/internal/rewards/validator.go:250-252 | the flags of the window are those of the whole chain when the minimum delay lies in it; else the window has none and the chain no source flag |
| TimelyVotes.ScanVotes | e2e/internal/rewards/validator.go:250-272 | the loop returns the flags of the slots it scans, if and only if their reads do not fail |
| TimelyVotes.TimelyVotesOf | e2e/internal/rewards/validator.go:231-273 | for every uint64 slot and delay: the source flag of the whole chain always, and the head flag if and only if the minimum delay is at most ⌊√SLOTS_PER_EPOCH⌋ or there is none; an answer if and only if the reads succeed |
| TimelyVotes.HeadVoteMissed | e2e/internal/rewards/validator.go:250-268 | for any constants with the minimum delay past the window: a chain with a head flag, and a node whose reads all succeed, whose scan has no head flag |
| TimelyVotes.WindowExactIff | e2e/internal/rewards/validator.go:250-268 | the scan gives the flags of every chain and duty if and only if the minimum delay is at most ⌊√SLOTS_PER_EPOCH⌋ |
| RewardScanner.AvailableIff | e2e/internal/rewards/rewards.go:55-60 | the wrapping test means "two epochs on" except for the last two epochs, where it does only below the wrapped sum |
| RewardScanner.ReadsWhatIsAvailable | e2e/internal/rewards/rewards.go:55-60 | an available epoch always passes the test, and before the last two only an available one does |
| RewardScanner.Scanner.Scan | e2e/internal/rewards/rewards.go:70-86 | the counter moves on only over epochs that passed the test, were read and did not match, one after the other, round the uint64s too; a failed read leaves it at its epoch; each result exactly when due, and no end if and only if every epoch there is passes the test, is read and does not match |
| RewardScanner.Scanner.ScanTo | e2e/internal/rewards/rewards.go:76-85 | the same of the loop, for a known head epoch |
| RewardScanner.AwaitAttestationReward | e2e/internal/rewards/rewards.go:18-40 | over any polls the result is the first match from the first epoch on, and none is returned only if no clean poll could see one |
| RewardScanner.FirstMatchIsLeast | e2e/internal/rewards/rewards.go:18-26 | the first match is the least matching epoch from the first, unless there is none and the counter goes round |
| Staking.GainSplits | e2e/internal/staking/staking.go:131-137 | the recipient's gain over any slots is what this validator's withdrawals paid plus what came from elsewhere |
| Staking.WalletAtLastBlock | e2e/internal/staking/staking.go:179-182 | the wallet at the last visited block is the wallet at the last scanned slot, over any empty slots |
| Staking.NoNetForeignIff | e2e/internal/staking/staking.go:183-188 | below 2^64 shor the comparison's rule is that the net flow from elsewhere is zero |
| Staking.NothingForeignIff | e2e/internal/staking/staking.go:183-188 | for a recipient that spends nothing meanwhile it is that no block of the window holds a payment from anywhere else |
| Staking.OffsetPaymentHides | e2e/internal/staking/staking.go:183-188 | a foreign payment spent in the same block passes the comparison |
| Staking.ExitWatch.Visit | e2e/internal/staking/staking.go:150-159 | a block adds its exit flag and exactly the validator's withdrawals, in order |
| Staking.BlockSlotsOnce | e2e/internal/staking/staking.go:197-199 | the slots visited are those with a block, each once and in order |
| Staking.ExitWatch.ScanSlot | e2e/internal/staking/staking.go:211-223 | one slot, of any uint64, keeps the invariant, and a failed read changes nothing |
| Staking.ExitWatch.Scan | e2e/internal/staking/staking.go:206-225 | after any scan, failed or not, each block since the start has been visited exactly once and in order, as far as the counter came; it stops short of the head only at a failed read, and has no end if and only if the head is the last uint64 and no read fails |
| Staking.ExitWatch.GainMatchesCollected | e2e/internal/staking/staking.go:179-188 | at every reachable state the recipient's gain is Shor times what the collected withdrawals paid, plus what came from elsewhere |
| Staking.ExitWatch.GainDecides | e2e/internal/staking/staking.go:184-188 | the comparison of gain and withdrawals passes if and only if the net flow from elsewhere is what the wrapped sum lost, zero below 2^64 shor |
| Staking.ExitWatch.CheckDecides | e2e/internal/staking/staking.go:179-188 | where the counter has not gone round, the comparison of a covered stake is whether the net flow from elsewhere is what the wrapped sum lost |
| Staking.ExitWatch.SumCollected | e2e/internal/staking/staking.go:162-167 | the wrapped sum of the withdrawals, if and only if all went to the recipient |
| Staking.ExitWatch.Check | e2e/internal/staking/staking.go:149-190 | one poll passes if and only if the scan reached the head, the other reads succeed, the withdrawal is done, what was collected covers the stake, and the wallet gained exactly that; where the counter has not gone round, if and only if the chain so far settles the exit |
| Staking.ExpectExitAndWithdrawal | e2e/internal/staking/staking.go:131-195 | a pass means the chain settles the exit, as long as no head was the last uint64; without one, no clean poll with the furthest head saw a settled exit |
| Results.SuiteTally.Tally | internal/results/results.go:213-239 | one node adds its counts, failure and unexpected skip to the tally |
| Results.EvidenceConcat | internal/results/results.go:177-184 | suites tallied apart and added are the lane tallied at once |
| Results.CountsBalance | internal/results/results.go:213-230 | every spec is counted once: Specs = Passed + Failed + Pending + Skipped = the number of specs |
| Results.AnyReportTimedOut | internal/results/results.go:326-335 | true if and only if some suite's failure reason mentions a timeout, in any case |
| Results.AnyReportFailed | internal/results/results.go:337-344 | true if and only if some suite did not succeed |
| Results.ClassifyReports | internal/results/results.go:291-324 | the flag loop and the switch give the decision table of the evidence |
| Results.EvidenceShows | internal/results/results.go:213-239 | what the counts, failures and skips say of the worst node, class by class |
| Results.SuiteVerdictIsClass | internal/results/results.go:190-201 | a suite's verdict is the worst of its nodes, of a suite timeout, of its status, and of being empty |
| Results.WorstReportSplits | internal/results/results.go:291-324 | the join of the suites' classes is the join over all nodes, all timeouts and all statuses |
| Results.AggregateIsJoinIff | internal/results/results.go:276-288 | classifying the aggregate gives the join of the suites' classes and the run error if and only if it does not pass or every suite has a pass; when it passes, every suite succeeded |
| Results.AggregateHidesEmptySuite | internal/results/results.go:276-288 | two reports whose aggregate passes and whose join does not |
| Results.HiddenSuiteIsBroken | internal/results/results.go:281-287 | after a passing aggregate the suite loop can only return infrastructure |
| Results.FirstNotPassed | internal/results/results.go:281-288 | what the suite loop returns is the join's verdict, infrastructure or passed |
| Results.SummarizeSuite | internal/results/results.go:190-201 | the suite summary holds the evidence of its nodes and the verdict of its class |
| Results.ClassifyLane | internal/results/results.go:259-289 | bootstrap, cancellation, timeout and missing reports first, then the join of the suites' classes |
| Results.SummarizeOutcome | internal/results/results.go:171-188 | the lane summary holds the evidence of all nodes, the suites in order, and that verdict |
| Results.LanePassesIff | internal/results/results.go:259-324 | a lane passes if and only if bootstrap, execution, reports and run had no error and every suite succeeded with a pass and clean nodes |
| Results.LanePassed | internal/results/results.go:56-60 | Passed is the lane's verdict |
| Results.Summarize | internal/results/results.go:145-169 | lanes in order, totals the sum of their counts, passed if and only if every lane passes, whether or not the files were written |
| Results.TotalsBalance | internal/results/results.go:148-157 | Specs = Passed + Failed + Pending + Skipped in the totals |
| Results.VerdictError | internal/results/results.go:125-143 | the lanes that did not pass, in order; nil if and only if there are none |
| RunManifest.Manifest.Finish | internal/runmanifest/manifest.go:77-98 | every lane is marked by its own name's result, unmarked without one, and the run passes if and only if all lanes are marked passed |
| RunManifest.ResultsAreLast | e2e/runner/runner.go:229-232 | the result under a name is that of the last lane of that name |
| RunManifest.SummaryImpliesManifest | e2e/runner/runner.go:226-233 | a passing summary means a passing manifest |
| RunManifest.AgreeIffUnique | e2e/runner/runner.go:226-233 | summary and manifest agree for all outcomes if and only if lane names are unique |
| RunManifest.RunnerNamesDiffer | e2e/runner/runner.go:168-195 | in every run of the runner they are, so the two agree |
| RunManifest.HiddenFailure | e2e/runner/runner.go:229-233 | with a repeated name there are outcomes that fail the summary and pass the manifest |
| RunManifest.ResultsByName | e2e/runner/runner.go:229-232 | the loop builds that map from the summary |
| RunManifest.JoinErrors | e2e/runner/runner.go:221-224 | the joined error holds exactly the causes the lanes have |
| RunManifest.ReportRun | e2e/runner/runner.go:219-242 | the error is nil if and only if every lane passes and every file was written; with unique names and no write errors error, summary and manifest agree; a failed record never comes with a nil error |
| RunManifest.ReportRunnerRun | e2e/runner/runner.go:168-242 | at the end of the runner's own runs, one lane or every registered one, error, summary and manifest agree when the files could be written |
| LaneScheduler.StepKeepsTokens | e2e/runner/runner.go:308-317 | every step keeps the semaphore equal to the number of goroutines between its send and its receive, and within the limit |
| LaneScheduler.StepKeepsOutcomes | e2e/runner/runner.go:311-315 | every step keeps each lane run at most once and its slot holding what its run returned |
| LaneScheduler.StepDecreases | e2e/runner/runner.go:308-318 | every step brings the end one step nearer |
| LaneScheduler.ReachableInv | e2e/runner/runner.go:308-320 | every reachable state keeps both invariants, and no run is longer than five steps a lane and one return |
| LaneScheduler.AtMostLimitExecute | e2e/runner/runner.go:308-313 | at every reachable state at most MaxParallel lanes are executing |
| LaneScheduler.NoDeadlock | e2e/runner/runner.go:308-318 | every reachable state that has not returned has an enabled step |
| LaneScheduler.AllRanOnce | e2e/runner/runner.go:299-320 | at return every lane ran exactly once and outcomes[i] is lane i's outcome |
| LaneScheduler.ConcurrentRefinesSequential | e2e/runner/runner.go:297-321 | whatever the interleaving, the outcomes are those of the sequential branch |
| LaneScheduler.SequentialIsARun | e2e/runner/runner.go:301-306 | running the lanes one after the other is one of the complete interleavings |
| LanePlan.CheckServiceRestarts | e2e/runner/plan.go:98-111 | a lane is refused if and only if it restarts services without a network provisioned from its profile |
| LanePlan.PlanLanes | e2e/runner/plan.go:59-96 | a plan if and only if every lane may run, with each lane's enclave and seed; else the first lane that may not is named |
| LanePlan.EnclavesDistinctIff | e2e/runner/plan.go:75-78 | the lanes have enclaves of their own if and only if there is at most one lane, or names are suffixed and differ |
| LanePlan.RunnerPlansAreDistinct | e2e/runner/runner.go:168-195 | no two lanes of a run of the runner share a name or an enclave |
| LanePlan.TwoMayHold | e2e/runner/runner.go:308-317 | with a limit of two or more any two lanes can be past the semaphore at once |
| LanePlan.NoSharedEnclaveIff | e2e/runner/runner.go:308-317 | no reachable state has two lanes past the semaphore with one enclave if and only if there is at most one lane, or enclaves carry lane names that differ |
| LanePlan.RunnerSharesNoEnclave | e2e/runner/runner.go:297-321 | no run of the runner reaches such a state, at any limit, nor one with more than MaxParallel lanes past the semaphore |
| DevnetManager.Engine.Record | devnet/manager.go:110-270 | one moment changes the enclaves as it says and takes one step of that enclave's protocol, and no other |
| DevnetManager.Engine.Others | devnet/manager.go:110-270 | whatever others do between two calls, an enclave they leave alone keeps its events, and changes only by going away if it was on its way out |
| DevnetManager.Manager.InspectReady | devnet/manager.go:85-108 | attaching changes no network, succeeds only on one that is there, and follows the protocol |
| DevnetManager.Manager.ConfirmDestroyed | devnet/manager.go:237-251 | the retries end, without error only if the enclave was seen gone |
| DevnetManager.Manager.DestroyAndConfirm | devnet/manager.go:235-253 | no error means the enclave is gone, whatever the destroy call answered; no other enclave is touched |
| DevnetManager.Manager.FinishFailedStart | devnet/manager.go:166-192 | the start failure is always part of the result; an enclave left behind is reported; the protocol of a failed start, diagnosis if asked for and then one destroy, is followed to its end |
| DevnetManager.Manager.StartNetwork | devnet/manager.go:110-164 | an existing network, not on its way out, is left alone; success means it is up and was probed ready; an enclave made and left behind is reported; the protocol is followed to a lease or a refusal |
| DevnetManager.Manager.RetryProbe | devnet/manager.go:255-270 | the first attempt is always made, and the retries succeed if and only if some attempt in time does |
| DevnetManager.Manager.StopNetwork | devnet/manager.go:194-207 | no error means the enclave is gone; nothing is destroyed that is not there; the protocol of a release is followed, and released means no error |
| LaneProtocol.EnclaveStands | devnet/manager.go:110-253 | in every history, whoever acts, an enclave whose events follow the protocol stands as its point says, and one that was there, and not on its way out, is never touched |
| LaneProtocol.FinalVerdict | e2e/runner/lane.go:121-131 | errors joined after the body never make a lane pass, and any makes it fail |
| LaneProtocol.EndedAccountsFor | e2e/runner/lane.go:92-131 | when a lane has ended, an enclave still there under its name shows in its error if it provisions, and was there before if it attaches; one that was there, and not on its way out, is as it was |
| LaneProtocol.CallsCounted | e2e/runner/lane.go:102-131 | at every point, how often the lane has stopped, diagnosed, destroyed and created: one stop if provisioned and none if attached, one diagnosis if and only if it had not passed or its release failed, in the first case before the stop |
| LaneProtocol.EndedCalledFor | e2e/runner/lane.go:102-131 | and its calls are as many as they should be: with a network of its own one stop, and one diagnosis if and only if it did not pass; without one no stop, and no destroy without a create |
| LaneProtocol.EndFollows | e2e/runner/lane.go:92-131 | where a lane has come to says that each of its events was the protocol's next and suits attaching or provisioning |
| LaneProtocol.EventAdvances | e2e/runner/lane.go:92-131 | every event brings a lane nearer its end, but for a look that finds the destroyed enclave still there |
| LaneLifecycle.AcquireLane | e2e/runner/lane.go:41-82 | a lease as the mode says or a refusal, by the protocol; a network provisioned is up and was probed ready |
| LaneLifecycle.RunBody | e2e/runner/lane.go:133-181 | no error if and only if the process ran without one; its reports only if it ran; its error, or that of the context its images were resolved in, kept apart within the lane's error |
| LaneLifecycle.CloseLog | e2e/runner/lane.go:102-105 | closing the log adds an error if and only if it was open and fails |
| LaneLifecycle.ReleaseLane | e2e/runner/lane.go:126-130 | released means the enclave is gone; a lane that had passed is diagnosed when its release fails |
| LaneLifecycle.Cleanup | e2e/runner/lane.go:102-131 | the protocol is followed to its end, with the outcome it ends with, which passes if and only if the lane had passed and its release worked |
| LaneLifecycle.ExecuteLane | e2e/runner/lane.go:92-182 | for every pattern of failures, and whatever others do to other enclaves meanwhile: every event in its place in the protocol, to its end; the outcome it ends with; passing if and only if acquired, body and release all worked; a provisioned enclave still there shows in its error; and its calls are as many as they should be |
| LaneLifecycle.RunInOrder | e2e/runner/runner.go:301-306 | the same of every lane of a run, one after the other, at the end of the run, calls included |
| ConcurrentLanes.RunsTheScheduler | e2e/runner/runner.go:308-320 | the lanes at work run the scheduler as it runs alone, so all its properties hold of them |
| ConcurrentLanes.ReachableKeeps | e2e/runner/runner.go:308-320 | at every reachable state each lane's goroutine, its point in the protocol and its outcome go together |
| ConcurrentLanes.EveryLaneAccounted | e2e/runner/runner.go:308-320 | at every reachable state, for every interleaving, failure and limit: at most MaxParallel lanes are executing, and every lane that has run shows a provisioned enclave still there in its error, touched no other, and made its calls as often as it should |
| ConcurrentLanes.RunAccounts | e2e/runner/runner.go:308-320 | when runLanes returns, that holds of every lane |
| ConcurrentLanes.RunnerRunAccounts | e2e/runner/runner.go:168-321 | so of every run of the runner that takes the semaphore, one lane or all registered ones at once: it can return, and whenever it has, that holds of every lane |
| ConcurrentLanes.RunnerRunInOrder | e2e/runner/runner.go:168-306 | and the sequential branch leaves every lane of the runner accounted for, by calls that succeed or fail as they may |
| ConcurrentLanes.NoDeadlock | e2e/runner/runner.go:308-320 | in every reachable state that has not returned the scheduler or a lane can make a move of its own |
| ConcurrentLanes.ReachableTurnMeasure | e2e/runner/runner.go:308-320 | a move brings the end nearer, whoever makes it, and nothing else takes it further away |
| ConcurrentLanes.MovesBounded | e2e/runner/runner.go:308-320 | no run makes more than sixteen moves a lane and one |
| ConcurrentLanes.CanReturn | e2e/runner/runner.go:308-320 | from every reachable state there are turns, no more than the measure, after which runLanes has returned |
| ConcurrentLanes.MomentMayCome | e2e/runner/lane.go:92-182 | a next event of an executing lane, or a stranger's, is a turn of the run, after which the lane has made that event too |
| ConcurrentLanes.OtherTurnsKeep | e2e/runner/runner.go:308-320 | and any turn of another lane, or of the scheduler, leaves it where it is |
| ConcurrentLanes.HistoryIsPartOfARun | e2e/runner/lane.go:92-182 | so a whole history in which the lane follows the protocol and only strangers act besides is a part of a run, and ends with its enclaves |
| ConcurrentLanes.ExecutionIsPartOfARun | e2e/runner/lane.go:92-182 | and where the lane has ended, its completion with the outcome it ends with is enabled |
| ConcurrentLanes.ExecuteInRun | e2e/runner/lane.go:92-182 | what executeLane does, from any reachable state in which its lane has just started, is a part of a run, at whose end the completion with the outcome it returned is enabled |
| ServiceNames.LabelDecides | devnet/environment.go:161-171 | a label decides whatever the name says: its number if it is one of at least 1, and no index if it is not a numeral, is negative, does not fit, or is below 1 |
| ServiceNames.LabelCarriesIndex | devnet/environment.go:161-171 | the printed form of any index from 1 gives it back |
| ServiceNames.ParsesIff | devnet/environment.go:162-163 | what parses is one digit or more, and nothing else |
| ServiceNames.NamesCarryIndex | devnet/environment.go:172-184 | without a label, names built as kind-index-rest or kind-index carry their index |
| ServiceNames.PlainNamesCarryNone | devnet/environment.go:172-184 | and names without a dash carry none |
| Participants.StandStep | devnet/environment.go:101-144 | folding in a service that stands for a participant keeps the map described by the services so far, in whatever order they come |
| Participants.ParticipantsFromServices | devnet/environment.go:99-159 | success if and only if some service stands, none is rejected and every index has both clients, whatever the order; the result has one participant an index, in increasing order, each resolved from its services |
| Participants.CheckAndSort | devnet/environment.go:145-158 | the same of what follows the fold: the required endpoints and the sort |
| Participants.Sorted | devnet/environment.go:149-157 | every participant of the map once, in increasing index order |
| Sorting.Sort | devnet/environment.go:157 | the items of a set, each once, in ascending order |
| Sorting.SameAscending | devnet/environment.go:157 | two ascending lists of the same items are the same list |
| Participants.FoldIsConfluent | devnet/environment.go:99-159 | with one service for each index and client, every iteration order gives the same participants |
| Participants.DescribedAreUsable | devnet/environment.go:99-159 | every participant returned has an index of at least 1 and its RPC, web socket and consensus endpoints |
| ServiceLogs.MissingIff | devnet/internal/kurtosis/diagnostics.go:277-301 | the running not-found state of a service is that its last mention is a response that does not find it and has no entry for it |
| ServiceLogs.MarkNotFound | devnet/internal/kurtosis/diagnostics.go:287-291 | adds exactly the requested services of the response, in any order |
| ServiceLogs.DeliverEntries | devnet/internal/kurtosis/diagnostics.go:292-300 | in any order, clears exactly the requested services with an entry and delivers each one's batch once |
| ServiceLogs.ReceiveServiceLogs | devnet/internal/kurtosis/diagnostics.go:272-302 | at a clean end exactly the requested services last mentioned as not found, nothing after a broken stream; each service's batches in stream order |
| ServiceLogs.ServiceLogs | devnet/internal/kurtosis/diagnostics.go:241-270 | the same for the requested list, without a stream if it is empty |
| ServiceLogs.MergeIdentities | devnet/internal/kurtosis/diagnostics.go:164-184 | each UUID gets a current service's identity, or else its last identifier's, historical only if the current list is complete |
| ServiceLogs.MergeServiceIdentities | devnet/internal/kurtosis/diagnostics.go:159-188 | exactly those identities, in ascending order of name and UUID |
| ServiceLogs.PrecedesOrders | devnet/internal/kurtosis/diagnostics.go:185-187 | the order of strings is asymmetric and total |
| ServiceLogs.MergedListIsConfluent | devnet/internal/kurtosis/diagnostics.go:159-188 | with one current service a UUID the returned list does not depend on the order |
| SampledRange.StepsUnique | e2e/internal/synccheck/synccheck.go:323-327 | the number of steps that first reaches the last value is the distance over the step, rounded up |
| SampledRange.RoomSuffices | e2e/internal/synccheck/synccheck.go:325 | one step of room above the last value is enough, and ranges under 50 always have it |
| SampledRange.EndsWhereItFits | e2e/internal/synccheck/synccheck.go:325-327 | the loop ends where its counter first passes the last value if and only if that value is a uint64; else the counter goes back there and the loop goes on |
| SampledRange.SampleSpreads | e2e/internal/synccheck/synccheck.go:323-328 | without a wrap the list strictly increases from first to last in gaps of at most one step, with at most 50 values, and every value if the range is under 50 |
| SampledRange.SampleGoesBack | e2e/internal/synccheck/synccheck.go:323-328 | with one it does not, if it ever ends |
| SampledRange.Sample | e2e/internal/synccheck/synccheck.go:319-329 | for any number of turns: a list if and only if the loop ends by then, with the counter's values and the last one, spreading if and only if the counter does not wrap |
| SampledRange.OddInverse | e2e/internal/synccheck/synccheck.go:325 | an odd number has an inverse modulo every power of two |
| SampledRange.NoFurther | e2e/internal/synccheck/synccheck.go:325 | the counter keeps its residue, so it never gets past the last uint64 of that residue |
| SampledRange.GetsThere | e2e/internal/synccheck/synccheck.go:325 | and it gets to that one after some number of turns |
| SampledRange.EverEndsIff | e2e/internal/synccheck/synccheck.go:319-329 | the loop ends after some number of turns if and only if the last value is not past that uint64 |
| SampledRange.FullRangeNeverEnds | e2e/internal/synccheck/synccheck.go:319-329 | over the full uint64 range no number of turns ends the loop |

## Left out

- HTTP, JSON, gRPC, Docker and Kurtosis clients: foreign calls, replaced by reads, streams and enclaves that may fail.
- Polling with `Eventually`, timeouts and clocks: a poll is one of any finite number of attempts, and a retry loop has a number of ticks.
- SHA-256, ML-DSA-87 verification and the RANDAO onion: library cryptography, or a plain iterate of the hash.
- Slashings, and chains that reorganise while they are read: the ledger has no slashings, and every poll reads the same chain.
- Comparing hex roots and addresses without regard to case: roots and addresses are values here.
- Lower-casing, in suite failure reasons, of characters that cannot spell the word looked for.
- Error texts, suite names, failure messages and locations, and markdown: errors are tags, and a failure is its spec and state.
- Files: reports, summary, manifest and diagnostics are written or not as a flag says; diagnostics files are keyed by service name and nothing is claimed about them.
- `DomainDeposit`, `params.Shor` and the constants of the chain are symbolic.
- Slice lengths as int: they are unbounded.
- An engine that fails one lane because of another's load: a failing call like any other.
- How port bindings are printed.
- Stopping and starting services, sidecars, sync nodes, flags, profiles and image references: they would add easier members.
- Sorting.Sort: takes the least remaining item each time, and does not model the library's sort, whose result on distinct keys is the same.
- DevnetManager.Manager.StartNetwork: the resolved environment is not part of the result, and which error says what is a tag.
- LaneLifecycle.ExecuteLane: starts where the enclave has had no events yet, as each lane of a run does; the process's arguments and environment are not modelled.
- LaneLifecycle.RunInOrder: needs enclaves that differ, which RunnerPlansAreDistinct shows of every run of the runner.
- Bitlist.DecodesEncoding: reads the bits of a byte by halving instead of by mask.
