# Stake indexer: a verified model

The stake indexer follows a Bitcoin-like chain, keeps the unspent outputs and balances of tracked stake
addresses, rolls back on reorganisations, and settles block rewards between indexers and stakers from proofs
that the indexers submit. This project models its core in Dafny and proves what the program relies on.
`dafny verify dfyconfig.toml` checks everything.

| files | what they model |
|---|---|
| `Words`, `Maps`, `Ledger` | word sizes; sums over maps; blocks, chain validity and the per-block fold that is the reference |
| `BatchModel`, `BatchRefinement` | parsing blocks against block-local and batch-global maps, one commit per batch |
| `Rollback`, `Balances`, `IndexerState`, `Runs`, `UndoCoverage`, `UndoGuard` | undo, balances and stake totals, the persistent state machine, every run of it |
| `ParseSteps`, `AccountSteps`, `TableSteps`, `RoundSteps`, `Indexer` | the same as classes with loops over mutable fields, round after round proved equal to the state machine |
| `Splits`, `Rewards`, `RewardFlow`, `RewardCredits` | the two-layer proportional reward split |
| `Penalty`, `Text`, `Proofs`, `ProofFlow` | delay penalty, canonical proofs, proof verdicts |
| `SlowStake`, `Settlement`, `Commission` | lagged consumers, finality of a settlement, the delayed commission register |
| `Pipeline` | the concurrent block pipeline as a step machine |
| `Vlq`, `Amount`, `AmountWrap`, `TxOutCodec` | compressed numbers, amounts, scripts and outputs |
| `Wire`, `TxFormat`, `TxFlow` | transactions and blocks on the wire |
| `Ordinals`, `OrdinalsGrammar`, `OrdinalsMeaning`, `OrdinalsScan`, `OrdinalsComplete`, `OrdinalsFlow` | the envelope parser |

Stores are maps, tables are maps keyed by height or key, and loops over Go maps pick elements in any order.
Floating point is exact reals plus an explicit error term for each quantized value. Hypotheses that come from
outside the program: no outpoint is created or spent twice; transaction ids are unique; a stake address
determines its indexer and user, and is not one of the reward-claim senders that are always tracked; the block at
height 0 binds nothing. That an (indexer, user) has one stake address is assumed only where the in-memory stakes
are to follow a whole chain (`SlowStake.Consumer.Follows`); the table allows more.

What turned out not to hold as one might expect, each with its exact condition:

- Undoing a block that creates and spends a tracked output leaves that output in the store
  (`Rollback.RollbackExactIff`, `Runs.CoveredRollbackConservesIff`).
- The rollback guard is relative to the current height, pruning to the highest one ever submitted; a second
  rollback can be accepted without undo rows (`UndoGuard.GuardAcceptsUncoveredRollback`). When the guard is enough:
  `UndoCoverage.GuardSufficesIff`; when an accepted rollback restores the store and the balances anyway:
  `UndoCoverage.RollbackRestoresIff`, `Runs.RollbackConservesIff`.
- A rollback leaves the UTXO counter alone (`Runs.RollbackKeepsCounterIff`), and undoing every block leaves
  contradictory progress markers (`Runs.RollbackCursorsAgreeIff`).
- Nothing orders the two penalty stages, and the stage-2 products are truncated (`Penalty.PenaltyAgreesIff`).
- Hashes are matched ignoring case but grouped by spelling (`Proofs.OneValidProofIff`).
- Two stake addresses of one (indexer, user) share one entry of the in-memory stakes (`SlowStake.LoadShowsIff`).
- A step percent of 2^32 or more can wrap around, so that the status of a proof is expired and one step later valid
  again (`Penalty.PercentNeverIncreasesIff`). The window ends before that, so no such proof is ever settled and keeping
  the earliest proof costs nothing (`Penalty.WindowKeepsNoMore`, `Proofs.EarliestCostsNothing`).
- A settlement before the first update is effective can read a commission ratio from the future once a second update
  has been accepted (`Commission.LiveFallbackIff`, `Commission.EverySettlementIff`).
- In rounding mode more than the block reward can be handed out (`Splits.RoundingExceedsIff`,
  `Rewards.RoundingOverAllocatesIff`, `Rewards.RoundingBoundAttained`).
- A block too short to parse is skipped and stops staging for good (`Pipeline.SkipDeadlocksIff`).
- Large amounts do not survive compression in 64 bits (`AmountWrap.RoundTripIff`).
- A transaction of no inputs and one output is taken for a witness transaction (`TxFormat.PlainReadsBackIff`).
- One truncated form of a compressed output is accepted (`TxOutCodec.TruncationDetectedIff`).
- The comments in `lib/script/compress.go` say that an uncompressed public key is stored in 33 bytes; the code
  stores 65, and the model follows the code.

## Model

| member | source | states |
|---|---|---|
| Ledger.StoreIsLiveTracked | internal/exec/manager/serial_filtered.go:85-109 | the per-block fold that everything else is compared with is right: on a valid chain the store holds exactly the outputs that were tracked by the end of their own block and that no block spent, with their own data |
| BatchRefinement.SpentResolution | internal/exec/manager/serial_filtered.go:17-83 | resolving inputs in the block, in the batch maps and in the store together finds exactly what the current store holds |
| BatchRefinement.ParseBlockStep | internal/exec/manager/flow_block_submit.go:32-47 | one block parsed against the batch maps moves the store they represent by one step of the per-block fold, with the right balance deltas and undo data, while the tracked set grows between the two phases |
| BatchRefinement.ParseBlocksRepresent | internal/exec/manager/serial_filtered.go:17-109 | after any number of blocks the batch maps over the committed store represent the folded store, and the batch deltas are its change in value, address by address |
| BatchRefinement.ParseBlocksArtifacts | internal/exec/manager/serial_filtered.go:29-47 | the artifacts a batch stages are, block by block, the change in value, the created and the spent outputs of the per-block fold |
| BatchRefinement.BatchCommitRefinesFold | internal/exec/manager/write_commit_flow.go:93-110 | for every valid chain and every batch cut off it, writing absent keys and then deleting gives the per-block fold, and the counter moves by exactly the change in store size |
| Rollback.RollbackGivesResidue | internal/entry/rollback/write_rollback_flow.go:48-56 | undoing a valid chain down to f gives exactly the store before f plus the tracked outputs some undone block both created and spent |
| Rollback.RollbackExactIff | internal/entry/rollback/write_rollback_flow.go:85-109 | undoing is an exact inverse if and only if no undone block creates and spends a tracked output |
| Rollback.InBlockSpendSurvivesRollback | internal/exec/manager/serial_filtered.go:30-36 | a concrete block whose undo leaves an output in the store that was never there |
| Rollback.RollbackSize | internal/entry/rollback/write_rollback_flow.go:85-109 | undoing changes the number of stored outputs by what the undo rows restore less what they delete |
| Balances.BalancesStep | internal/exec/manager/write_commit_flow.go:112-171 | deltas that measure a change of the store keep every balance equal to the value held, without zero entries |
| Balances.TotalsStep | internal/exec/manager/write_commit_flow.go:112-171 | the same deltas keep every indexer total equal to the sum of the balances bound to it |
| Balances.StakersStep | internal/exec/manager/write_commit_flow.go:112-171 | and every staker score equal to its share, after dropping zero scores |
| Balances.BindingKeepsTotalsIff | internal/exec/manager/write_commit_flow.go:42-91 | new bindings keep the stake totals right if and only if no newly bound address already holds a balance |
| IndexerState.PersistIffKept | internal/entry/rollback/undo_retention.go:5-17 | a row is persisted exactly when pruning would keep it |
| Runs.SubmitKeepsInv | internal/exec/manager/write_commit_flow.go:15-40 | a submit keeps the invariant tying store, balances, totals, scores, bindings, tables and cursors to the indexed chain |
| Runs.RollbackStoreExactly | internal/entry/rollback/write_rollback_flow.go:48-56 | what a rollback does to the store whatever undo rows are left: it ends at the higher of f and the lowest height with rows, plus the in-block residue above that |
| Runs.RollbackKeepsInv | internal/entry/rollback/write_rollback_flow.go:13-83 | a rollback that finds its rows and undoes no in-block tracked spend keeps the whole invariant |
| Runs.RollbackConservesIff | internal/entry/rollback/write_rollback_flow.go:111-192 | after any accepted rollback, with or without its undo rows, balances equal the stored outputs if and only if for every address the undone heights without rows moved exactly what the leftover in-block spends of the others are worth |
| Runs.CoveredRollbackConservesIff | internal/entry/rollback/write_rollback_flow.go:111-192 | after a rollback that finds its rows, if and only if every undone in-block tracked spend is worth nothing |
| Runs.EveryRunConserves | internal/exec/manager/write_commit_flow.go:112-171 | over every run of submits and rollbacks from the empty state, without in-block tracked spends among the undone blocks: balances are the stored outputs, zero entries are absent, stake totals and scores are the balances bound to them, the store is the fold of the remaining chain |
| UndoCoverage.SubmitKeepsRows | internal/exec/manager/write_prepare_flow.go:54-79 | a submit of any blocks on any state keeps exactly the undo rows of the committed heights from the floor on, where the floor rises to 100 below the batch end |
| UndoCoverage.RollbackKeepsRows | internal/entry/rollback/write_rollback_flow.go:56-83 | so does a rollback from any height, accepted or not, whatever the progress markers say |
| UndoCoverage.EveryRunKeepsUndoRows | internal/entry/rollback/undo_retention.go:5-17 | over every run of submits and rollbacks whatsoever exactly the committed heights from the floor on have undo rows, the floor is at most 100 below the highest height ever submitted, and every rollback starting no lower than that finds all its rows |
| UndoCoverage.FindsRowsIff | internal/entry/rollback/write_rollback_flow.go:85-109 | a rollback from a committed height finds its rows if and only if it does not start below the floor |
| UndoCoverage.GuardSufficesIff | internal/entry/rollback/write_rollback_flow.go:40-42 | the guard lets through only rollbacks that find their rows if and only if the floor is not above the lowest height the guard accepts |
| UndoCoverage.GuardSufficesAtTip | internal/entry/rollback/write_rollback_flow.go:40-42 | it suffices whenever the tip is the highest height ever submitted |
| UndoCoverage.RollbackRestoresIff | internal/entry/rollback/write_rollback_flow.go:48-56 | any accepted rollback gives back the store before f if and only if the undone heights with rows hold no in-block tracked spend and those without rows left the store as it was |
| UndoCoverage.ExecIsPlay | internal/exec/manager/write_commit_flow.go:15-40 | the steps of the conservation theorem are steps of these unrestricted runs |
| UndoCoverage.RoundIsPlay | main.go:109-205 | what one round of the main loop does to the state is a piece of such a run |
| Runs.AllowedRunsKeepRightRows | internal/entry/rollback/undo_retention.go:5-17 | in the runs of the conservation theorem the undo rows of every indexed height from the floor on are those of its own block |
| UndoGuard.GuardAcceptsUncoveredRollback | internal/entry/rollback/write_rollback_flow.go:40-42 | a run where the guard accepts a second rollback whose rows are gone (submit to 300, roll back from 250, then from 150): an output created at 150 stays in the store |
| Runs.SubmitKeepsCounterDistance | internal/exec/manager/write_commit_flow.go:93-110 | a submit moves the UTXO counter exactly as it changes the number of stored outputs |
| Runs.RollbackKeepsCounterIff | internal/entry/rollback/write_rollback_flow.go:48-83 | a rollback never touches the UTXO counter: a right counter stays right if and only if the applied undo rows delete as many outputs as they restore |
| Runs.CounterGoesWrong | internal/entry/rollback/write_rollback_flow.go:48-83 | one funding block submitted and undone: the store is empty, the counter says one |
| Runs.RollbackCursorsAgreeIff | internal/entry/rollback/write_rollback_flow.go:56-83 | after a rollback the progress markers agree if and only if some block is still indexed |
| Indexer.Indexer.AddTrackedAddressDelta | internal/exec/manager/serial_filtered.go:125-148 | adds to the address delta and removes an entry that reaches zero; untracked outputs change nothing |
| Indexer.Indexer.ParseGetSpentStakeUtxoData | internal/exec/manager/serial_filtered.go:17-83 | the loops over spent keys in any order leave the block and batch maps of the value model |
| Indexer.Indexer.UpdateStakeUtxoInMap | internal/exec/manager/serial_filtered.go:85-109 | the loop over new outputs leaves the block and batch maps of the value model, with the tracked set as it is after the bindings |
| Indexer.Indexer.ParseSerial | internal/exec/manager/flow_block_submit.go:32-47 | both phases of one block around the insertion of its bindings |
| Indexer.Indexer.ParseLongestChain | internal/exec/manager/flow_chain_pipeline.go:146-164 | the batch maps and staged artifacts after a list of blocks are those of the value model that the refinement theorem is about |
| Indexer.Indexer.ApplyDeltas | internal/exec/manager/write_commit_flow.go:112-171 | balances, totals and scores after the delta loop are the closed form, in any iteration order |
| Indexer.Indexer.FlushIndexerBlockArtifacts | internal/exec/manager/write_prepare_flow.go:30-85 | delta rows of every height are replaced, undo rows written when within the retention distance and pruned below it |
| Indexer.Indexer.InsertStakeBindings | internal/component/pg/stake_bindings.go:35-62 | an existing row for a stake address stays, every other binding gets a row at the height |
| Indexer.Indexer.UpdateUtxoInPikaAdd | internal/exec/manager/flow_block_submit.go:97-171 | every new output is written only where its key is absent |
| Indexer.Indexer.UpdateUtxoInPikaDel | internal/exec/manager/flow_block_submit.go:59-95 | deleting in slices of bounded size deletes exactly the marked keys |
| Indexer.Indexer.CommitUtxoWritesAndCursor | internal/exec/manager/write_commit_flow.go:93-110 | the store becomes the committed store of the value model, the cursor the batch end, the counter grows by new minus spent |
| Indexer.Indexer.SubmitBlocks | internal/exec/manager/write_commit_flow.go:15-40 | the whole persistent state becomes the submit step of the state machine and the batch is cleared |
| Indexer.Indexer.IndexBlocks | internal/exec/manager/flow_block_submit.go:54-57 | parsing and submitting the next blocks is one submit step of the state machine, and the cache of bindings equals the table again |
| IndexerState.ReloadGivesTable | internal/exec/manager/state_bindings.go:18-47 | loading below the loaded height gives the table whatever was cached, filling the empty cache of a process just started does too, and a cache that equals the table stays as it is |
| Indexer.Indexer.LoadStakeBindingsToHeight | internal/exec/manager/state_bindings.go:18-47 | loads the rows above the loaded height up to the given one, from scratch when the height went back |
| Indexer.Indexer.EnsureIndexerDataConsistency | internal/exec/manager/reconcile_heights.go:16-42 | succeeds exactly when the three progress markers are all missing or all equal, with the next height |
| Indexer.Indexer.ReloadAndIndex | main.go:142-196 | reloading the cache and indexing what is offered is one submit step, from whatever a rollback or a restart left in the cache |
| Indexer.Indexer.Round | main.go:109-205 | check, rollback, reload and index, in a running or a just started process: the state becomes the rollback step from the lowest differing height and then the submit step, and the next round can start; with a look-back of at most 101 it is never refused |
| Indexer.Indexer.Restart | main.go:103-107 | a new process over any committed stores can start its first round, and the stores are those it found |
| Indexer.Indexer.RollbackUtxoOneBlock | internal/entry/rollback/write_rollback_flow.go:85-109 | deletes what the height created, then restores what it spent, missing rows doing nothing |
| Indexer.Indexer.RollbackRealtimeBalanceFromHeight | internal/entry/rollback/write_rollback_flow.go:111-192 | applies the negated deltas of every height from the balance cursor down to f, and nothing when the cursor is missing or lower |
| Indexer.Indexer.GetLatestCommittedHeight | internal/entry/rollback/write_rollback_flow.go:13-37 | the greatest committed height, if there is one |
| Indexer.Indexer.RollbackIndexerFromHeight | internal/entry/rollback/write_rollback_flow.go:13-83 | refuses exactly when the range reaches further below the UTXO cursor than 100, changing nothing; otherwise each side is undone from its own marker, whatever the markers say |
| Indexer.Indexer.RollbackCheckWithFloor | internal/entry/rollback/entry.go:8-62 | finds the lowest height in the look-back range where node and database differ and rolls back from it; with agreeing markers and a look-back of at most 101 it is never refused |
| RoundSteps.LowestIsFirstDifference | internal/entry/rollback/entry.go:8-62 | the height rolled back from is the lowest of the last look-back committed heights, not below the floor, where node and database do not have the same hash |
| RoundSteps.NextHeightIsNext | main.go:112-135 | the next height is where the rollback started, else the one after the last committed, but not below the start height |
| Splits.QuantizeNear | internal/exec/manager/handler_reward.go:718-726 | a quantized value is below its exact value plus epsilon (half, when rounding) and above it less one (half), apart from the error term |
| Splits.QuantizeMeans | internal/exec/manager/handler_reward.go:718-726 | truncation adds a billionth and rounds down, rounding goes to the nearest with halves up, and nothing is paid for what is not positive |
| Splits.SplitNear | internal/exec/manager/handler_reward.go:193-281 | the parts of a proportional split add up to the amount up to one quantization step per part |
| Splits.SplitNeverExceeds | internal/exec/manager/handler_reward.go:718-726 | with truncation and few enough parts a split never hands out more than the amount |
| Splits.RoundedPayout | internal/exec/manager/handler_reward.go:718-726 | a rounded part times twice the total weight, plus its remainder, is twice the exact part plus one total weight |
| Splits.RoundingExceedsIff | internal/exec/manager/handler_reward.go:718-726 | a rounding split hands out more than the amount if and only if the remainders add up to less than the number of parts times the total weight, and by exactly the surplus |
| Rewards.UnlockedAtMostReward | internal/exec/manager/handler_reward.go:178-181 | what is unlocked is at most the block reward |
| Rewards.UnlockedNear | internal/exec/manager/handler_reward.go:169-181 | what is unlocked is the release percent of the block reward, at most all of it, apart from quantization |
| Rewards.EffectiveIsPercent | internal/exec/manager/handler_reward.go:147-158 | the effective stake is the kept percent of the stake, rounded down |
| Rewards.FirstNear | internal/exec/manager/handler_reward.go:193-195 | an indexer gets the part of its effective stake in all effective stakes, apart from quantization |
| Rewards.OwnerNear | internal/exec/manager/handler_reward.go:197-206 | the owner gets the commission ratio of the indexer's part, apart from quantization |
| Rewards.NoRatioNoOwner | internal/exec/manager/handler_reward.go:197-206 | without a commission ratio the owner gets nothing |
| Rewards.StakerNear | internal/exec/manager/handler_reward.go:248-256 | a staker gets the part of its stake in the indexer's stakes out of what the owner leaves, apart from quantization |
| Rewards.TruncationNeverOverAllocates | internal/exec/manager/handler_reward.go:193-281 | in truncation mode owner and staker parts together are at most the first-layer parts, those at most the unlocked reward, and that at most the block reward, for any error term as long as each split has fewer than 1 / (epsilon + error) participants |
| Rewards.BelowABillion | internal/exec/manager/handler_reward.go:718-726 | with exact arithmetic and fewer than 10^9 participants in every split, truncation never hands out more than is unlocked |
| Rewards.TruncationDust | internal/exec/manager/handler_reward.go:193-281 | less than one unit (plus the error term) per indexer and staker stays undistributed |
| Rewards.DistributedNearUnlocked | internal/exec/manager/handler_reward.go:193-281 | in both modes everything handed out is within one quantization step per participant of what is unlocked |
| Rewards.RoundingBound | internal/exec/manager/handler_reward.go:193-281 | in rounding mode the first layer and each pool are off by at most half a unit per participant, and total over-allocation is at most half of all participants |
| Rewards.RoundingOverAllocatesIff | internal/exec/manager/handler_reward.go:193-281 | in rounding mode exactly the surpluses of the split over indexers and of every split over stakers are handed out beyond what is unlocked, so more is handed out if and only if they add up to more than zero |
| Rewards.RoundingBoundAttained | internal/exec/manager/handler_reward.go:718-726 | any even number of equal indexers with two equal stakers each hand out four times the block reward, which is the whole of the bound |
| RewardFlow.SumStakes | internal/exec/manager/handler_reward.go:147-150 | the loop over stakers sums their stakes |
| RewardFlow.WeighIndexers | internal/exec/manager/handler_reward.go:133-163 | the loop over indexers gives exactly the non-zero effective weights, their raw stakes and their total, in any order |
| RewardFlow.PayStakers | internal/exec/manager/handler_reward.go:248-281 | the staker loop pays exactly the specified parts of the pool, counts them per user and writes rows for bound stake addresses only |
| RewardFlow.AllocateReward | internal/exec/manager/handler_reward.go:125-281 | what one block stages, in any order of the loops: exactly the specified increments and rows; apart from quantization each indexer gets the part of its effective stake, its owner the commission ratio of that, and each staker the part of its stake in the rest |
| RewardCredits.PaidAddsUp | internal/exec/manager/handler_reward.go:248-281 | the payments per (indexer, user) add up to the payments per indexer |
| RewardCredits.CreditedIsDistributed | internal/exec/manager/handler_reward.go:217-281 | the users' counters grow by what the two layers hand out, less the owner parts of indexers without a user address |
| RewardCredits.CreditsWithinReward | internal/exec/manager/handler_reward.go:193-281 | in truncation mode the counters of all users together grow by no more than the unlocked reward |
| Penalty.ResolveStage3Percent | internal/exec/manager/handler_reward.go:704-716 | the search loop returns 100, 95, 87, 75, 59, 35 or 10 beside the first of the seven bounds that is at least the delay, the default bounds when there are not seven, and 0 beyond them all |
| Penalty.Stage1Table | internal/component/pg/stake_proofs.go:398-408 | before both stages, or with their starts not set, a proof is delayed exactly when its delay is beyond a trigger that is set, and keeps 95 percent then |
| Penalty.Stage2Table | internal/component/pg/stake_proofs.go:363-381 | in stage 2 a proof loses the step percent for every full step of its delay, in 64 bits, and nothing when the steps are not set; it is expired when that is 100 or more |
| Penalty.Stage3Table | internal/exec/manager/handler_reward.go:704-716 | in stage 3 the status changes at the first and the seventh bound, configured or default, and the percent at every bound, from 100 to 10 and then 0 |
| Penalty.Stage3BeforeStage2 | internal/exec/manager/handler_reward.go:673-679 | in stage 3 before the start of stage 2 a delayed proof keeps 95 percent |
| Penalty.Stage1Window | conf/init.go:224-232 | before both stages the window is the configured one |
| Penalty.NotLate | internal/component/pg/stake_proofs.go:363-381 | a proof mined no later than the height it proves is valid and keeps everything |
| Penalty.PenaltyAgreesIff | internal/component/pg/stake_proofs.go:349-396 | for every loaded configuration and penalised height: Expired iff percent 0 iff beyond the window, Valid iff percent 100, for every proof, exactly when stage 3 does not start before stage 2 there, the stage-2 window fits in 32 bits and its dividend in 64, and no step is forgiven by wrapping around |
| Penalty.DisagreeSomewhere | conf/init.go:224-232 | otherwise the proof one block after the window, or one block after a forgiven step, is a counterexample |
| Penalty.WindowHoldsNoExpired | conf/init.go:224-232 | for every loaded configuration no proof inside the window is expired and each keeps a positive percent, from stage 2 on that of its delay |
| Penalty.WindowKeepsNoMore | internal/exec/manager/handler_reward.go:673-716 | for every loaded configuration a later proof inside the window never keeps more than an earlier one |
| Penalty.PercentNeverIncreasesIff | internal/exec/manager/handler_reward.go:673-716 | the two functions alone, at any delay: a later proof never keeps more and stays expired, for every two proofs, if and only if the height is outside stage 2 or no step there is forgiven by wrapping around |
| Penalty.WaitingCanPay | internal/component/pg/stake_proofs.go:349-396 | steps of one block at 2^63 percent: expired after one step, valid again after two, both beyond the window of one block |
| Penalty.SmallPercentsForgiveNothing | internal/component/pg/stake_proofs.go:349-396 | no step percent below 2^32 has a forgiven step |
| Penalty.ParseStage3Blocks | conf/init.go:273-297 | accepts exactly seven strictly increasing positive 32-bit bounds and otherwise reports the first fault |
| Proofs.NoneExpired | internal/component/pg/stake_proofs.go:202-215 | no proof that the window query returns is given the verdict Expired, and each earns a positive percent |
| Proofs.SelectedIff | internal/component/pg/stake_proofs.go:79-92 | the query returns the proofs of a height mined in the blocks after it up to the end of the window, and none when that end is beyond 32 bits |
| Proofs.CanonicalIsBest | internal/component/pg/stake_proofs.go:264-339 | every matching proof that the window query returns has a canonical proof in its group that is no later, is not expired and earns no less |
| Proofs.DuplicatesEarnNoMore | internal/component/pg/stake_proofs.go:419-427 | no discarded duplicate would have earned a higher stake percent than a valid proof kept instead |
| Proofs.EarliestCostsNothing | internal/component/pg/stake_proofs.go:202-215 | whatever the table holds, the valid proof kept for a group earns at least what any of its matching proofs in the window would |
| Proofs.OneValidProofIff | internal/component/pg/stake_proofs.go:298-336 | an indexer has at most one valid proof if and only if its matching proofs in the window spell the hash the same way |
| Proofs.LowerCaseGivesOneValid | internal/component/pg/stake_proofs.go:298-336 | with lower-case hashes an indexer has at most one valid proof, the earliest of its matching ones |
| Proofs.CanonicalIsFirstMined | internal/component/pg/stake_proofs.go:419-427 | the canonical proof of an indexer and hash is the one of least height, then least transaction index, then least id |
| Proofs.ValidIsFirstMined | internal/component/pg/stake_proofs.go:288-336 | a valid proof was mined before every other one of its indexer with that hash, and those are duplicates |
| Proofs.MatchesIff | internal/component/pg/stake_proofs.go:341-347 | a proof matches when its hash is, but for case, the digest of indexer, block hash and state hash joined by colons |
| Proofs.MatchesNormalised | internal/component/pg/stake_proofs.go:341-347 | case and surrounding blanks of the three parts do not matter |
| Text.TrimIs | internal/component/pg/stake_proofs.go:341-347 | what is trimmed is blank on both sides and what is left neither starts nor ends blank |
| Text.FoldIff | internal/component/pg/stake_proofs.go:305-314 | two texts are equal but for case when they differ only in letters 32 apart |
| Text.LessIff | internal/component/pg/stake_proofs.go:419-427 | the order of ids is decided where they first differ |
| Proofs.TwoSpellingsTwoValid | internal/component/pg/stake_proofs.go:305-314 | two spellings of the expected hash give two valid proofs for one indexer |
| Proofs.SettledPercentIsBestEarned | internal/exec/manager/handler_reward.go:379-396 | resolution followed by the maximum gives each allowed indexer exactly the best percent any of its matching proofs would earn |
| ProofFlow.GroupProofs | internal/component/pg/stake_proofs.go:274-300 | the grouping loop keeps, per indexer and hash, the earliest proof and all others once |
| ProofFlow.ResolveGroup | internal/component/pg/stake_proofs.go:306-336 | one group gets its verdicts and at most its earliest proof becomes valid |
| ProofFlow.ResolveStakeProofValidity | internal/component/pg/stake_proofs.go:264-339 | every proof gets exactly one status, its verdict; every valid proof is returned once; the result depends on the set of proofs only; empty hashes are errors |
| ProofFlow.ResolveStakePercents | internal/exec/manager/handler_reward.go:379-396 | the loop gives each allowed, non-blank indexer the highest percent among its valid proofs, and nobody else |
| SlowStake.DeltasKeepShowingIff | internal/exec/manager/state_bindings.go:85-127 | after a block's deltas the in-memory stakes still equal the snapshot balances if and only if no negative balance is credited |
| SlowStake.ShownStakesUnique | internal/exec/manager/state_bindings.go:18-80 | a rebuilt map can differ from a maintained one only in explicit zeros |
| SlowStake.LoadShowsIff | internal/exec/manager/state_bindings.go:43-80 | whatever the order of reading, the loader shows every balance if and only if addresses that share an (indexer, user) have the same balance |
| SlowStake.SharedBindingLosesOne | internal/component/pg/db_init_schema.go:189-202 | two stake addresses of one (indexer, user), which the table allows: the loader shows one balance and loses the other |
| SlowStake.SnapshotStep | internal/entry/slow/runner.go:178-222 | the deltas of a chain's block take the value held before it to the value held after it and never credit a negative balance |
| SlowStake.EverySnapshotIsValueHeld | internal/entry/slow/write_flow.go:10-32 | along every chain the snapshot is at every height the value held by each address |
| SlowStake.Consumer.LoadStakeBindingsToHeight | internal/exec/manager/state_bindings.go:18-80 | caches every binding up to the height, from scratch when the height went back, for any rows; from a memory that shows the balances it shows them afterwards if and only if sharing addresses agree |
| SlowStake.Consumer.StageStakeBalanceDeltas | internal/exec/manager/state_bindings.go:85-127 | in any order everyone moves by the sum of its addresses' deltas unless the floor of zero cuts in; with one address each, every address by its own delta, clamped |
| SlowStake.Consumer.ConsumeBlock | internal/entry/slow/runner.go:178-222 | the snapshot moves by the block's deltas; with one address each, the stakes go on equalling the snapshot balances if and only if no negative balance is credited |
| SlowStake.Consumer.ConsumeUpTo | internal/entry/slow/runner.go:117-136 | consuming an indexed chain height by height, with restarts anywhere: the snapshot is the value held at that height, and the stake per (indexer, user) is the value its stake address holds |
| SlowStake.FollowChain | internal/entry/slow/runner.go:43-136 | a new consumer follows every chain from its first height on, to any height and through any restarts |
| SlowStake.Consumer.Restart | internal/entry/slow/runner.go:43-58 | a restart from the cursor rebuilds the same bindings, and the same stakes where they equalled the snapshot balances |
| Settlement.SelectPendingEnd | internal/entry/slow/pending_runner.go:76-91 | every height of a batch may be processed, and the batch stops only at its limit or before a height that may not |
| Settlement.SelectSettledRange | internal/entry/slow/runner.go:80-115 | next height, readiness and batch end; every height of the batch lags by at least the configured number of blocks |
| Settlement.CommitsStableIff | internal/component/pg/stake_proofs.go:79-92 | no next commit can change the proofs selected for a height if and only if the lag is at least the window |
| Settlement.CanProcessIff | internal/entry/slow/pending_runner.go:123-129 | a height may be processed exactly when it is below the indexed one and no commit after that can change the proofs selected for it |
| Settlement.ProcessedIsFinalUnderCommits | internal/entry/slow/pending_runner.go:123-129 | once a height may be processed no sequence of later commits changes its selection |
| Settlement.RollbackKeepsSelectionIff | internal/component/pg/stake_rollback.go:19-33 | a rollback keeps a selection if and only if nothing selected is at or above its start |
| Settlement.SettledIsFinal | internal/entry/slow/pending_runner.go:76-129 | with a lag beyond the window plus 100, no run of commits and of rollbacks within 100 of the high-water mark changes the selection or the valid proofs in it |
| Settlement.RollbackStableIff | internal/entry/rollback/write_rollback_flow.go:40-42 | at the tip this distance is exact: with a smaller lag some table and some accepted rollback change the selection |
| Settlement.GuardedRollbacksReach | internal/entry/rollback/write_rollback_flow.go:40-42 | accepted rollbacks in a row reach every height, so the guard alone makes no selection final |
| Pipeline.StepKeepsInv | internal/exec/manager/flow_chain_pipeline.go:25-144 | every step of producer, workers, consumer and final stage keeps the invariant over tokens, channels, buffer and turn |
| Pipeline.TokenReceiveNeverBlocks | internal/exec/manager/flow_chain_pipeline.go:120-136 | when a block's turn has come there is a token to receive |
| Pipeline.ReadySendNeverBlocks | internal/exec/manager/flow_chain_pipeline.go:60-90 | a worker can always send its parsed block |
| Pipeline.StuckShape | internal/exec/manager/flow_chain_pipeline.go:25-164 | a state that cannot move is shut down, or waits for a height that was skipped with all tokens taken |
| Pipeline.RunsAreBounded | internal/exec/manager/flow_chain_pipeline.go:25-164 | every run is finite |
| Pipeline.EveryRunStagesInOrder | internal/exec/manager/flow_chain_pipeline.go:25-144 | with no skipped height, for every interleaving blocks are staged exactly once in consecutive height order, and a state that cannot move has shut down after staging every dispatched block |
| Pipeline.SkippedHeightBlocksStaging | internal/exec/manager/flow_chain_pipeline.go:51-53 | nothing at or above a skipped height is ever staged |
| Pipeline.SkipDeadlocksIff | internal/exec/manager/flow_chain_pipeline.go:51-53 | whatever heights are skipped, a deadlock is reachable if and only if more than 64 blocks are to be dispatched above the first of them |
| Commission.RatioAtIsLatest | internal/exec/manager/handler_reward.go:581-605 | the reference is the ratio of the latest update that is effective, else the registered one |
| Commission.ReadIsRatioAt | internal/exec/manager/handler_protocol.go:342-354 | reading the register gives the reference at every height from the last operation on |
| Commission.OverwriteKeeps | internal/exec/manager/handler_protocol.go:220-260 | promote-before-overwrite keeps the register faithful to the history when nothing was waiting |
| Commission.EveryRunReadsLatest | internal/exec/manager/handler_protocol.go:220-260 | over every run of updates and reads at non-decreasing heights the one-slot register answers like the full history of accepted updates |
| Commission.UnguardedOverwriteIff | internal/exec/manager/business_invalid_flags.go:58-62 | without the guard an overwrite is harmless if and only if the lost update would never have shown |
| Commission.ReplayReadsLatest | internal/exec/manager/handler_protocol.go:246-257 | the lagged register, to which accepted updates are replayed without a guard of its own, answers like the full history all the same |
| Commission.LooksOnlyPromote | internal/exec/manager/handler_reward.go:537-605 | whatever was settled before, a register is that of the replayed updates, or that with its pending update promoted, effective by then |
| Commission.LaggedReads | internal/exec/manager/handler_reward.go:581-605 | the lagged register that has seen the updates made by a height, and any earlier settlements, reads the ratio in force there |
| Commission.AcceptedIsForward | internal/exec/manager/handler_protocol.go:225-229 | accepted updates become effective no earlier than they are made unless the height overflows 32 bits |
| Commission.LiveFallbackIff | internal/exec/manager/handler_reward.go:537-605 | settling a height reads the ratio in force there if and only if there are fewer than two updates, the first is effective by that height, or the last but one has the registered ratio |
| Commission.LiveFallbackLeaks | internal/exec/manager/handler_protocol.go:231-245 | updates at 10 (effective at 20) and 25: the second promotes the first in the live register, and settling height 15 reads it |
| Commission.EverySettlementIff | internal/exec/manager/handler_reward.go:53-80 | over every run of the tip and the settling consumer, each settlement reads the ratio in force at its height, as later updates leave it, if and only if fewer than two updates have been accepted so far, the first is effective there, or the last but one has the registered ratio |
| Commission.CommissionStore.StageCommissionRatioForHeight | internal/exec/manager/handler_protocol.go:342-354 | promotes a pending ratio exactly when it is effective, for that indexer only |
| Commission.CommissionStore.HasUneffectiveDelayedCommissionRatio | internal/exec/manager/handler_protocol.go:334-340 | true exactly when an update waits to become effective |
| Commission.CommissionStore.UpdateRatio | internal/exec/manager/handler_protocol.go:189-260 | accepts a ratio from 0 to 0.15 from the indexer's own user exactly when no update waits, as one step of the register, and otherwise changes nothing |
| Commission.CommissionStore.ReplayUpdate | internal/exec/manager/handler_protocol.go:246-257 | promotes what is due and overwrites, for that indexer only |
| Commission.CommissionStore.LatestRatio | internal/exec/manager/handler_reward.go:537-579 | the promoted live ratio, else the registered one; the register of this indexer is promoted at a positive height and no other changes |
| Commission.CommissionStore.SnapshotRatio | internal/exec/manager/handler_reward.go:581-605 | the promoted lagged ratio, else the live one; the lagged register of this indexer is promoted, its live one only when the fallback is taken, and no other register of either store changes |
| Commission.CommissionStore.ConsumeHeight | internal/exec/manager/handler_reward.go:53-80 | replaying the updates of a block and reading the ratio of a paid indexer is one step of the run, on both stores, and reads what the run says |
| Commission.CommissionStore.Flush | internal/exec/manager/state_staging.go:44-101 | moving staged fields to Redis changes no register |
| Vlq.DecodeEncode | lib/script/compress.go:90-103 | decoding recovers number and length, whatever follows |
| Vlq.EncodeValue | lib/script/compress.go:63-85 | every terminated byte sequence is the encoding of its value: no number has two encodings |
| Vlq.EncodeDecodeIff | lib/script/compress.go:90-103 | re-encoding a decoded terminated sequence gives it back if and only if its value fits in 64 bits |
| Vlq.SerializeSizeVLQ | lib/script/compress.go:49-56 | the computed size is the length of the encoding |
| Vlq.PutVLQ | lib/script/compress.go:63-85 | writes exactly the encoding, reversed in place, and changes nothing else |
| Vlq.DeserializeVLQ | lib/script/compress.go:90-103 | the loop computes the decoding, with 64-bit wrap-around |
| Amount.CompressIsPack | lib/script/compress.go:450-475 | an amount m * 10^e is compressed from its unique representation |
| Amount.RepresentedOnce | lib/script/compress.go:450-475 | every positive amount has exactly one representation |
| Amount.DecompressCompress | lib/script/compress.go:480-515 | decompression undoes compression on all naturals |
| Amount.CompressDecompress | lib/script/compress.go:450-475 | compression is onto |
| Amount.CompressAtMostNinefold | lib/script/compress.go:450-475 | compression grows an amount at most ninefold |
| Amount.CompressTxOutAmount | lib/script/compress.go:450-475 | the loop computes the compression modulo 2^64, exactly when 9 * amount fits |
| Amount.DecompressTxOutAmount | lib/script/compress.go:480-515 | the loop computes the decompression modulo 2^64 |
| AmountWrap.RoundTripIff | lib/script/compress.go:450-515 | through 64-bit arithmetic the round trip is exact if and only if the compression fits in 64 bits, that is, if the amount ends in 0 or 9 * a + a % 10 - 9 is below 2^64; every amount up to (2^64 - 1) / 9 is |
| AmountWrap.WrappedNeverReturns | lib/script/compress.go:480-515 | a wrapped compression never decompresses to the amount |
| Amount.LargestAmountWraps | lib/script/compress.go:450-515 | the largest 64-bit amount does not survive |
| TxOutCodec.ScriptRoundTrip | lib/script/compress.go:265-408 | decompressing a compressed script recovers it, and its size is found whatever follows |
| TxOutCodec.CompressedForms | lib/script/compress.go:174-333 | byte by byte, which scripts are standard, and what is written for each and for any other |
| TxOutCodec.LengthDecides | lib/script/compress.go:552-571 | a length prefix of six or more gives the script of that many bytes less six, the end-of-data error when there are fewer, and an error when the size is negative as a 64-bit integer |
| TxOutCodec.TxOutRoundTripIff | lib/script/compress.go:543-571 | decoding an encoded output recovers amount, script and byte count, whatever follows, if and only if the amount ends in 0 or its packed form fits in 64 bits |
| TxOutCodec.DecodedTxOut | lib/script/compress.go:552-571 | script and byte count are recovered for every amount |
| TxOutCodec.TruncationDetectedIff | lib/script/compress.go:552-571 | a truncated output is refused with the right error, except when cut after a first script byte 0x85, which decodes to the amount with an empty script |
| TxOutCodec.CompressedScriptSize | lib/script/compress.go:235-260 | the computed size is the length of what is written |
| TxOutCodec.PutCompressedScript | lib/script/compress.go:295-333 | writes exactly the compressed script and changes nothing else |
| TxOutCodec.PutCompressedTxOut | lib/script/compress.go:543-547 | writes exactly the encoded output and changes nothing else |
| Wire.ReadVarIntBack | utils/utils.go:14-24 | decoding a variable-length integer recovers it, whatever follows |
| Wire.EncodeVarInt | utils/utils.go:26-43 | writes exactly the encoding and changes nothing else |
| Wire.NumberIsWeighted | utils/utils.go:26-43 | a number on the wire has its least significant byte first |
| Wire.LittleEndianByte | utils/utils.go:26-43 | byte i of a number written in little-endian order is its digit i to base 256 |
| TxFormat.StackReadsBack | utils/utils.go:45-61 | parsing a witness stack recovers every item |
| TxFormat.WitnessReadsBack | internal/parser/node/tx.go:43-88 | a serialization with witness is parsed to the transaction with the right witness offset, and nothing more is consumed |
| TxFormat.PlainReadsBackIff | internal/parser/node/tx.go:43-88 | a serialization without witness is parsed back if and only if it does not have no inputs and one output |
| TxFormat.PreimageIsPlain | utils/utils.go:63-75 | the bytes hashed for the id of a witness transaction are its serialization without witness |
| TxFormat.StrippedReadsBack | internal/parser/node/tx.go:146-202 | for every transaction with at least one input, parsing the stripped bytes consumes exactly them and yields the transaction without unlocking data, witness and OP_RETURN payloads |
| TxFormat.StrippedSays | internal/parser/node/tx.go:146-202 | the printed bytes parse to the same version, lock time, outpoints, sequences and amounts, with empty unlocking data and witness, and with scripts that start with 0x6a or 0x00 0x6a cut to 0x6a |
| TxFlow.NewTx | internal/parser/node/tx.go:43-88 | the loops compute the parser, running out of bytes included |
| TxFlow.NewTxWit | utils/utils.go:45-61 | the loop computes the stack parser |
| TxFlow.NewRawTxIn | internal/parser/node/tx.go:172-180 | writes the input without unlocking data |
| TxFlow.NewRawTxOut | internal/parser/node/tx.go:182-202 | writes the amount and the script, of a script that starts with 0x6a or 0x00 0x6a only 0x6a |
| TxFlow.NewRawTx | internal/parser/node/tx.go:146-170 | writes exactly the serialization without witness of the stripped transaction, which parses to what StrippedSays lists |
| TxFlow.NewTxs | internal/parser/node/tx.go:10-41 | the loop parses the transaction list and refuses it at the first transaction without inputs or outputs |
| TxFlow.BlockReadsBack | internal/parser/node/tx.go:10-41 | parsing a block's transaction list recovers every transaction in order with its own bytes, and its id is always taken over the serialization without witness |
| Ordinals.GetOpcode | lib/script/utils.go:51-86 | a recognised opcode is not empty and lies inside the script |
| Ordinals.Next | lib/script/inscription_jubilee.go:16-31 | whatever is recognised consumes at least one byte and lies inside the script |
| OrdinalsGrammar.OpcodeOfToken | lib/script/utils.go:20-86 | every push token, in all header forms, is recognised with its data, whatever follows |
| OrdinalsMeaning.AddTagMeaning | lib/script/inscription_jubilee.go:166-181 | reading a tag moves pushnum, unrecognised-even and duplicate flags to the meaning of the longer tag list |
| OrdinalsMeaning.AddValueMeaning | lib/script/inscription_jubilee.go:183-250 | reading a value moves the item to the meaning of the longer field list |
| OrdinalsScan.EnvelopeParses | lib/script/inscription_jubilee.go:110-252 | a well-formed envelope is parsed to its meaning and exactly its bytes are consumed: body the concatenated pushes; duplicate, unrecognised-even, incomplete and pushnum set exactly when the field list has that shape; first values, joined metadata, valid parents and delegate |
| OrdinalsMeaning.EvenIs | lib/script/inscription_jubilee.go:171-173 | the unrecognised-even test holds for a tag of even first byte other than the one-byte tag 2 |
| OrdinalsMeaning.IdIs | lib/script/model.go:212-220 | a delegate or parent is 32 to 36 bytes and does not end in zero when it is 33 to 35 bytes |
| OrdinalsMeaning.PointerIs | lib/script/inscription_jubilee.go:233-238 | a pointer is the number of the first eight bytes, the least significant first |
| OrdinalsScan.KeyCheckIff | lib/script/inscription_jubilee.go:39-46 | the key check holds exactly for a script of a 32-byte key, 0xad and a number from 1 to 8 with something behind them |
| OrdinalsScan.ItemsOfScript | lib/script/inscription_jubilee.go:33-260 | a script of envelopes with other opcodes between them gives one item per envelope in order, stuttering exactly when a lone empty push, with or without IF, stands right before it |
| OrdinalsScan.OneItemPerEnvelope | lib/script/inscription_jubilee.go:33-260 | any concatenation of well-formed envelopes gives one item per envelope, in order |
| OrdinalsComplete.PushIff | lib/script/utils.go:20-86 | a script starts with a push exactly when it starts with one of the push forms, whole |
| OrdinalsComplete.OtherOpcodes | lib/script/utils.go:51-86 | every opcode above 0x60 is no push, and 0x68 is the end |
| OrdinalsComplete.FoundIff | lib/script/inscription_jubilee.go:110-252 | the end of an envelope is found exactly where well-formed fields and an ending are written |
| OrdinalsComplete.NothingInvented | lib/script/inscription_jubilee.go:33-260 | every item returned for any script is the meaning of an envelope that stands in it |
| OrdinalsFlow.ReadContent | lib/script/inscription_jubilee.go:140-164 | the content loop stays inside the script, ends, and computes the body parser |
| OrdinalsFlow.ReadFields | lib/script/inscription_jubilee.go:110-252 | the field loop stays inside the script, ends, and computes the field parser |
| OrdinalsFlow.ExtractPkScriptForNFTJubilee | lib/script/inscription_jubilee.go:33-260 | the nested loops end on every script, read only inside it, and return its items |

## Left out

- Failures midway and retries: a step either succeeds or has not happened; connection errors, partial pipelines
  and the in-memory state a failed consumption leaves behind are not modelled.
- SQL, Redis and RPC clients, HTTP handlers, metrics, logging, configuration files, stop requests.
- Hashing, address encoding and stake-address derivation; SHA-256 is a parameter of the proof rules.
- IEEE 754 rounding: every quantized product carries an error term bounded by a parameter instead.
- Splits.Payout: stakes and rewards are unbounded naturals, so 64-bit overflow of stake times percent is not modelled.
- Rewards.TruncationNeverOverAllocates: the bound on participants is in the hypothesis; 10^9 participants in one split are out of scope.
- Proofs.Expected: trimming and case folding are those of ASCII; the digest is assumed to be lower-case hex, where full Unicode folding agrees.
- Indexer.Indexer.Round: fetching blocks and hashes is a parameter; an interrupted or failed round, the status caches and the mempool snapshot are not modelled.
- Commission.LiveFallbackIff: is about the settling consumer; in pending mode the fallback reads keys that no accepted update writes and so gives the registered ratio. An effective height that overflows 32 bits is excluded (`Commission.Forward`).
- Commission.CommissionStore.UpdateRatio: who the indexer's user is and normalising the indexer id are parameters; ratios are numbers rather than formatted text.
- Settlement.SettledIsFinal: holds for rollbacks within the retention distance of the highest height ever committed; Settlement.GuardedRollbacksReach shows why the guard alone is not enough.
- SlowStake.Consumer.ConsumeBlock: the reward settlement inside it is the separate model in `Rewards`; binding rows are taken as already trimmed and not blank.
- TxOutCodec.DecodeTxOut: a slice expression beyond the slice's length is an error in the model, although Go allows it up to the capacity.
- TxFormat.ReadTx: counts and the witness offset are not truncated to 32 bits.
- Ordinals.Items: the textual inscription ids of parents are not built, only which values are ids.
- The reward release tiers, the indexer allowlist, claims, the reward table's other columns and the pending-reward display counters: single-branch rules.
- The strict envelope parser, script-type predicates, snappy decompression of stored outputs, mempool snapshots, legacy backfill.
