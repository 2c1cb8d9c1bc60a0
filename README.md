# TIG protocol: algorithm submission and the knapsack and routing solvers

This project is a Dafny model of three parts of The Innovation Game (TIG) monorepo.

1. **The ledger gateway** (`Context` in `context.dfy`). The protocol reads and writes its
   ledger through an async `Context` trait. The model is a class `Ledger`. Its fields are
   the stored blocks, challenges, algorithms, benchmarks, precommits, proofs, frauds,
   top-ups, wasms and players, plus the chain's transfers and deposits. It also has a
   map of *faults*: each names a gateway operation that fails and the error it returns.
   - Every getter is a function. It returns exactly the stored entries that the filter
     selects, in ledger order, seen through the requested block data and payload.
   - Every `add_*_to_mempool` method appends an entry without a state, under a freshly
     minted id or the id it is given, and changes nothing else.
   - Every `update_*` method sets the state or the block data of the entries with that
     id, and changes nothing else.
2. **Algorithm submission** (`SubmitAlgorithm` in `submit_algorithm.dfy`). `execute` runs
   two guards over the gateway, then adds the algorithm to the mempool:
   - `verify_challenge_exists`: the challenge must exist and its round must be active;
   - `verify_submission_fee`: the transaction must be unused and known, sent by the
     player to the burn address, with exactly the submission fee.

   The guard errors of the protocol are `Refused(error)`. A failure of the gateway
   (an `?` on a `ContextError`) and a `.unwrap()` on a missing value are both `Panic`.
3. **The solvers.**
   - Twelve knapsack solvers: `ironhat_pete`, `tinhat_pete`, `better_knapp`,
     `sack_o_potatoes`, `optimism_dollop`, `knap_super_bb`, `knap_zilla`, `flat_dp`,
     `over_knapmaxxed`, `sackophone`, `qknap_optimize` and `quadratic_greedy`.
   - The `cw_test_wasm` Clarke–Wright savings solver for vehicle routing.

   Each solver is modelled in the form its code has: DP tables as arrays, a search
   object with fields as a class, and loops as methods with invariants. Each is proved
   against a specification:
   - `KnapsackSpec.BestOf` is the best value of a subset of the listed items within a
     capacity, and `Optimum` is that over all items;
   - `QuadraticSpec.TotalValue` is the value of a selection with pairwise interactions,
     and `LocallyOptimal` says no feasible swap raises it;
   - `CwTestWasm.Partition` says the customers are split into routes.

Shared pieces:
- `keep_table_dp.dfy` is the bottom-up table with a `keep` matrix, used by
  `ironhat_pete` and `tinhat_pete`.
- `list_dp.dfy` is the table that keeps one item list per capacity, used by
  `sack_o_potatoes`, `optimism_dollop` and the corrected `flat_dp`.

Floating-point values are handled in four ways:
- a sort's result is a parameter, an `order` (or `arrange`) that the contracts constrain;
- the float bounds of knap_zilla, over_knapmaxxed and optimism_dollop are parameters,
  a function `part` or `estimate`;
- the routing pre-check is a boolean parameter `tooFar`;
- the fractional item of sack_o_potatoes and sackophone, which the code computes
  in f64 and truncates to `usize`, is computed here as the exact integer floor
  `KnapsackSpec.Fraction` (`value * remaining_weight / weight`).

## Model

| member | source | states |
|---|---|---|
| Context.View | tig-protocol/src/context.rs:84-89 | An entity as handed back keeps its id, details and state; it carries the block data only of the block asked for, when it has some, and its payload exactly when `include_data`. |
| Context.Read | tig-protocol/src/context.rs:84-123 | A filtered read hands back every stored entry the filter selects, and nothing it does not select. |
| Context.ReadFirst | tig-protocol/src/context.rs:100-104 | The first record a read hands back is the first entry in ledger order that the filter selects. |
| Context.FindBlock | tig-protocol/src/context.rs:30-35 | `Latest` is the last block, and `None` only on an empty chain; `Height`, `Id` and `Round` give a block with that field, and `None` exactly when no block has it. |
| Context.Mint | tig-protocol/src/context.rs:145-156 | A minted id differs from every id already taken. |
| Context.SetState | tig-protocol/src/context.rs:190-194 | Exactly the entries with the given id take the new state; every other entry is unchanged. |
| Context.SetBlockData | tig-protocol/src/context.rs:195-200 | Exactly the entries with the given id take the new data for that block; their data for other blocks and every other entry is unchanged. |
| Context.Ledger.constructor | tig-protocol/src/context.rs:83 | A fresh ledger stores nothing and has no faults. |
| Context.Ledger.Answer | tig-protocol/src/context.rs:84-142 | A gateway read fails exactly when its operation is faulted, with that fault's error; otherwise it returns the answer. |
| Context.Ledger.DataBlock | tig-protocol/src/context.rs:87 | A block-data filter names a block id exactly when the filter finds a block, and that block's id. |
| Context.Ledger.GetAlgorithms | tig-protocol/src/context.rs:84-89 | Fails exactly when faulted; otherwise returns every stored algorithm the filter selects, and only those, with the requested block data and the code when `include_data`. |
| Context.Ledger.GetBenchmarks | tig-protocol/src/context.rs:90-94 | Fails exactly when faulted; otherwise returns exactly the benchmarks the filter selects. The mempool and confirmed windows are read through the start block of the benchmark's precommit. |
| Context.Ledger.GetBlock | tig-protocol/src/context.rs:95-99 | Fails exactly when faulted. A block the filter does not find is `Ok(None)`. A found block is returned, without its data unless `include_data`. |
| Context.Ledger.GetChallenges | tig-protocol/src/context.rs:100-104 | Fails exactly when faulted; otherwise returns exactly the challenges the filter selects, with the requested block data. |
| Context.Ledger.GetConfig | tig-protocol/src/context.rs:105 | Fails when faulted or when there is no block; otherwise returns the latest block's configuration. |
| Context.Ledger.GetFrauds | tig-protocol/src/context.rs:106-110 | Fails exactly when faulted; otherwise returns exactly the frauds the filter selects, with the allegation when `include_data`. |
| Context.Ledger.GetPlayers | tig-protocol/src/context.rs:111-115 | Fails exactly when faulted; otherwise returns exactly the players the filter selects. Benchmarkers have a precommit and innovators have an algorithm. |
| Context.Ledger.GetPrecommits | tig-protocol/src/context.rs:116 | Fails exactly when faulted; otherwise returns exactly the precommits the filter selects. |
| Context.Ledger.GetProofs | tig-protocol/src/context.rs:117-121 | Fails exactly when faulted; otherwise returns exactly the proofs the filter selects, with the merkle proofs when `include_data`. |
| Context.Ledger.GetTopups | tig-protocol/src/context.rs:122 | Fails exactly when faulted; otherwise returns exactly the top-ups the filter selects. |
| Context.Ledger.GetWasms | tig-protocol/src/context.rs:123 | Fails exactly when faulted; otherwise returns exactly the wasms the filter selects. |
| Context.Ledger.VerifySolution | tig-protocol/src/context.rs:124-129 | The gateway's failure and the verifier's verdict are separate layers: the outer fails exactly when faulted, and the inner is the verifier's verdict on those settings, nonce and solution. |
| Context.Ledger.ComputeSolution | tig-protocol/src/context.rs:130-135 | The outer layer fails exactly when faulted; the inner layer is the engine's output, or its failure, for those settings, nonce and VM configuration. |
| Context.Ledger.GetTransaction | tig-protocol/src/context.rs:136 | Fails exactly when faulted or when the chain knows no transfer with that hash; otherwise returns that transfer. |
| Context.Ledger.GetLatestEthBlockNum | tig-protocol/src/context.rs:137 | Fails exactly when faulted; otherwise returns the chain's latest block number. |
| Context.Ledger.GetPlayerDeposit | tig-protocol/src/context.rs:138-142 | Fails exactly when faulted; a player with no deposit at that chain block is `Ok(None)`, and otherwise the call returns the deposit. |
| Context.Ledger.AddBlock | tig-protocol/src/context.rs:145-150 | Fails exactly when faulted, and then changes nothing; otherwise appends the block under an id no block had, and changes nothing else. |
| Context.Ledger.AddChallengeToMempool | tig-protocol/src/context.rs:151 | Fails exactly when faulted, and then changes nothing; otherwise appends a challenge without state under a new id, and changes nothing else. |
| Context.Ledger.AddAlgorithmToMempool | tig-protocol/src/context.rs:152-156 | Fails exactly when faulted, and then changes nothing; otherwise appends the algorithm and its code, without state, under a new id, and changes nothing else. |
| Context.Ledger.AddBenchmarkToMempool | tig-protocol/src/context.rs:157-162 | Fails exactly when faulted, and then changes nothing; otherwise appends the benchmark under the benchmark id it was given, and changes nothing else. |
| Context.Ledger.AddPrecommitToMempool | tig-protocol/src/context.rs:163-167 | Fails exactly when faulted, and then changes nothing; otherwise appends the precommit under a new id, and changes nothing else. |
| Context.Ledger.AddProofToMempool | tig-protocol/src/context.rs:168-172 | Fails exactly when faulted, and then changes nothing; otherwise appends the proof under the benchmark id, and changes nothing else. |
| Context.Ledger.AddFraudToMempool | tig-protocol/src/context.rs:173-177 | Fails exactly when faulted, and then changes nothing; otherwise appends the allegation under the benchmark id, and changes nothing else. |
| Context.Ledger.AddTopupToMempool | tig-protocol/src/context.rs:178-182 | Fails exactly when faulted, and then changes nothing; otherwise appends the top-up under the top-up id it was given, and changes nothing else. |
| Context.Ledger.AddWasmToMempool | tig-protocol/src/context.rs:183-187 | Fails exactly when faulted, and then changes nothing; otherwise appends the wasm under the algorithm id, and changes nothing else. |
| Context.Ledger.UpdateChallengeState | tig-protocol/src/context.rs:190-194 | Fails exactly when faulted, and then changes nothing; otherwise exactly the challenges with that id take the state, and nothing else changes. |
| Context.Ledger.UpdateChallengeBlockData | tig-protocol/src/context.rs:195-200 | Fails exactly when faulted, and then changes nothing; otherwise exactly the challenges with that id take the data for that block, and nothing else changes. |
| Context.Ledger.UpdateAlgorithmState | tig-protocol/src/context.rs:201-205 | As for challenges, over the algorithms. |
| Context.Ledger.UpdateAlgorithmBlockData | tig-protocol/src/context.rs:206-211 | As for challenges, over the algorithms' block data. |
| Context.Ledger.UpdateBenchmarkState | tig-protocol/src/context.rs:212-216 | As for challenges, over the benchmarks. |
| Context.Ledger.UpdatePlayerState | tig-protocol/src/context.rs:217-221 | As for challenges, over the players. |
| Context.Ledger.UpdatePrecommitState | tig-protocol/src/context.rs:222-226 | As for challenges, over the precommits. |
| Context.Ledger.UpdateProofState | tig-protocol/src/context.rs:227-231 | As for challenges, over the proofs. |
| Context.Ledger.UpdateFraudState | tig-protocol/src/context.rs:232-236 | As for challenges, over the frauds. |
| Context.Ledger.UpdateTopupState | tig-protocol/src/context.rs:237 | As for challenges, over the top-ups. |
| Context.Ledger.UpdatePlayerBlockData | tig-protocol/src/context.rs:238-243 | As for challenges, over the players' block data. |
| Context.Ledger.UpdateWasmState | tig-protocol/src/context.rs:244-245 | As for challenges, over the wasms. |
| SubmitAlgorithm.FirstFailure | tig-protocol/src/submit_algorithm.rs:14-15 | No error exactly when every check passes; otherwise the error of the first failing check, all checks before it passing. |
| SubmitAlgorithm.VerifyChallengeExists | tig-protocol/src/submit_algorithm.rs:24-50 | Panics exactly when the latest block or the challenges cannot be read, or the named challenge has no state. Otherwise it passes exactly when the challenge exists and its round is active by the latest round. Its one refusal is `InvalidChallenge` with the id. |
| SubmitAlgorithm.VerifySubmissionFee | tig-protocol/src/submit_algorithm.rs:53-110 | Panics exactly when the latest block or the algorithms cannot be read. Otherwise it passes exactly when all five fee checks do, and refuses with the first failing one's error. The checks are: unused hash, known transaction, sender, burn address, exact fee. |
| SubmitAlgorithm.Execute | tig-protocol/src/submit_algorithm.rs:8-21 | On a panic, or on the first failing guard's refusal, the ledger is unchanged. If every guard passes, the algorithm is appended to the mempool under a new id and nothing else changes, unless the insert fails, which is a panic with nothing changed. |
| SubmitAlgorithm.FailureReported | tig-protocol/src/submit_algorithm.rs:64-108 | A failing check whose predecessors all pass is the one reported. |
| SubmitAlgorithm.ExactlyOneWrongField | tig-protocol/src/submit_algorithm.rs:85-108 | When the transaction is fresh and known and only one of sender, receiver or amount is wrong, the error names that field, with the expected and actual value. |
| SubmitAlgorithm.DuplicateWhateverTheTransaction | tig-protocol/src/submit_algorithm.rs:64-78 | A hash already used by a stored algorithm is refused as `DuplicateTransaction`, whatever the transaction itself says. |
| SubmitAlgorithm.ClosedChallengeFirst | tig-protocol/src/submit_algorithm.rs:14-15 | A challenge whose round is not yet active is refused as `InvalidChallenge`, before any fee check. |
| SubmitAlgorithm.SubmitTwice | tig-protocol/src/submit_algorithm.rs:64-78 | After one accepted submission, a second with the same transaction hash is refused as `DuplicateTransaction`. |
| KnapsackSpec.Witness | tig-algorithms/src/knapsack/ironhat_pete/commercial.rs:61-74 | Some subset of the listed items, each once, fits within `w` and is worth exactly `BestOf`. |
| KnapsackSpec.BestOfIsOptimal | tig-algorithms/src/knapsack/ironhat_pete/commercial.rs:61-74 | No distinct selection of listed items within `w` is worth more than `BestOf`. |
| KnapsackSpec.BestOfOrderIrrelevant | tig-algorithms/src/knapsack/sack_o_potatoes/inbound.rs:30-49 | Two listings of the same items have the same optimum, so a solver's sort order cannot change the value it finds. |
| KnapsackSpec.OrderReachesOptimum | tig-algorithms/src/knapsack/sack_o_potatoes/inbound.rs:30-49 | Every complete listing of the items reaches the instance optimum. |
| KnapsackSpec.BestOfPrefixMonotone | tig-algorithms/src/knapsack/flat_dp/innovator_outbound.rs:41-52 | Processing more items never lowers a DP cell. |
| KnapsackSpec.BestOfStep | tig-algorithms/src/knapsack/flat_dp/innovator_outbound.rs:44-51 | The DP recurrence over a sorted order: one more item leaves a cell it does not fit, and otherwise takes the larger of skipping and taking it. |
| KnapsackSpec.BestOfRangeStep | tig-algorithms/src/knapsack/tinhat_pete/open_data.rs:33-43 | The same recurrence for items in index order. |
| KnapsackSpec.BestIsBestOf | tig-algorithms/src/knapsack/better_knapp/open_data.rs:36-62 | The top-down recurrence on the first `n` items equals the best value over them. |
| KnapsackSpec.TakeOrSkip | tig-algorithms/src/knapsack/ironhat_pete/commercial.rs:67-72 | Where an item strictly improves a cell, it fits and the cell is its value plus the cell at `w - weight`. Elsewhere the cell is unchanged. |
| KnapsackSpec.TakeOrSkipRange | tig-algorithms/src/knapsack/tinhat_pete/open_data.rs:36-41 | `TakeOrSkip` for items in index order. |
| KnapsackSpec.TakeOrSkipAt | tig-algorithms/src/knapsack/sackophone/benchmarker_outbound.rs:51-58 | `TakeOrSkip` for position `k` of a sorted order. |
| KnapsackSpec.ShortCells | tig-algorithms/src/knapsack/ironhat_pete/commercial.rs:67 | Cells below an item's weight are unchanged by its pass, which starts at the weight. |
| KnapsackSpec.FrontChoice | tig-algorithms/src/knapsack/knap_super_bb/commercial.rs:78-108 | The best completion from position `i` is the better of skipping item `i` and, when it fits, taking it: the two branches of the depth-first searches. |
| KnapsackSpec.PickedIncreasing | tig-algorithms/src/knapsack/knap_super_bb/commercial.rs:129-133 | The indices collected from a flag vector are exactly the flagged ones, each once, in increasing order. |
| KnapsackSpec.Greedy | tig-algorithms/src/knapsack/sack_o_potatoes/inbound.rs:58-69 | The greedy fill takes whole items from position `i` until one does not fit. Its value and weight are the sums over the items taken, and the item where it stops does not fit in what is left. |
| KnapsackSpec.GreedyStep | tig-algorithms/src/knapsack/sack_o_potatoes/inbound.rs:62-72 | One item at a time: a fitting item is added whole and the fill goes on; the first misfit ends it and adds its floored fraction to the bound. |
| KnapsackSpec.FractionBelowValue | tig-algorithms/src/knapsack/sackophone/benchmarker_outbound.rs:44 | The floored fraction of a misfit is at most its value, so the `.min(value)` there never changes the bound. |
| KnapsackSpec.FractionalBound | tig-algorithms/src/knapsack/knap_super_bb/commercial.rs:34-54 | The fractional bound is at least the greedy fill's value. |
| KnapsackSpec.PartBound | tig-algorithms/src/knapsack/over_knapmaxxed/commercial.rs:39-56 | A bound whose misfit part is a parameter is at least the greedy fill's value. |
| KnapsackSpec.PartStep | tig-algorithms/src/knapsack/knap_zilla/commercial.rs:93-104 | That bound one item at a time: a fitting item adds its value, and the first misfit adds its part and ends it. |
| KnapsackSpec.StopPoint | tig-algorithms/src/knapsack/over_knapmaxxed/commercial.rs:58-79 | Where an early-stopping DP ends: after the first pass whose full-capacity cell reaches `min_value`, or after all passes. No earlier pass reached it. |
| KnapsackSpec.ReverseOfDecreasing | tig-algorithms/src/knapsack/ironhat_pete/commercial.rs:93 | Sorting the descending list of reconstructed items gives an ascending list of the same items, with the same weight and value. |
| KeepTableDp.FillTable | tig-algorithms/src/knapsack/ironhat_pete/commercial.rs:61-74 | After the item loop, `dp[w]` is the optimum over all items within `w`, and `keep[i][w]` is set exactly where item `i` strictly improved the cell. |
| KeepTableDp.StepRow | tig-algorithms/src/knapsack/tinhat_pete/open_data.rs:33-43 | One item's pass turns the optimum over items `0..i` into that over `0..i+1`, and marks exactly the improved cells. |
| KeepTableDp.Reconstruct | tig-algorithms/src/knapsack/ironhat_pete/commercial.rs:84-92 | The walk back over `keep` yields distinct items, in decreasing order, within the capacity and worth exactly the optimum. |
| IronhatPete.Solve | tig-algorithms/src/knapsack/ironhat_pete/commercial.rs:29-97 | `None` exactly when the optimum is below `min_value`; otherwise an optimal feasible selection, ascending. |
| TinhatPete.Solve | tig-algorithms/src/knapsack/tinhat_pete/open_data.rs:25-65 | `None` exactly when the optimum is below `min_value`; otherwise an optimal feasible selection, ascending. |
| BetterKnapp.Knapsack | tig-algorithms/src/knapsack/better_knapp/open_data.rs:36-62 | The memoised recursion returns the best value over the first `n` items within `w`, and 0 in the base cases. The memo stays sound, only grows, and holds the `(n, w)` entry after a non-base call. |
| BetterKnapp.BestZeroCapacity | tig-algorithms/src/knapsack/better_knapp/open_data.rs:43-45 | With no capacity the best value is 0. |
| BetterKnapp.WalkAccounts | tig-algorithms/src/knapsack/better_knapp/open_data.rs:76-88 | The walk over the memo takes each item at most once, in decreasing order, and subtracts exactly the taken items' weight and value. |
| BetterKnapp.ReconstructAsWritten | tig-algorithms/src/knapsack/better_knapp/open_data.rs:71-88 | The reconstruction loop as written follows the walk that reads the memo key `(i, w)`. Remaining weight plus the items' weight is the capacity, and remaining total plus their value is the optimum. |
| BetterKnapp.Solve | tig-algorithms/src/knapsack/better_knapp/open_data.rs:19-95 | `None` below the optimum threshold; otherwise the outcome of the as-written walk over a sound memo holding the top entry. Any answer lists distinct items. |
| BetterKnapp.AsWrittenReturnsWorseSelection | tig-algorithms/src/knapsack/better_knapp/open_data.rs:76-94 | On the sample instance the walk takes the wrong item, and the answer is `Some([0])`, worth 1 < `min_value` 5. |
| BetterKnapp.SolveSample | tig-algorithms/src/knapsack/better_knapp/open_data.rs:64-94 | Every run of the solver as written on the sample answers `Some([0])`, below `min_value`. |
| BetterKnapp.ReconstructFixed | tig-algorithms/src/knapsack/better_knapp/open_data.rs:71-88 | The walk reading the key `(i - 1, w)` yields a feasible selection, in decreasing order, worth exactly the optimum. |
| BetterKnapp.SolveFixed | tig-algorithms/src/knapsack/better_knapp/open_data.rs:64-94 | With the corrected walk, `None` exactly when the optimum is below `min_value`; otherwise an optimal feasible selection. |
| ListDp.FollowsRange | tig-algorithms/src/knapsack/optimism_dollop/open_data.rs:84-85 | A list that follows index order is strictly increasing. |
| ListDp.CellFeasible | tig-algorithms/src/knapsack/sack_o_potatoes/inbound.rs:37-49 | The item list kept for a capacity within `max_weight` is a feasible selection. |
| ListDp.TakeCell | tig-algorithms/src/knapsack/sack_o_potatoes/inbound.rs:42-46 | Extending the list of cell `w - weight` by the item gives the next table's cell at `w`, when that is at least the optimum. |
| ListDp.TakeList | tig-algorithms/src/knapsack/optimism_dollop/open_data.rs:84-85 | Appending the current item keeps a list in sorted order and within the items seen. |
| ListDp.KeepCell | tig-algorithms/src/knapsack/sack_o_potatoes/inbound.rs:41-43 | A cell the item does not beat stays a correct cell after its pass. |
| ListDp.StepCell | tig-algorithms/src/knapsack/sack_o_potatoes/inbound.rs:41-48 | The update of one cell: on a strict improvement the cell takes the extended list, otherwise it keeps its own. |
| ListDp.StepLists | tig-algorithms/src/knapsack/sack_o_potatoes/inbound.rs:40-48 | One item's descending pass turns every cell over the first `k` items into the cell over the first `k + 1`: its optimum and a list reaching it. |
| ListDp.FillLists | tig-algorithms/src/knapsack/sack_o_potatoes/inbound.rs:37-49 | After all passes every cell holds the optimum within its capacity and a list of distinct items in sorted order reaching it. |
| SackOPotatoes.IsSolutionPossible | tig-algorithms/src/knapsack/sack_o_potatoes/inbound.rs:58-77 | True exactly when the fractional bound of the ratio-sorted items reaches `min_value`, early exit included. |
| SackOPotatoes.Solve | tig-algorithms/src/knapsack/sack_o_potatoes/inbound.rs:20-56 | `None` exactly when the bound or the optimum is below `min_value`; otherwise the full-capacity list, feasible and optimal whatever the order. |
| OptimismDollop.ScanAccounts | tig-algorithms/src/knapsack/optimism_dollop/open_data.rs:36-65 | The greedy scan's value is the value of the items it took, its remaining weight is the capacity less their weight, and no item is taken twice. |
| OptimismDollop.GreedyLimits | tig-algorithms/src/knapsack/optimism_dollop/open_data.rs:36-65 | The loop's greedy value, remaining weight and two limits end as the scan defines them, with the 8-bit flag wrapping. |
| OptimismDollop.Solve | tig-algorithms/src/knapsack/optimism_dollop/open_data.rs:20-96 | `None` exactly when the estimate from the two limits or the optimum is below `min_value`; otherwise a feasible, optimal, ascending selection. |
| KnapSuperBb.GainBoundsBest | tig-algorithms/src/knapsack/knap_super_bb/commercial.rs:34-54 | The exchange argument: scaled by the pivot weight, no selection is worth more than the positive excess of its items plus the capacity at the pivot ratio. |
| KnapSuperBb.BoundIsSound | tig-algorithms/src/knapsack/knap_super_bb/commercial.rs:34-54 | Over ratio-sorted items, the fractional bound from position `i` is at least the best completion from there. |
| KnapSuperBb.UpperBound | tig-algorithms/src/knapsack/knap_super_bb/commercial.rs:34-54 | `calculate_upper_bound` returns the node's value plus the fractional bound of the remaining capacity. |
| KnapSuperBb.HoldsTake | tig-algorithms/src/knapsack/knap_super_bb/commercial.rs:78-81 | Taking item `i` moves the search node to `i + 1` with its weight and value added. |
| KnapSuperBb.HoldsSkip | tig-algorithms/src/knapsack/knap_super_bb/commercial.rs:97-108 | Skipping item `i` moves the node to `i + 1` unchanged. |
| KnapSuperBb.BranchAndBound | tig-algorithms/src/knapsack/knap_super_bb/commercial.rs:56-112 | The current flags are restored, and the best profit only grows and is always a recorded feasible selection. When a completion of the node reaches `min_value`, the best profit reaches the best completion. |
| KnapSuperBb.Branch | tig-algorithms/src/knapsack/knap_super_bb/commercial.rs:78-108 | The include-then-exclude descent keeps the same guarantees as the search. |
| KnapSuperBb.Solve | tig-algorithms/src/knapsack/knap_super_bb/commercial.rs:18-138 | `None` exactly when the optimum is below `min_value`; otherwise an optimal feasible selection, ascending. |
| KnapZilla.Bound | tig-algorithms/src/knapsack/knap_zilla/commercial.rs:93-104 | The bound is the node's value plus the whole items that fit plus the part of the first misfit; with a sound part it is at least the best completion. |
| KnapZilla.Search.constructor | tig-algorithms/src/knapsack/knap_zilla/commercial.rs:46-50 | The search starts with no best, an empty path, and the root node. |
| KnapZilla.Search.Extend | tig-algorithms/src/knapsack/knap_zilla/commercial.rs:110-113 | Pushing the item at `index` keeps the path distinct, and adds the item's weight and value. |
| KnapZilla.Search.Skip | tig-algorithms/src/knapsack/knap_zilla/commercial.rs:127-137 | A path is still valid when the node moves past an item without taking it. |
| KnapZilla.Search.BranchAndBound | tig-algorithms/src/knapsack/knap_zilla/commercial.rs:72-138 | The path is restored and the best value only grows. A node worth `min_value` is recorded. With a sound part, every completion reaching `min_value` is matched by the best. |
| KnapZilla.Search.Descend | tig-algorithms/src/knapsack/knap_zilla/commercial.rs:110-137 | The include and skip branches together keep the search's guarantees. |
| KnapZilla.Search.Include | tig-algorithms/src/knapsack/knap_zilla/commercial.rs:110-125 | Push, search below, pop: the path is restored, and every completion through the item reaching `min_value` is matched by the best. |
| KnapZilla.Solve | tig-algorithms/src/knapsack/knap_zilla/commercial.rs:27-69 | Any answer is feasible and reaches `min_value`. With a sound part, `None` exactly when the optimum is below `min_value`, and the answer is optimal. |
| FlatDp.RowAsWritten | tig-algorithms/src/knapsack/flat_dp/innovator_outbound.rs:44-51 | The pass never lowers a cell. When it stops early, the item fits and the best value over the items so far reaches `min_value`; otherwise every cell is the optimum over one more item and every cell it checked is below `min_value`. |
| FlatDp.FindAccounting | tig-algorithms/src/knapsack/flat_dp/innovator_outbound.rs:57-59 | The search returns the first sorted item that accounts for `dp[w]`, or none when no item does. |
| FlatDp.Reconstruct | tig-algorithms/src/knapsack/flat_dp/innovator_outbound.rs:54-66 | The walk back returns listed items that fit, within the capacity, worth at most `dp[max_weight]`, and nothing when no listed item fits. |
| FlatDp.PassesAsWritten | tig-algorithms/src/knapsack/flat_dp/innovator_outbound.rs:39-52 | The passes stop at the one pass that first brings a cell to `min_value` (`FirstReach`: its item fits, the best value up to it reaches `min_value`, and no earlier fitting item's did); when none does, the row is the best value over all items. |
| FlatDp.SolveAsWritten | tig-algorithms/src/knapsack/flat_dp/innovator_outbound.rs:18-73 | As written, `None` exactly when the optimum is below `min_value`. Any answer fits the knapsack and is at most one item: exactly the item of the pass that first brought a cell to `min_value`, and the empty walk back when no pass did. |
| FlatDp.SolveSampleAsWritten | tig-algorithms/src/knapsack/flat_dp/innovator_outbound.rs:46-50 | On the sample, in either order, the answer is one item worth 3, below `min_value` 6, which both items together reach. |
| FlatDp.RowFixed | tig-algorithms/src/knapsack/flat_dp/innovator_outbound.rs:44-51 | The pass with a list per cell: it stops at a cell that reaches `min_value` and names it, that cell correct; otherwise every cell is correct over one more item. |
| FlatDp.SolveFixed | tig-algorithms/src/knapsack/flat_dp/innovator_outbound.rs:39-72 | With the early answer fixed, `None` exactly when the optimum is below `min_value`; otherwise a feasible selection reaching it. |
| OverKnapmaxxed.UpperBound | tig-algorithms/src/knapsack/over_knapmaxxed/commercial.rs:39-56 | The bound loop equals whole fitting items plus the first misfit's part. |
| OverKnapmaxxed.PassAsWritten | tig-algorithms/src/knapsack/over_knapmaxxed/commercial.rs:62-69 | One pass raises every cell to the optimum over one more item, and tracks the full-capacity best. |
| OverKnapmaxxed.Passes | tig-algorithms/src/knapsack/over_knapmaxxed/commercial.rs:58-79 | The early-stopping passes end at `StopPoint` with the optimum row over the items processed. |
| OverKnapmaxxed.ReconstructAsWritten | tig-algorithms/src/knapsack/over_knapmaxxed/commercial.rs:81-95 | The reconstruction with `!=` follows the as-written walk. It returns a feasible selection of at most `n` items. |
| OverKnapmaxxed.SolveAsWritten | tig-algorithms/src/knapsack/over_knapmaxxed/commercial.rs:18-96 | All items are returned when all fit and reach `min_value`. Otherwise `None` exactly when the bound or the best value over the passes is below `min_value`, and `Some` is the as-written walk, feasible but not tied to `min_value`. |
| OverKnapmaxxed.AllItemsFeasible | tig-algorithms/src/knapsack/over_knapmaxxed/commercial.rs:26-31 | The all-items shortcut answers a feasible selection. |
| OverKnapmaxxed.SampleAsWritten | tig-algorithms/src/knapsack/over_knapmaxxed/commercial.rs:81-95 | On the sample, the first pass reaches 5 but the walk keeps item 1, worth 1 < 5. |
| OverKnapmaxxed.SolveSampleAsWritten | tig-algorithms/src/knapsack/over_knapmaxxed/commercial.rs:18-96 | The solver as written answers `Some([1])` on the sample, below `min_value`. |
| OverKnapmaxxed.SolveFixed | tig-algorithms/src/knapsack/over_knapmaxxed/commercial.rs:18-96 | Each pass records the cells its item strictly improved, and the walk keeps an item exactly where its bit is set. Every `Some` is feasible and worth exactly the best over the passes run, so it reaches `min_value`. The `None` cases are those of the as-written solver. |
| Sackophone.SetBit | tig-algorithms/src/knapsack/sackophone/benchmarker_outbound.rs:55-56 | Or-ing `1 << (idx % 64)` into word `idx / 64` sets bit `idx` and no other. |
| Sackophone.SlotInjective | tig-algorithms/src/knapsack/sackophone/benchmarker_outbound.rs:55 | Distinct cells have distinct packed indices `i * (W + 1) + w`. |
| Sackophone.MirrorSet | tig-algorithms/src/knapsack/sackophone/benchmarker_outbound.rs:55-56 | Setting a bit in the words sets exactly that flag of the bit list. |
| Sackophone.PacksSet | tig-algorithms/src/knapsack/sackophone/benchmarker_outbound.rs:55-56 | Setting the flag of cell `(k, w)` sets that cell of the rows and no other. |
| Sackophone.ReadCell | tig-algorithms/src/knapsack/sackophone/benchmarker_outbound.rs:72-73 | Reading the packed bit of cell `(i, u)` reads that cell. |
| Sackophone.SetBitAt | tig-algorithms/src/knapsack/sackophone/benchmarker_outbound.rs:56 | The `|=` on the word array sets exactly that bit. |
| Sackophone.SetCell | tig-algorithms/src/knapsack/sackophone/benchmarker_outbound.rs:55-56 | Setting the bit of cell `(k, w)` sets that cell of the table and keeps every other. |
| Sackophone.TestBit | tig-algorithms/src/knapsack/sackophone/benchmarker_outbound.rs:72-73 | The `&` test returns the bit. |
| Sackophone.Pass | tig-algorithms/src/knapsack/sackophone/benchmarker_outbound.rs:51-58 | One pass raises every cell to the optimum over one more item, and sets row `k` exactly where the item strictly improved the cell. |
| Sackophone.TableStep | tig-algorithms/src/knapsack/sackophone/benchmarker_outbound.rs:51-58 | One pass extends the table of improved cells by row `k`. |
| Sackophone.TablePass | tig-algorithms/src/knapsack/sackophone/benchmarker_outbound.rs:51-58 | A pass on a table of the earlier rows yields the optimum row and the table of one more row. |
| Sackophone.TracksFit | tig-algorithms/src/knapsack/sackophone/benchmarker_outbound.rs:40-42 | The bound step for an item that fits keeps the running bound in step with the greedy fill. |
| Sackophone.TracksMisfit | tig-algorithms/src/knapsack/sackophone/benchmarker_outbound.rs:43-48 | At a misfit the running bound is below `min_value` exactly when this is the greedy stop and the full bound is below it. |
| Sackophone.MisfitBound | tig-algorithms/src/knapsack/sackophone/benchmarker_outbound.rs:43-44 | At the first misfit the running bound becomes the full fractional bound. |
| Sackophone.MisfitStop | tig-algorithms/src/knapsack/sackophone/benchmarker_outbound.rs:43-48 | A misfit is at or past the greedy stop, and past it only when the bound already cleared `min_value`. |
| Sackophone.TracksPast | tig-algorithms/src/knapsack/sackophone/benchmarker_outbound.rs:36-49 | Past the greedy stop the full bound with no room left is tracked. |
| Sackophone.NewTable | tig-algorithms/src/knapsack/sackophone/benchmarker_outbound.rs:31 | The zeroed word vector is an empty table of the right size. |
| Sackophone.BoundStep | tig-algorithms/src/knapsack/sackophone/benchmarker_outbound.rs:40-49 | The bound check cuts exactly at the greedy stop when the fractional bound is below `min_value`, and otherwise keeps tracking. |
| Sackophone.RunPasses | tig-algorithms/src/knapsack/sackophone/benchmarker_outbound.rs:36-63 | The loop returns `None` exactly when the bound cuts before the stop point. Otherwise it runs exactly `StopPoint` passes, with the optimum row and the table of improved cells over them. |
| Sackophone.PassReachesStop | tig-algorithms/src/knapsack/sackophone/benchmarker_outbound.rs:60-62 | A pass is the last one exactly when it is the last item or its full-capacity cell reaches `min_value`. |
| Sackophone.WalkStep | tig-algorithms/src/knapsack/sackophone/benchmarker_outbound.rs:71-79 | Position `j` is taken exactly when its bit is set, and then it fits. |
| Sackophone.WalkDone | tig-algorithms/src/knapsack/sackophone/benchmarker_outbound.rs:69-80 | At the end of the walk the items are feasible and worth the best over the passes. |
| Sackophone.WalkBack | tig-algorithms/src/knapsack/sackophone/benchmarker_outbound.rs:69-80 | The walk over the bits returns a feasible selection worth the best value over the passes run. |
| Sackophone.Solve | tig-algorithms/src/knapsack/sackophone/benchmarker_outbound.rs:20-83 | `None` exactly on a bound cut or when the best over the passes is below `min_value`. Otherwise a feasible selection worth that best value, at least `min_value`, and optimal when every pass ran. |
| QuadraticSpec.Swapped | tig-algorithms/src/knapsack/qknap_optimize/commercial.rs:123 | `solution.swap(i, j)` exchanges the two flags and keeps every other. |
| QuadraticSpec.NothingChosen | tig-algorithms/src/knapsack/qknap_optimize/commercial.rs:26-28 | The empty selection weighs nothing, is worth nothing and counts no item. |
| QuadraticSpec.AddItem | tig-algorithms/src/knapsack/quadratic_greedy/commercial.rs:39-47 | Choosing an item adds its weight, its value and its interaction with every chosen item, and one to the count. |
| QuadraticSpec.SwapItems | tig-algorithms/src/knapsack/quadratic_greedy/commercial.rs:60-73 | Trading chosen `i` for unchosen `j` changes the value by the value difference plus the interaction difference over the other chosen items, and the weight by the weight difference; the count is kept. |
| QuadraticSpec.TradesSuffice | tig-algorithms/src/knapsack/quadratic_greedy/commercial.rs:55-60 | Ruling out every gainful trade of a chosen for an unchosen item is local optimality under swaps. |
| QuadraticSpec.ValueBelowCeiling | tig-algorithms/src/knapsack/quadratic_greedy/commercial.rs:52-80 | No selection is worth more than the sum of absolute values and interactions, so the improving search ends. |
| QknapOptimize.GreedyFill | tig-algorithms/src/knapsack/qknap_optimize/commercial.rs:39-51 | The greedy fill's totals are the weight and value of its selection, within capacity, and no unchosen item fits beside it. |
| QknapOptimize.DeltaValue | tig-algorithms/src/knapsack/qknap_optimize/commercial.rs:139-166 | `calculate_delta_value` is exactly the change in value of swapping `i` and `j`, and 0 when they are flagged alike. |
| QknapOptimize.SwapRow | tig-algorithms/src/knapsack/qknap_optimize/commercial.rs:100-131 | The inner loop keeps totals exact and the count. An improvement raises the value; an early return has reached `min_value`. With no improvement, no pair `(i, j)` gains. |
| QknapOptimize.SwapPass | tig-algorithms/src/knapsack/qknap_optimize/commercial.rs:99-132 | A pass with no swap leaves a locally optimal selection. |
| QknapOptimize.Optimize | tig-algorithms/src/knapsack/qknap_optimize/commercial.rs:80-136 | `optimize_solution` returns the selection's exact value, at least the start, within capacity, same count. The value reaches `min_value` or the selection is locally optimal. |
| QknapOptimize.Solve | tig-algorithms/src/knapsack/qknap_optimize/commercial.rs:18-78 | Any answer is an ascending index list of a feasible selection reaching `min_value`. `None` means a locally optimal feasible selection below `min_value` was found. |
| QuadraticGreedy.GreedyFill | tig-algorithms/src/knapsack/quadratic_greedy/commercial.rs:33-49 | The greedy fill's totals are exact, it is within capacity, and no unchosen item fits beside it. |
| QuadraticGreedy.TradeRow | tig-algorithms/src/knapsack/quadratic_greedy/commercial.rs:56-78 | Trades for a fixed `i` keep the totals exact and the count, and raise the value. With no trade, no trade of `i` gains. |
| QuadraticGreedy.TradePass | tig-algorithms/src/knapsack/quadratic_greedy/commercial.rs:55-79 | A full pass with no trade leaves a locally optimal selection. |
| QuadraticGreedy.LocalSearch | tig-algorithms/src/knapsack/quadratic_greedy/commercial.rs:51-80 | The local search ends with an exact, feasible, locally optimal selection worth at least the start. |
| QuadraticGreedy.AsU32 | tig-algorithms/src/knapsack/quadratic_greedy/commercial.rs:86 | `as u32` keeps a non-negative `i32` and adds `2^32` to a negative one. |
| QuadraticGreedy.SolveAsWritten | tig-algorithms/src/knapsack/quadratic_greedy/commercial.rs:19-91 | As written: `Some(picked)` exactly when the searched value, cast to `u32`, reaches `min_value`. |
| QuadraticGreedy.Solve | tig-algorithms/src/knapsack/quadratic_greedy/commercial.rs:82-90 | Corrected: `Some(picked)` exactly when the signed searched value reaches `min_value`, ascending. |
| QuadraticGreedy.SolveSound | tig-algorithms/src/knapsack/quadratic_greedy/commercial.rs:82-90 | The picked indices are exactly the chosen items and fit the capacity. |
| QuadraticGreedy.SampleAsWritten | tig-algorithms/src/knapsack/quadratic_greedy/commercial.rs:86 | On the sample the search ends with both items, worth -1 < 1, yet the cast value clears `min_value`. |
| CwTestWasm.SavingsListExact | tig-algorithms/src/vehicle_routing/cw_test_wasm/innovator_outbound.rs:27-32 | The savings list holds exactly one saving per customer pair `v1 < v2`, at its value, in row order. |
| CwTestWasm.Savings | tig-algorithms/src/vehicle_routing/cw_test_wasm/innovator_outbound.rs:27-32 | The double loop builds exactly that list. |
| CwTestWasm.Orient | tig-algorithms/src/vehicle_routing/cw_test_wasm/innovator_outbound.rs:64-71 | Turning a route to end at `v1`, or start at `v2`, keeps its customers and load and puts the other end at the far side. |
| CwTestWasm.ConcatRoute | tig-algorithms/src/vehicle_routing/cw_test_wasm/innovator_outbound.rs:73-74 | Two disjoint routes in sequence form a route with both sets of customers and the summed load. |
| CwTestWasm.JoinedRoute | tig-algorithms/src/vehicle_routing/cw_test_wasm/innovator_outbound.rs:64-74 | `new_path` is a route of both routes' customers, with the summed load, where `v1` is followed directly by `v2`. |
| CwTestWasm.JoinedPartition | tig-algorithms/src/vehicle_routing/cw_test_wasm/innovator_outbound.rs:57-79 | After a join the customers still partition into routes. |
| CwTestWasm.JoinedJoins | tig-algorithms/src/vehicle_routing/cw_test_wasm/innovator_outbound.rs:57-79 | The join puts the customers of the two routes on one route and leaves every other customer where it was. |
| CwTestWasm.RelinkedTracks | tig-algorithms/src/vehicle_routing/cw_test_wasm/innovator_outbound.rs:57-77 | After a join, `paths` holds the joined route under its two ends, nothing under the inner ends, and every other route where it was. |
| CwTestWasm.RedemandedLoads | tig-algorithms/src/vehicle_routing/cw_test_wasm/innovator_outbound.rs:78-79 | After a join, `path_demands` holds the joined load under its two ends, and the route fits the capacity. |
| CwTestWasm.JoinedState | tig-algorithms/src/vehicle_routing/cw_test_wasm/innovator_outbound.rs:53-79 | One join preserves the partition and the `paths` and `path_demands` invariants, and is the join of the two routes. |
| CwTestWasm.Relink | tig-algorithms/src/vehicle_routing/cw_test_wasm/innovator_outbound.rs:57-79 | The writes of the merge body leave `paths` and `path_demands` as a join describes. |
| CwTestWasm.Merge | tig-algorithms/src/vehicle_routing/cw_test_wasm/innovator_outbound.rs:43-79 | A pair is merged exactly when both are route ends on different routes whose loads together fit. Otherwise nothing changes; either way the invariants hold, and the new routes are `MergeStep` of the old. |
| CwTestWasm.MergeStep | tig-algorithms/src/vehicle_routing/cw_test_wasm/innovator_outbound.rs:43-79 | Trying one saving joins the routes of its two nodes when both are route ends on different routes whose loads fit, and otherwise changes nothing; the customers still partition into routes. |
| CwTestWasm.MergedUpTo | tig-algorithms/src/vehicle_routing/cw_test_wasm/innovator_outbound.rs:40-80 | Trying the first `k` savings in order, from any partition, leaves a partition. |
| CwTestWasm.StaysTogether | tig-algorithms/src/vehicle_routing/cw_test_wasm/innovator_outbound.rs:40-80 | Tried savings only join routes: two customers on one route are still on one route after any number of savings. |
| CwTestWasm.NonNegativePrefix | tig-algorithms/src/vehicle_routing/cw_test_wasm/innovator_outbound.rs:41 | The loop's stopping point: every saving before it is non-negative and the saving at it, if any, is negative. |
| CwTestWasm.Sorted | tig-algorithms/src/vehicle_routing/cw_test_wasm/innovator_outbound.rs:34 | The savings in the sorted order name customers and come in non-increasing order of saving. |
| CwTestWasm.MergeAll | tig-algorithms/src/vehicle_routing/cw_test_wasm/innovator_outbound.rs:40-80 | The loop stops at the first negative saving (`NonNegativePrefix`), keeps the invariants, and ends with exactly the routes obtained by trying every saving before it in order (`MergedUpTo`). |
| CwTestWasm.Routes | tig-algorithms/src/vehicle_routing/cw_test_wasm/innovator_outbound.rs:82-93 | The output loop emits each route of the partition once (`Emits`), from its first customer, wrapped in depot visits, in order of first customer, and every customer is on one. |
| CwTestWasm.FirstsCover | tig-algorithms/src/vehicle_routing/cw_test_wasm/innovator_outbound.rs:82-93 | The routes kept, one per first node, are routes of the partition, in increasing order of first node, and cover every customer. |
| CwTestWasm.EmittedOnce | tig-algorithms/src/vehicle_routing/cw_test_wasm/innovator_outbound.rs:82-93 | The emitted routes are distinct routes of the partition, so no customer is on two of them, and multi-customer routes fit the capacity. |
| CwTestWasm.Solve | tig-algorithms/src/vehicle_routing/cw_test_wasm/innovator_outbound.rs:18-95 | `None` exactly when the pre-check fails; otherwise valid routes (depot-wrapped, every customer exactly once, each merged route within capacity) that are exactly the routes of `Clustered`, the partition reached by trying the sorted savings up to the first negative one from one route per customer, in order of their first customer. |

## Left out

- Async execution and concurrency of the `Context` trait are not modelled: each call is atomic, and nothing interleaves between the duplicate check and the insert in `execute`.
- The trait only declares the filters. What `Mempool { from_block_started }` and `Confirmed { from_block_started }` select is read from the filter names: state absent or present, and the precommit's start block at or after the bound.
- Entities keep only the fields the core reads. Their details, states, block data and payloads are small records or type parameters. `PreciseNumber` and the `jsonify` amount become `nat`.
- `SubmissionType` is declared by the trait but not used by any operation; it is not modelled.
- Context.Ledger.GetConfig: the trait returns the configuration without a block argument. The model takes the latest block's configuration and fails with no block.
- `state()` on a challenge without state is a panic in `verify_challenge_exists`; it is modelled as `Panic`. `block.config()` is assumed present.
- The chain's `verify_solution` and `compute_solution` engines are parameters of the ledger. The chain's transfers, deposits and latest block number are fields.
- Error messages are strings. The faults map stands for any I/O failure of the gateway.
- The `cuda_solve_challenge` entry points and the CUDA kernels are not modelled: GPU code.
- `debug_log` output and timing attributes are not modelled: they have no effect on the result.
- ironhat_pete's ratio sort and `upper_bound` only feed its debug logging; they are not modelled.
- Float sorts are not computed. Each solver receives the sorted `order` (or `arrange`) as a parameter, constrained as the comparator requires where a proof needs it (`KnapSuperBb.RatioSorted`). Ties in an unstable sort are therefore any order.
- Float bounds and estimates are parameters: knap_zilla's and over_knapmaxxed's misfit part `part`, optimism_dollop's `estimate`, and cw_test_wasm's distance pre-check `tooFar`.
- SackOPotatoes.IsSolutionPossible: the f64 product and quotient truncated to `usize` is modelled as the exact floor `value * remaining_weight / weight`. The two can differ when f64 rounding lands on or past the next integer, or when the product exceeds 2^53 and is rounded, so the model can answer differently at that boundary.
- Sackophone.BoundStep: the same f64 truncation (before `.min(value)`) is modelled as the exact floor; where f64 rounding reaches the next integer, or the product exceeds 2^53 and is rounded, the source's bound can differ from the model's.
- KnapZilla.Solve: optimality is proved only when the float bound is sound (`SoundPart`); with an unsound bound only feasibility and reaching `min_value` are proved.
- Weights are at least 1 in every knapsack instance. The ratio sorts divide by them, and an item of weight 0 would break the bounded loops.
- `u32`, `i32` and `usize` overflow is not modelled except in two places: quadratic_greedy's final `as u32` (`QuadraticGreedy.AsU32`) and optimism_dollop's `u8` counter `limit2_flag`, which wraps modulo 256 (`OptimismDollop.GreedyLimits`). Sums are unbounded integers.
- BetterKnapp.ReconstructAsWritten: the `usize` remaining weight and total value of better_knapp's walk are kept as signed integers, so where the as-written walk would underflow a `usize` (a panic in a debug build, a wrap in a release build) the model carries on with a negative number.
- The quadratic instances are assumed to have symmetric interactions with a zero diagonal, as the challenge generator produces them. qknap_optimize's greedy loop adds the diagonal term of the item it takes, which is zero under that assumption.
- QknapOptimize.Optimize and QuadraticGreedy.LocalSearch are proved locally optimal under swaps, not globally optimal, which is what the code achieves.
- Sackophone.Solve: optimality is proved only when every pass ran. After an early stop at `min_value`, the answer is optimal only over the items processed.
- BetterKnapp.Solve, FlatDp.SolveAsWritten and OverKnapmaxxed.SolveAsWritten are deliberately weaker than what the solver intends; each misses `min_value` on a named input (see "Findings").
- The `usize` and `i32` conversions in cw_test_wasm are not modelled: demands are `nat`, the capacity and the savings are `int`. Beyond the pre-check, the solver does not compare its routes with `max_total_distance`, and neither does the model.

## Findings

| source | as written | input that shows it | evidently intended | confidence | as-written member | corrected member |
|---|---|---|---|---|---|---|
| tig-algorithms/src/knapsack/better_knapp/open_data.rs:76-88 | The walk reads the memo at `(i, w)`, the value over the first `i` items, to decide whether item `i - 1` was taken, instead of at `(i - 1, w)`. | weights `[1, 1]`, values `[1, 10]`, max_weight 1, min_value 5: the answer is `Some([0])`, worth 1. | Compare against the entry for `i - 1` items, and return an optimal selection worth 10. | not executed | BetterKnapp.AsWrittenReturnsWorseSelection | BetterKnapp.SolveFixed |
| tig-algorithms/src/knapsack/flat_dp/innovator_outbound.rs:46-50 | When a cell reaches `min_value` during a pass, the solver returns only the current item. | weights `[1, 1]`, values `[3, 3]`, max_weight 2, min_value 6: the answer is one item worth 3. | Return the selection that reaches that cell. | not executed | FlatDp.SolveSampleAsWritten | FlatDp.SolveFixed |
| tig-algorithms/src/knapsack/over_knapmaxxed/commercial.rs:89 | The walk takes an item when `dp[w] != dp[w - weight] + value`. | weights `[1, 1]`, values `[5, 1]`, max_weight 1, min_value 5: the answer is `Some([1])`, worth 1. | Record, in each pass, the cells the item strictly improved, and walk those records back from `max_weight`, keeping an item exactly where its pass improved the cell; the answer is then worth the table's best value. Flipping the comparison to `==` alone is not enough: the one-row table holds only the last pass, so `dp[w - weight]` may already count the same item (weights `[1, 3]`, values `[2, 1]`, max_weight 2, min_value 2 gives `Some([])`). | not executed | OverKnapmaxxed.SolveSampleAsWritten | OverKnapmaxxed.SolveFixed |
| tig-algorithms/src/knapsack/quadratic_greedy/commercial.rs:86 | The final test is `total_value as u32 >= min_value`, so a negative value passes. | weights `[1, 1]`, values `[0, 0]`, interactions `[[0, -1], [-1, 0]]`, max_weight 2, min_value 1: the answer is `Some([0, 1])`, worth -1. | Compare the signed value. | not executed | QuadraticGreedy.SampleAsWritten | QuadraticGreedy.Solve |
