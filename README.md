# Minesweeper solver — a verified model

This project models the core of a Minesweeper auto-player.

**The engines.** The player uses either of two probability engines, and both are modelled:

- **The Python engine** (`src/probability.py`).
  - It splits the closed cells into three kinds: flagged cells, *land* cells (no opened neighbour), and *target* cells (every other closed cell).
  - It enumerates the mine / safe assignments of the targets by a propagate-and-backtrack search over a four-valued slot state.
  - It weighs each consistent assignment by the number of ways to place the remaining mines on the land cells.
  - It returns, per target, the mine probability, together with the probability for a land cell.
- **The native solver** (`cpp/solver.cpp`).
  - It pre-marks the bombs and safe cells the clues force.
  - It collects the remaining frontier cells in row-major order.
  - It explores their assignments by depth-first search, tallying binomial weights.
  - It normalises the tallies into one probability per cell.

**Supporting parts.**

- The binomial tables: `src/constants.py` and `combination.h`.
- The board (`src/mine_sweeper.py`): index / location conversion, the neighbour lists, and opening cells with the zero flood fill. It also keeps the game-over / game-clear bookkeeping.
- The two players (`src/player.py`, `src/base_player.py`). Each one:
  - flags the cells a clue forces;
  - opens the cells a satisfied clue frees;
  - otherwise consults the engine.

**Integers and arrays.**

- Integers are unbounded.
- Binomial coefficients are exact naturals (`Binomial.Choose`).
- The engines' floating-point probabilities are Dafny `real`s computed from those exact counts.
- Classes keep the source's mutable objects: the board, the probability calculator, the native solver, the players and the combination memo.
- Arrays keep the source's in-place buffers.

**Player actions.**

- The players do not call the board. Instead, each records the actions it takes, in order, in a log (`Start`, `Open`, `OpenBatch`).
- Each player step is specified by the actions it appends and by the new flags.
- The board's response to those actions is modelled separately, by `Board.MineSweeper`.

## Model

| member | source | states |
|---|---|---|
| Binomial.Pascal | combination.h:14-15 | C(n, k) = C(n-1, k-1) + C(n-1, k), the sum each memo entry is built from |
| Binomial.RowStep | src/constants.py:16 | i·C(n, i) = (n-i+1)·C(n, i-1): the multiplicative row recurrence holds exactly |
| Binomial.RowStepExact | src/constants.py:16 | the division in the recurrence is exact, so C(n, i-1)·(n-i+1)/i is C(n, i) |
| Binomial.NextEntry | src/constants.py:16 | a value that satisfies the recurrence from C(n, i-1) is C(n, i) |
| Binomial.Absorption | src/constants.py:16 | k·C(n, k) = n·C(n-1, k-1) (the identity behind the recurrence) |
| Binomial.Complement | src/constants.py:16 | (n-j)·C(n, j) = n·C(n-1, j) (the identity behind the recurrence) |
| Binomial.ShiftedBelow | src/probability.py:119 | C(n-1, k-1) ≤ C(n, k): the land tally of one assignment never exceeds its weight |
| Binomial.ChoosePositive | cpp/solver.cpp:245-247 | C(n, k) ≥ 1 for 0 ≤ k ≤ n, so a leaf whose remaining mines fit on the hard cells has a positive weight |
| Constants.Combination | src/constants.py:12-18 | the row has length `size`, starts with 1, and holds C(n, i) at every i, so it is zero past n |
| Constants.CombinationTable | src/constants.py:21 | SIZE rows of SIZE entries; entry [i][j] is C(i, j) |
| Constants.TablePascal | src/constants.py:21 | inner table entries satisfy Pascal's rule |
| Constants.RowFive | test/test_constants.py:8-12 | row 5 is 1 5 10 10 5 1 followed by zeros |
| Constants.RowFiveSteps | test/test_constants.py:8-12 | the six entries of row 5, each from the previous by the recurrence |
| CombinationMemo.CombinationMemo.constructor | combination.h:7 | a fresh memo is empty |
| CombinationMemo.CombinationMemo.Build | combination.h:9-18 | the memo is (sz+1)×(sz+1) and every entry [i][j] is C(i, j) |
| CombinationMemo.CombinationMemo.NCk | combination.h:20-24 | C(n, k), with 1 for n = k = 0 and 0 when n ≤ 0, k < 0 or k > n |
| Grid.LocToIdx | src/mine_sweeper.py:97-101 | a successful conversion gives an index below h·w |
| Grid.IdxToLoc | src/mine_sweeper.py:103-108 | a successful conversion gives an in-field location |
| Grid.LocIdxRoundTrip | src/mine_sweeper.py:97-108 | for an in-field (y, x), location → index → location gives back (y, x) |
| Grid.IdxLocRoundTrip | src/mine_sweeper.py:97-108 | for an index below h·w, index → location → index gives back that index |
| Grid.ConversionErrors | src/mine_sweeper.py:97-108 | loc2idx fails exactly for out-of-field locations; idx2loc fails exactly for indices outside [0, h·w) |
| Grid.InFieldIsLocation | src/mine_sweeper.py:184-185 | `_out_of_field` is false exactly at the locations of the cell indices 0 … h·w-1 |
| Grid.AroundMember | src/mine_sweeper.py:60-63 | a cell is listed iff some offset reaches it in the field and that offset is not (0, 0) |
| Grid.NeighborLocsExact | src/mine_sweeper.py:60-63 | a cell is a neighbour iff it is in the field, differs from the centre and is within one step in both axes; there are at most 8 |
| Grid.NeighborLocsSymmetric | src/mine_sweeper.py:60-63 | q is a neighbour of p iff p is a neighbour of q |
| Grid.NeighborLocsInField | src/mine_sweeper.py:61 | every listed neighbour lies in the field |
| Grid.NeighborTable | src/mine_sweeper.py:60-63 | one neighbour list per cell |
| Grid.NeighborIndicesExact | src/mine_sweeper.py:60-63 | j is in cell i's list iff their locations are adjacent |
| Grid.NeighborIndicesInRange | src/mine_sweeper.py:60-63 | every listed index is a cell index other than i |
| Grid.NeighborIndicesSymmetric | src/mine_sweeper.py:60-63 | j neighbours i iff i neighbours j |
| Board.CountClosedOpen | src/mine_sweeper.py:135 | revealing one closed cell lowers the closed count by exactly one |
| Board.DifficultyFits | src/mine_sweeper.py:55-57 | the three difficulties give fields of at least 9 × 9 cells, each with fewer mines than cells |
| Board.MineSweeper.constructor | src/mine_sweeper.py:54-67 | dimensions and mine count per difficulty, the neighbour table, every cell closed, no flag raised |
| Board.MineSweeper.Open | src/mine_sweeper.py:126-127 | open_multiple of [idx]: the cell shows its truth; the ghost dequeue order starts from the cell when it is a zero, and every later dequeued cell was closed, is a zero and neighbours an earlier one; every dequeued cell has all its neighbours revealed; a changed cell is idx or a closed neighbour of a dequeued cell; over / clear / terminated as for a one-cell batch |
| Board.MineSweeper.OpenMultiple | src/mine_sweeper.py:129-139 | the given cells show their truth; the ghost dequeue order starts at their zeros, and every later dequeued cell was closed, is a zero and neighbours an earlier one; every dequeued cell, and every zero reached, has all its neighbours revealed; a changed cell is a given one or a closed neighbour of a dequeued cell; over iff a mine was opened; clear iff the closed count equals the mine count and the game is not over |
| Board.MineSweeper.RevealCells | src/mine_sweeper.py:130 | the given cells show their truth and no other cell changes |
| Board.MineSweeper.ZeroCells | src/mine_sweeper.py:134 | exactly the given cells whose state is 0 |
| Board.MineSweeper.CountClosedOf | src/mine_sweeper.py:135 | the number of closed cells |
| Board.MineSweeper.OpenAroundZero | src/mine_sweeper.py:141-148 | the ghost dequeue order holds every queued zero, and every other dequeued cell was closed, is a zero and neighbours an earlier dequeued cell; every dequeued cell and every newly revealed zero has all its neighbours revealed; only closed neighbours of dequeued cells change |
| Board.MineSweeper.RevealAround | src/mine_sweeper.py:144-148 | one queue step: the zero's neighbours are revealed, only its closed neighbours change, the new zeros are returned, and the closed count drops by at least their number |
| Board.MineSweeper.FloodStep | src/mine_sweeper.py:143-148 | one turn of the queue loop keeps the flood state, appends the dequeued cell to the dequeue order, and lowers the closed count or shortens the queue |
| Board.MineSweeper.StepKeepsQueue | src/mine_sweeper.py:148 | after a step every queued cell is a revealed zero that is a start or a closed zero next to a dequeued cell, and every start is queued or dequeued |
| Board.MineSweeper.StepKeepsOrder | src/mine_sweeper.py:144-147 | after a step the dequeue order is still a flood order, and every changed cell was closed and neighbours a dequeued cell |
| Board.MineSweeper.StepKeepsRevealed | src/mine_sweeper.py:146 | after a step every dequeued cell has its neighbours revealed, and every newly revealed zero is queued or has its neighbours revealed |
| Board.MineSweeper.FloodOrderWider | src/mine_sweeper.py:141-148 | a flood order over the states after a reveal is one over the states before it, which had more closed cells |
| Board.MineSweeper.JudgeStatement | src/mine_sweeper.py:160-173 | the game-over banner if over, else the game-clear banner if clear, else empty; terminated is set in the first two cases |
| ProbabilitySpec.SelectFrom | src/probability.py:88 | the strictly increasing positions from lo on where the mask is true |
| ProbabilitySpec.Select | src/probability.py:88 | `np.arange(n)[mask]`: strictly increasing, in range, and exactly the true positions |
| ProbabilitySpec.ClosedAtAll | src/probability.py:69-74 | the closed count over a list equals its length iff every listed cell is closed |
| ProbabilitySpec.LandMask | src/probability.py:69-74 | cell i is land iff it is closed and all its neighbours are closed |
| ProbabilitySpec.RevMap | src/probability.py:94 | the reverse map sends the k-th target to k and has exactly the target cells as keys |
| ProbabilitySpec.TargetSlots | src/probability.py:96-99 | the slots of exactly those neighbours that are targets |
| ProbabilitySpec.TargetSlotsIn | src/probability.py:96-99 | every slot in the list is below the number of targets |
| ProbabilitySpec.NonTarget | src/probability.py:100-103 | exactly the neighbours that are not targets |
| ProbabilitySpec.ClosedNonTargetAreFlagged | src/probability.py:100-109 | around an opened cell, the closed non-target cells are exactly the flagged ones |
| ProbabilitySpec.FlagsOnNonTargets | src/probability.py:104-106 | counting flags over the non-target neighbours equals counting them over all neighbours |
| ProbabilitySpec.NonSafeStable | src/probability.py:141-146 | turning undefined slots into mines leaves the non-safe count unchanged |
| ProbabilitySpec.MineLikeStable | src/probability.py:156-161 | turning undefined slots into safe leaves the mine-like count unchanged |
| ProbabilitySpec.NonSafeIsMineLike | src/probability.py:141-156 | with no undefined slot left, non-safe and mine-like counts agree |
| ProbabilitySpec.FirstAssumed | src/probability.py:125-128 | the first assumed mine at or after lo |
| ProbabilitySpec.LastAssumed | src/probability.py:125-128 | the last assumed mine below hi |
| ProbabilitySpec.FirstUndefined | src/probability.py:178-180 | the first undefined slot, or None exactly when no slot is undefined |
| ProbabilitySpec.Backtrack | src/probability.py:123-134 | _update_target keeps the number of slots |
| ProbabilitySpec.BacktrackShape | src/probability.py:123-134 | the last assumed mine becomes safe; the slots after it reset to undefined, except the next one, which becomes an assumed mine; n_checked moves past the first assumed mine when it was the only one |
| ProbabilitySpec.BacktrackKeepsInvariant | src/probability.py:123-134 | backtracking preserves the search invariant: the prefix before n_checked is settled and assumptions form a valid stack |
| ProbabilitySpec.EncBelow | src/probability.py:191-200 | the measure of a state is below 3^n |
| ProbabilitySpec.EncLex | src/probability.py:191-200 | a state that agrees up to k and ranks lower at k has a lower measure |
| ProbabilitySpec.EncPointwise | src/probability.py:191-200 | a pointwise lower-ranked state has no higher measure, and a strictly lower one where any slot drops |
| ProbabilitySpec.BacktrackDecreases | src/probability.py:123-134 | _update_target strictly lowers the measure, so the outer loop terminates |
| ProbabilitySpec.ResolvedDecreases | src/probability.py:136-164 | resolving undefined slots never raises the measure and lowers it when anything changes |
| ProbabilitySpec.NewAssumption | src/probability.py:178-180 | assuming a mine at the first undefined slot keeps the invariant and lowers the measure |
| ProbabilitySpec.ResolvedKeepsInvariant | src/probability.py:136-164 | resolving slots to safe or mine keeps the invariant and keeps any pending assumption |
| ProbabilitySpec.SumsAppend | src/probability.py:113-121 | tallying one more assignment adds its weight, its land weight and its per-slot mine weight |
| ProbabilitySpec.LandWeightBelow | src/probability.py:118-119 | C(L-1, r-1) ≤ C(L, r) for each assignment |
| ProbabilitySpec.SumMineBelow | src/probability.py:121 | each per-target tally is at most the total |
| ProbabilitySpec.SumLandBelow | src/probability.py:119-120 | the land tally is at most the total |
| SearchRegion.Settle | src/probability.py:113-115 | the assignment a decided state stands for: same length, no assumption, and a slot is a mine iff it is a mine or an assumed mine |
| SearchRegion.SameMines | src/probability.py:113-115 | two complete assignments with the same mines are equal |
| SearchRegion.Frontier | src/probability.py:178-180 | the first none slot: every slot before it is decided and, if it is inside the state, it is none |
| SearchRegion.BranchNotPending | src/probability.py:123-134 | an assignment on the current branch is in no pending safe branch |
| SearchRegion.CompleteBranch | src/probability.py:181-183 | on a complete state the branch holds exactly the assignment the state stands for |
| SearchRegion.NothingPending | src/probability.py:191 | with no assumed mine left, nothing is pending |
| SearchRegion.BacktrackRegion | src/probability.py:123-134 | after _update_target, what is left to search (the branch plus the pending safe branches) is exactly what was pending before it |
| SearchRegion.BacktrackKeeps | src/probability.py:123-134 | what was pending before _update_target is left to search after it |
| SearchRegion.BacktrackAdds | src/probability.py:123-134 | what is left to search after _update_target was pending before it |
| SearchRegion.BacktrackTail | src/probability.py:129-134 | after _update_target every slot from the first none slot on is none |
| SearchRegion.TailBranch | src/probability.py:178-180 | when every slot from the frontier on is none, agreeing with the decided prefix puts an assignment on the branch |
| SearchRegion.StartRegion | src/probability.py:193 | the starting state, with only slot 0 an assumed mine, leaves every assignment to search |
| SearchRegion.ResolveRegion | src/probability.py:136-164 | resolving none slots never adds to what is left to search, keeps every pending branch, and keeps on the branch an assignment that agrees with every newly resolved slot |
| SearchRegion.ResolveFrontier | src/probability.py:136-164 | resolving none slots does not move the frontier back |
| SearchRegion.AssumeRegion | src/probability.py:178-180 | assuming a mine on the first none slot splits the branch into its mine half, the new branch, and its safe half, newly pending; nothing else is added or lost |
| SearchRegion.BacktrackEndsSafe | src/probability.py:123-134 | _update_target leaves an assumption unless it turned the last slot safe |
| SearchRegion.SlotsSound | src/probability.py:136-164 | a clue met by an assignment on the branch is not contradicted by the branch, and each none slot a pass resolves around it is resolved as the assignment has it |
| Probability.OpenedMask | src/probability.py:83 | true exactly at the cells showing a positive clue |
| Probability.FractionInUnit | src/probability.py:204-205 | a count over a larger positive total lies in [0, 1] |
| Probability.Normalize | src/probability.py:204 | each probability is count / total and lies in [0, 1] |
| Probability.SlotTable | src/probability.py:96-99 | one slot list per cell, each the target slots of its neighbours and each in range |
| Probability.ProbabilityCalculator.constructor | src/probability.py:57-111 | the caches hold the land mask, the targets in ascending order with their reverse map, and the per-cell target slots and non-target flag / closed counts; the opened cells are recorded; every slot is undefined and every tally is zero |
| Probability.ProbabilityCalculator.AssumeFlags | src/probability.py:136-148 | contradiction iff some clue sees fewer closed non-safe cells than its value; otherwise every slot the pass marks is forced to be a mine by a clue; only undefined slots change, and only to mine |
| Probability.ProbabilityCalculator.MarkAround | src/probability.py:145-146 | the listed undefined slots take the new value and nothing else changes; reports whether any changed |
| Probability.ProbabilityCalculator.ForcedMineStep | src/probability.py:138-147 | one more clue in the pass extends the forced-mine set by exactly that clue's undefined slots |
| Probability.ProbabilityCalculator.ForcedSafeStep | src/probability.py:153-162 | one more clue in the pass extends the forced-safe set by exactly that clue's undefined slots |
| Probability.ProbabilityCalculator.AssumeSafeCells | src/probability.py:150-164 | contradiction iff some clue sees more mine-like cells than its value; otherwise `assumed` says whether any slot changed, and every change is a forced-safe slot; only undefined slots change, and only to safe |
| Probability.ProbabilityCalculator.SafeStep | src/probability.py:153-162 | one clue of the safe pass: it stops iff the clue has more mine-like neighbours than its value; otherwise the slots changed so far are exactly those forced safe by the clues up to this one, and it reports whether this clue changed a slot |
| Probability.ProbabilityCalculator.FeasibleAfterPasses | src/probability.py:166-176 | a state that survived both passes without contradiction is feasible for every clue |
| Probability.ProbabilityCalculator.CountedAreConsistent | src/probability.py:113-121 | a complete feasible assignment meets every clue exactly: flags around it plus the mine-like targets around it equal its value |
| Probability.ProbabilityCalculator.ClueFlags | src/probability.py:100-109 | on a sane board the cached flag and closed counts of a clue are both its flagged neighbours |
| Probability.ProbabilityCalculator.ClueSound | src/probability.py:136-164 | a consistent assignment on the branch: the clue is not contradicted, and each none slot a pass resolves around it is resolved as the assignment has it |
| Probability.ProbabilityCalculator.ClueBounds | src/probability.py:140-157 | the bounds half: the closed non-safe count is at least the clue and the mine-like count at most |
| Probability.ProbabilityCalculator.ClueForces | src/probability.py:143-161 | the resolving half: a none slot made a mine has a mine in the assignment, one made safe has none |
| Probability.ProbabilityCalculator.Sound | src/probability.py:136-164 | the passes are sound: over every clue, a consistent assignment on the branch sees it feasible, and every slot a pass forces is forced as the assignment has it |
| Probability.ProbabilityCalculator.FlagPass | src/probability.py:136-148 | _assume_flags without a contradiction only turns none slots into mines |
| Probability.ProbabilityCalculator.SafePass | src/probability.py:150-164 | _assume_safe_cells without a contradiction only turns none slots safe |
| Probability.ProbabilityCalculator.ExploredStart | src/probability.py:193 | the search starts with every assignment still ahead and nothing logged |
| Probability.ProbabilityCalculator.ResolvedExplored | src/probability.py:136-164 | a pass that keeps every consistent assignment of the branch on the branch keeps the completeness invariant |
| Probability.ProbabilityCalculator.PassesExplored | src/probability.py:166-176 | both passes keep the completeness invariant |
| Probability.ProbabilityCalculator.ConflictSpent | src/probability.py:140-157 | a contradiction leaves no consistent assignment on the branch: only the pending safe branches are ahead |
| Probability.ProbabilityCalculator.AssumeExplored | src/probability.py:178-180 | a new assumed mine on the first none slot keeps the completeness invariant |
| Probability.ProbabilityCalculator.TallySpent | src/probability.py:181-183 | tallying a complete feasible state logs the one assignment on its branch, which was not logged before, and uses the branch up |
| Probability.ProbabilityCalculator.LogAppended | src/probability.py:181-183 | appending a new consistent assignment keeps the log distinct and consistent |
| Probability.ProbabilityCalculator.TallyNotPending | src/probability.py:181-183 | after the tally no logged assignment is in a pending branch |
| Probability.ProbabilityCalculator.TallyCovers | src/probability.py:181-183 | after the tally every consistent assignment is logged or pending |
| Probability.ProbabilityCalculator.BacktrackExplored | src/probability.py:123-134 | _update_target after a used-up branch restores the completeness invariant |
| Probability.ProbabilityCalculator.ExploredAtEnd | src/probability.py:191 | when the loop stops, every consistent assignment is logged except possibly the state it stops on, which is not logged |
| Probability.ProbabilityCalculator.OutcomeExplored | src/probability.py:166-185 | whatever _assume does keeps the completeness invariant, or uses the branch up when it reports a contradiction |
| Probability.ProbabilityCalculator.LogLower | src/probability.py:191-200 | the log of tallied assignments stays valid under a lower bound |
| Probability.ProbabilityCalculator.LogExtend | src/probability.py:181-183 | appending a complete feasible assignment above the bound keeps the log valid |
| Probability.ProbabilityCalculator.AddCount | src/probability.py:113-121 | the current assignment is appended to the log; the total grows by its weight, the land tally by its land weight, and each mine slot's tally by its weight |
| Probability.ProbabilityCalculator.UpdateTarget | src/probability.py:123-134 | the new state and n_checked are the backtracking step of the old ones |
| Probability.ProbabilityCalculator.CountAndBacktrack | src/probability.py:181-183 | the current state is appended to the log and the new state and n_checked are the backtracking step of the old ones; the measure drops and the invariants hold |
| Probability.ProbabilityCalculator.Retreat | src/probability.py:198-200 | nothing is tallied, and the new state and n_checked are the backtracking step of the old ones; the measure drops and the invariants hold |
| Probability.ProbabilityCalculator.Assume | src/probability.py:166-185 | the new state is, in order: the flag pass with a contradiction (false); the safe pass with one (false); the passes when the second one resolved something; a new assumed mine on the first none slot; or, with every slot decided, the tally and the backtrack. A true step lowers the measure, a false one leaves an assumption to retract |
| Probability.ProbabilityCalculator.SearchStep | src/probability.py:191-200 | one turn of the loop keeps the invariants, including completeness, and lowers the measure |
| Probability.ProbabilityCalculator.TallyLast | src/probability.py:181-183 | the state the loop stops on is tallied iff it is feasible, and nothing else changes |
| Probability.ProbabilityCalculator.LastLogged | src/probability.py:191-200 | with that state tallied when feasible, the log holds every consistent assignment, each once, on a sane board |
| Probability.ProbabilityCalculator.Enumerate | src/probability.py:191-200 | the loop of compute as written: it ends with no none or assumed slot and the last slot safe; every tallied assignment is complete, feasible and distinct; on a sane board every consistent assignment is logged, except possibly the one the loop stops on, which is not logged |
| Probability.ProbabilityCalculator.Compute | src/probability.py:187-207 | with no targets: probability 0 and no probabilities. Otherwise each probability is count / total in [0, 1] and the land probability is land / total, or 1 when there are no land cells or no assignment. Every tallied assignment is complete and feasible; on a sane board the log holds every consistent assignment exactly once (the corrected search, which also tallies the state the loop stops on) |
| Probability.ProbabilityCalculator.Shares | src/probability.py:202-205 | with a positive total each probability is count / total in [0, 1] and the land probability is land / total (1 with no land cells); with a zero total nothing changes and the land probability is 1 |
| Probability.ComputedBy | src/probability.py:187-207 | what Compute promises is the share of each target in the weights of the logged assignments |
| Probability.CalculateProbabilities | src/player.py:107-113 | the targets are the closed, unflagged, non-land cells in ascending order, with one probability each in [0, 1] and a land probability in [0, 1]; each probability is the target's share of the weight of the logged assignments, which on a sane board are every consistent one, each once |
| SolverGrid.ComputeCombination | cpp/solver.cpp:19-28 | an n×n table whose entry [i][j] is C(i, j), so it is zero beyond the diagonal |
| SolverGrid.FillRow | cpp/solver.cpp:21-25 | row i becomes C(i, ·) and every other row is unchanged |
| SolverGrid.NextEntry | cpp/solver.cpp:24 | one step of the row recurrence gives C(i, j) |
| SolverGrid.AroundSplit | cpp/solver.cpp:192-203 | the neighbours over two offset lists are the concatenation of each list's neighbours |
| SolverGrid.WalkIsAround | cpp/solver.cpp:192-203 | the first k steps of the dy / dx walk give the neighbours over the first k offsets |
| SolverGrid.WalkGivesNeighbors | cpp/solver.cpp:192-203 | the full walk gives exactly the board's neighbour list |
| SolverGrid.WalkStep | cpp/solver.cpp:197-202 | visiting one offset appends its cell iff it is in the field and is not the centre |
| SolverGrid.WalkSkipsRow | cpp/solver.cpp:194-196 | a row outside the field adds nothing |
| SolverGrid.CellNeighbors | cpp/solver.cpp:192-204 | the neighbour list of one cell |
| SolverGrid.RowNeighbors | cpp/solver.cpp:197-203 | the dx loop extends the walk by one row of offsets |
| SolverGrid.NeighborsInField | cpp/solver.cpp:188-208 | every neighbour lies in the field |
| SolverGrid.GetNeighborList | cpp/solver.cpp:188-208 | for every cell, its neighbour list, each entry in the field |
| SolverGrid.CloseOpenSplit | cpp/solver.cpp:73-91 | closed plus open neighbours make up the whole list |
| SolverGrid.CloseCountAll | cpp/solver.cpp:121 | the closed count equals the list length iff every listed cell is closed |
| SolverGrid.CountCloseAround | cpp/solver.cpp:73-81 | the number of closed cells in the list |
| SolverGrid.CountOpenAround | cpp/solver.cpp:83-91 | the number of opened cells in the list |
| SolverGrid.CountBombAround | cpp/solver.cpp:93-101 | the number of bomb-marked cells in the list |
| SolverGrid.CountSafeAround | cpp/solver.cpp:103-111 | the number of listed cells that are safe-marked or open |
| SolverGrid.BombBeforeStep | cpp/solver.cpp:143-160 | scanning one more clue adds exactly the bombs that clue forces |
| SolverGrid.BombBeforeRow | cpp/solver.cpp:143-160 | the end of a row is the start of the next |
| SolverGrid.BombBeforeAll | cpp/solver.cpp:143-160 | after the whole scan, the marked cells are exactly the forced bombs |
| SolverGrid.MarkBombsAround | cpp/solver.cpp:154-158 | the closed neighbours of (h, w) are marked and everything else keeps its mark |
| SolverGrid.DetermineBombCells | cpp/solver.cpp:141-162 | a cell is marked iff it is a closed neighbour of a positive clue whose closed-neighbour count equals the clue |
| SolverGrid.SafeBeforeStep | cpp/solver.cpp:166-184 | scanning one more cell adds exactly the safe cells it implies |
| SolverGrid.SafeBeforeRow | cpp/solver.cpp:166-184 | the end of a row is the start of the next |
| SolverGrid.SafeBeforeAll | cpp/solver.cpp:166-184 | after the whole scan, the marked cells are exactly those forced safe |
| SolverGrid.MarkSafeAround | cpp/solver.cpp:173-182 | the opened cell and its non-bomb neighbours (when the clue is met) are marked, nothing else changes |
| SolverGrid.DetermineSafeCells | cpp/solver.cpp:164-186 | a cell is marked iff it is open, or a non-bomb neighbour of an open cell whose clue equals its marked bombs |
| SolverGrid.OpenIsForcedSafe | cpp/solver.cpp:173 | every open cell is safe-marked |
| SolverGrid.RowMajorAppend | cpp/solver.cpp:212-222 | appending a cell after all listed ones keeps row-major order |
| SolverGrid.CollectTargets | cpp/solver.cpp:210-226 | the targets in row-major order: closed, neither bomb- nor safe-marked, with an open neighbour; and every such cell is listed |
| SolverGrid.CollectRow | cpp/solver.cpp:213-223 | the inner loop adds exactly row h's targets after the earlier rows' |
| SolverGrid.HardIsAllClosed | cpp/solver.cpp:117-123 | a hard cell is exactly a closed cell all of whose neighbours are closed |
| SolverGrid.HardCountBound | cpp/solver.cpp:113-127 | at most one hard cell per cell of the scanned rows |
| SolverGrid.CountHardCells | cpp/solver.cpp:113-127 | the number of hard cells, at most height·width |
| SolverGrid.MarkedBound | cpp/solver.cpp:129-139 | at most one mark per cell of the scanned rows |
| SolverGrid.CountBombs | cpp/solver.cpp:129-139 | the number of marked cells, at most height·width |
| SolverGrid.MarkedInRowCounts | cpp/solver.cpp:132-136 | the marks counted in a row are the marked cells of that row |
| SolverGrid.MarkedCounts | cpp/solver.cpp:129-139 | count_bombs counts exactly the set of marked cells |
| Solver.RatioInUnit | cpp/solver.cpp:30-34 | a tally over a larger positive total lies in [0, 1] |
| Solver.NormalizeProbs | cpp/solver.cpp:30-34 | every entry is divided by the total |
| Solver.MineSweeperSolver.constructor | cpp/solver.cpp:56-71 | the neighbour table; the forced bombs and safe cells; exactly the target cells in row-major order; an exact binomial table; zero tallies; the hard-cell count; and the count of initial bombs. The leaf log starts empty, the tallies are its sums, and the marks are as SettledOn describes |
| Solver.MineSweeperSolver.IsAssumptionValid | cpp/solver.cpp:228-243 | true iff every open neighbour of (h, w) has no more marked bombs than its clue, and enough cells not known safe to meet it |
| Solver.MineSweeperSolver.ComputeProb | cpp/solver.cpp:245-260 | the total grows by C(hard, remaining); each bomb-marked target's tally by C(hard, remaining); and the hard-cell tally by C(hard-1, remaining-1) when both are positive; every tally stays within the total |
| Solver.MineSweeperSolver.DepthFirstSearch | cpp/solver.cpp:262-287 | the marks are restored exactly. Every tally is the sum of C(hard, remaining) over the logged leaves that make that target a bomb, and the total that sum over all leaves. Every leaf is consistent with the clues and places every mine. Leaves are only appended; the new ones agree with the decided targets and are pairwise different. Every completion of the decided bombs by the remaining targets that meets the clues and fits the mines is reached as a new leaf (with the corrected guards) |
| Solver.MineSweeperSolver.BombBranch | cpp/solver.cpp:268-277 | the bomb half of one search level: the DepthFirstSearch guarantees, and target ti is a bomb in every new leaf |
| Solver.MineSweeperSolver.SafeBranch | cpp/solver.cpp:277-286 | the safe half of one search level: the DepthFirstSearch guarantees, and target ti is not a bomb in any new leaf |
| Solver.MineSweeperSolver.RecordLeaf | cpp/solver.cpp:264-266 | compute_prob at a leaf: the leaf (its bomb set and remaining mines) is appended to the log, the tallies are still sums over the log, and the leaf is the one completion there is |
| Solver.MineSweeperSolver.LeafTallied | cpp/solver.cpp:245-260 | the increments compute_prob makes are exactly those that keep the tallies as sums over the leaves with one leaf more |
| Solver.MineSweeperSolver.SetBombMark | cpp/solver.cpp:269 | only the target's bomb mark changes; the bomb set gains or loses exactly that target |
| Solver.MineSweeperSolver.SetSafeMark | cpp/solver.cpp:278 | only the target's safe mark changes; the safe-or-open set gains or loses exactly that target |
| Solver.MineSweeperSolver.SearchStarts | cpp/solver.cpp:314-315 | pre-deduced marks with every target unmarked satisfy the search state before target 0 |
| Solver.MineSweeperSolver.SearchAdvances | cpp/solver.cpp:268-276 | after target ti is added to the bomb or the safe set and its open neighbours passed the clue check, the search state holds before target ti + 1; other clue checks stay true because their counts do not see ti |
| Solver.MineSweeperSolver.NextToChecked | cpp/solver.cpp:228-243 | an open neighbour of a passed target can still meet its clue |
| Solver.MineSweeperSolver.FeasibleBySets | cpp/solver.cpp:228-243 | the clue check on the mark arrays equals the same check on the bomb and safe-or-open sets |
| Solver.MineSweeperSolver.LeafConsistent | cpp/solver.cpp:262-266 | at a leaf, every open cell next to a target has exactly its clue's number of bombs around it |
| Solver.MineSweeperSolver.LeafCell | cpp/solver.cpp:262-266 | one such cell: feasibility plus every neighbour being decided makes the count exact |
| Solver.MineSweeperSolver.LeafNeighbor | cpp/solver.cpp:262-266 | at a leaf, each neighbour of an open cell is in exactly one of the bomb set and the safe-or-open set |
| Solver.MineSweeperSolver.BranchesJoin | cpp/solver.cpp:268-286 | the leaves of both branches agree with the decided targets and are pairwise different, since they differ on target ti |
| Solver.MineSweeperSolver.BombSearch | cpp/solver.cpp:270-276 | the bomb half past the mark: the search from ti + 1 runs iff the bounds and the clue check pass, and every completion making ti a bomb is reached |
| Solver.MineSweeperSolver.BombDescend | cpp/solver.cpp:275 | the search from ti + 1 with one bomb more: its leaves make ti a bomb and reach every completion that does |
| Solver.MineSweeperSolver.SafeSearch | cpp/solver.cpp:279-285 | the safe half past the mark: every completion leaving ti safe is reached |
| Solver.MineSweeperSolver.SafeDescend | cpp/solver.cpp:284 | the search from ti + 1 with the same bombs: it reaches every completion from ti + 1 |
| Solver.MineSweeperSolver.SearchAll | cpp/solver.cpp:315 | the search from the root reaches every admissible placement, makes the total positive when there is one, records only leaves that are admissible when they weigh, each once, and restores the marks |
| Solver.MineSweeperSolver.ValidUnder | cpp/solver.cpp:228-243 | is_assumption_valid holds for target ti whenever some consistent placement extends the marked bombs and avoids the safe cells |
| Solver.MineSweeperSolver.SafeApart | cpp/solver.cpp:237-238 | a cell known safe is in no completion of the search state |
| Solver.MineSweeperSolver.SafeApartAll | cpp/solver.cpp:237-238 | the same for every cell known safe |
| Solver.MineSweeperSolver.CompletionAfterBomb | cpp/solver.cpp:269-276 | a completion making ti a bomb is, without ti, a completion from ti + 1 of the bombs with ti |
| Solver.MineSweeperSolver.CompletionAfterSafe | cpp/solver.cpp:278-285 | a completion leaving ti safe is one from ti + 1 |
| Solver.MineSweeperSolver.BombReached | cpp/solver.cpp:275 | the bomb branch reaching the completions from ti + 1 reaches every completion from ti that makes ti a bomb |
| Solver.MineSweeperSolver.BombLeaves | cpp/solver.cpp:275 | leaves of the bomb branch agree with the decided targets and make ti a bomb |
| Solver.MineSweeperSolver.BombCompletions | cpp/solver.cpp:271-273 | with ti marked a bomb, every completion that makes ti one passes the corrected bound and the clue check |
| Solver.MineSweeperSolver.BombCompletion | cpp/solver.cpp:271-273 | the same for one completion |
| Solver.MineSweeperSolver.SafeCompletions | cpp/solver.cpp:280-282 | with ti marked safe, every completion leaving ti safe passes the corrected bound and the clue check |
| Solver.MineSweeperSolver.SafeCompletion | cpp/solver.cpp:280-282 | the same for one completion |
| Solver.MineSweeperSolver.RootCompletion | cpp/solver.cpp:314-315 | an admissible placement is a completion of the pre-deduced bombs from target 0, and the root lookup is in range |
| Solver.MineSweeperSolver.RootCompletions | cpp/solver.cpp:314-315 | the same for every admissible placement |
| Solver.MineSweeperSolver.LeavesAdmissible | cpp/solver.cpp:245-260 | every leaf is the deduced bombs plus some targets, and one with positive weight is an admissible placement |
| Solver.MineSweeperSolver.SolvablePositive | cpp/solver.cpp:259 | when some admissible placement is reached, the total is at least 1 |
| Solver.MineSweeperSolver.LeafAppended | cpp/solver.cpp:264-266 | one more good leaf keeps the log good |
| Solver.MineSweeperSolver.LeafReaches | cpp/solver.cpp:264-266 | at a leaf the only completion is the empty one, and the leaf just recorded reaches it |
| Solver.MineSweeperSolver.BranchesReach | cpp/solver.cpp:268-286 | completions making ti a bomb are reached in the bomb branch and the others in the safe branch, so all are reached |
| Solver.MineSweeperSolver.SafeMarksAre | cpp/solver.cpp:278 | the safe-mark set is exactly the safe-marked cells |
| Solver.MineSweeperSolver.MarksAre | cpp/solver.cpp:269-286 | the bomb and safe sets are exactly the marked cells |
| Solver.MineSweeperSolver.TargetsDistinct | cpp/solver.cpp:210-226 | targets are pairwise different |
| Solver.MineSweeperSolver.TargetsFromStep | cpp/solver.cpp:268-286 | the targets from ti are target ti and those from ti + 1 |
| Solver.MineSweeperSolver.BombCount | cpp/solver.cpp:129-139 | the bomb marks counted row by row are the bomb set and as many |
| Solver.MineSweeperSolver.SettledByDeduction | cpp/solver.cpp:56-71 | after pre-deduction a bomb outside the targets is closed, a closed cell next to an open one is marked exactly one of bomb and safe, and the targets are closed |
| Solver.MineSweeperSolver.SettledCell | cpp/solver.cpp:56-71 | the same for one cell |
| Solver.MineSweeperSolver.MarkSets | cpp/solver.cpp:262-287 | the bomb set and the safe-or-open set hold exactly the marked cells, and the open cells for the latter |
| Solver.MineSweeperSolver.WeightsAppend | cpp/solver.cpp:245-260 | the sums over the leaves grow by the new leaf's placements |
| Solver.MarkCountIsCountIn | cpp/solver.cpp:236 | counting the marked neighbours equals counting them in the bomb set |
| Solver.SafeCountIsCountIn | cpp/solver.cpp:237 | counting the safe-or-open neighbours equals counting them in that set |
| Solver.CountInOutside | cpp/solver.cpp:236-237 | a cell outside a neighbour list does not change its count |
| Solver.CountInSplit | cpp/solver.cpp:238 | two sets that split a neighbour list count up to its length |
| Solver.OpenCountPositive | cpp/solver.cpp:56-71 | a list with an open cell has a positive open count |
| Solver.CountInMono | cpp/solver.cpp:236 | counting a subset gives no more bombs around a cell |
| Solver.CountInApart | cpp/solver.cpp:236-238 | two sets sharing no listed cell count up to at most the list length |
| Solver.MineSweeperSolver.GetProbs | cpp/solver.cpp:289-312 | every tally is divided by the total and lies in [0, 1]; each target shows its probability; every other cell shows 0 (open or safe), 1 (bomb) or the hard-cell probability |
| Solver.MineSweeperSolver.PlaceTargets | cpp/solver.cpp:293-296 | each target's cell holds its probability and every other cell stays -1 |
| Solver.MineSweeperSolver.FillOtherRow | cpp/solver.cpp:298-309 | the non-target cells of row h get 0, 1 or the hard-cell probability; other rows and targets are unchanged |
| Solver.MineSweeperSolver.Solve | cpp/solver.cpp:314-317 | no grid iff a lookup would leave the table or the total is zero, and a grid whenever some placement meets the clues. Every such placement is reached as a leaf; every leaf that weighs is such a placement, and the leaves are pairwise different. Each target's probability is its bomb weight over the total weight, the hard-cell value the same kind of ratio, every value in [0, 1], as GetProbs lays it out; the marks are as before |
| PlayerRules.OpenEach | src/player.py:90 | one Open action per index, in order |
| PlayerRules.OpenEachConcat | src/player.py:83-91 | the actions for a concatenation are the concatenated actions |
| PlayerRules.FlagForcedStep | src/player.py:69-76 | scanning one more clue adds exactly the closed neighbours of that clue when its value equals their number |
| PlayerRules.BuiltFlags | src/player.py:65-76 | a cell is flagged iff it was flagged before or a positive clue's closed-neighbour count equals the clue and names it |
| PlayerRules.FlagClosedAround | src/player.py:76 | the closed neighbours of clue i are flagged; nothing else changes |
| PlayerRules.BuildFlags | src/player.py:65-76 | the flags become BuiltFlags of the old flags |
| PlayerRules.OpensOf | src/player.py:89 | exactly the neighbours that are neither flagged nor opened |
| PlayerRules.SafeOpens | src/player.py:83-91 | every cell opened is a cell index |
| PlayerRules.SafeOpensMembers | src/player.py:83-91 | a cell is opened iff it is an unflagged closed neighbour of a positive clue whose flag count equals its value |
| PlayerRules.CollectSafeOpens | src/base_player.py:86-93 | the cells gathered are the safe openings, clue by clue |
| PlayerRules.Unique | src/base_player.py:96 | `np.unique`: strictly increasing, with the same members |
| PlayerRules.FirstTrue | src/player.py:99-104 | the first true position from lo on, or None when there is none |
| PlayerRules.FindLand | src/player.py:95-104 | the first land cell, if any |
| PlayerRules.LandAction | src/player.py:95-104 | at most one action, opening a land cell |
| PlayerRules.ArgMin | src/player.py:123 | `np.argmin`: a minimal position, the first one among ties |
| PlayerRules.ZeroOpens | src/player.py:117-119 | exactly the targets whose probability is 0 |
| PlayerRules.TargetsClosed | src/probability.py:87-88 | every target index is a closed cell |
| PlayerRules.ZeroOpensClosed | src/player.py:116-121 | opening the zero-probability targets opens only closed cells |
| PlayerRules.SafeOpensClosed | src/player.py:83-91 | the safe openings open only closed cells |
| PlayerRules.StartIndex | src/player.py:128 | the index of the centre cell (H // 2, W // 2), which is a cell index |
| Players.Player.constructor | src/player.py:28-34 | the dimensions and neighbour lists, no flag and no action |
| Players.Player.StartGame | src/player.py:128-129 | a Start action at the centre cell |
| Players.Player.BuildFlags | src/player.py:65-76 | the flags become BuiltFlags of the old flags |
| Players.Player.OpenSafeCells | src/player.py:78-93 | the safe openings are appended as Open actions; true iff there are any |
| Players.Player.OpenAll | src/player.py:89-91 | one Open action per index, in order |
| Players.Player.OpenLand | src/player.py:95-104 | the land action, if any, is appended |
| Players.Player.ApplyProba | src/player.py:114-125 | with a zero probability: the zero targets are opened and the probability-1 targets flagged; else the first minimal target is opened when below the land probability; else a land cell is opened |
| Players.Player.OpenZerosFlagOnes | src/player.py:116-121 | the zero-probability targets are opened in order, and exactly the probability-1 targets are added to the flags |
| Players.Player.OpenByProba | src/player.py:106-125 | the probabilities are those of the calculator run on the board and the old flags, over its log of every consistent assignment (on a sane board); the actions and flags are ApplyProba's choice on them; flags only grow and new flags are on closed cells; the old actions are kept and every new action opens a closed cell |
| Players.Player.Round | src/player.py:131-134 | one round: the flags become BuiltFlags; when safe openings exist they are opened and nothing else happens; otherwise the probabilities are computed on the built flags and ApplyProba's choice is made; flags only grow; every new action opens a closed cell |
| BasePlayers.BasePlayer.constructor | src/base_player.py:32-38 | the dimensions and neighbour lists, no flag and no action |
| BasePlayers.BasePlayer.StartGame | src/base_player.py:116-117 | a Start action at the centre cell |
| BasePlayers.BasePlayer.BuildFlags | src/base_player.py:69-80 | the flags become BuiltFlags of the old flags |
| BasePlayers.BasePlayer.OpenSafeCells | src/base_player.py:82-98 | the de-duplicated safe openings are appended as one batch, when there are any; true iff there are any |
| BasePlayers.BasePlayer.OpenLand | src/base_player.py:100-109 | the land action, if any, is appended |
| BasePlayers.BasePlayer.Round | src/base_player.py:119-122 | one round: the flags are built, the safe openings batched; the probability step is due iff there were none |

## Left out

- Floating point: the engines compute in `float64` / `long double`. The model computes probabilities as exact `real` quotients of exact integer counts. The source's divide-then-multiply order in the binomial recurrences (`ret[i-1] / i * (n-i+1)`) is therefore modelled as the exact product-then-quotient; the two agree on exact arithmetic.
- Binomial.Choose: it is 0 for negative k. numpy's `COMBINATION[L-1, r-1]` with L = 0 or r = 0 reads a wrapped-around negative index instead. The model takes the value 0, which is the evident intent, because the land weight of an assignment with no remaining mine is then zero.
- Probability.ProbabilityCalculator.AddCount: it uses the exact `Choose(L, r)` rather than a lookup in the 500×500 table. It does not model the table's bound, or a negative index wrapping when more mines are assumed than remain.
- Random mine placement (`MineSweeper.start`): the ground truth is a constructor parameter of `Board.MineSweeper`. The first opening is then an ordinary `Open`.
- Printing and plotting (`plot_field`, `_convert_string`, the progress print in `compute`) and `main` are left out. The C++ demo `main` and the pybind wrapper are left out too.
- `src/player_cpp.py`, the legacy copies at the repository root and under `py/`, and `validate_probability.py` are not part of this model.
- Solver.MineSweeperSolver.leaves: the log of leaves is ghost, so it has no counterpart in the source. It is there only to state what the tallies add up.
- Solver.MineSweeperSolver.LeafConsistent: consistency covers the open cells next to a target. The search never checks an open cell whose neighbours are all decided by pre-deduction, and the model does not claim it.
- Zero clues are not scanned when the flags are built or the safe cells opened, exactly as in the source (`cell_state > 0`).
- The players' `solve` loop is modelled one round at a time (`Round`), with the board's answer given as the next cell-state sequence. The loop's termination depends on the board and is not modelled.
- The board's flood-fill queue is a `deque`, modelled as a sequence consumed from the front.
- Probability.ProbabilityCalculator.Compute: it requires the freshly constructed state (`Initial`), as the source only ever calls it once.
- Solver.MineSweeperSolver.Solve: the C++ code reads `combination_memo[n_hard][n_total - n_defined]` even when that index is out of range, and divides by a zero total (giving NaN). Those two cases return None.
- Solver.MineSweeperSolver.GetProbs: it requires a positive total; the zero-total case is handled in Solve.
- Players.Player.OpenSafeCells: it gathers all the openings first and then records them. The source opens them while scanning. The two are the same here, because a player's view of the board is the cell-state snapshot taken at the start of the step.
- `_n_open` of both players is never read and is not modelled.
- Players.Player.ApplyProba: it requires `|index| == |proba|`, as the engine always returns aligned arrays.
- BasePlayers.BasePlayer: `_open_by_proba` is abstract in the source and has no body to model.
- Probability.ProbabilityCalculator.Compute: after the loop as written (Enumerate) it also tallies the state the loop stops on when that state is feasible (TallyLast). The source never checks that state; see Findings.
- Solver.MineSweeperSolver.DepthFirstSearch: it models the descent bounds counting the targets still to decide, `n_total - n_defined - 1 <= n_hard + (remaining targets)`. The bounds as written count only the hard cells; see Findings.
- Solver.MineSweeperSolver.DepthFirstSearch: the marks it restores are stated as the bomb and safe sets, and the pre-deduced bombs every leaf contains are a ghost constant (`deduced`) of the solver.

## Findings

| source | as written | input that shows it | evidently intended | confidence | as-written member | corrected member |
|---|---|---|---|---|---|---|
| src/probability.py:193-200 | the loop stops as soon as no slot is none or assumed, so the state it ends on (its last assumption just turned safe by `_update_target`) is never checked or tallied | a row of five cells: closed, closed, flagged, 1, closed, with 2 mines; the target's only consistent assignment is safe, the search ends on it untallied, the total is 0 and the land probability 1.0 | tally the final state when it is consistent: total C(2, 1) = 2 and land probability 0.5 | not executed | ComputeFinding.LastAssignmentMissed | ComputeFinding.LastAssignmentCounted |
| cpp/solver.cpp:270-283 | both descent bounds require the mines still to place to fit on the hard cells alone, ignoring the targets not yet decided | the row `-1 1 -1 -1 1 -1` with 2 mines: no hard cell, four targets; both bounds fail at target 0 although mines on cells 0 and 3 meet both clues, so no leaf is tallied, prob_sum is 0 and get_probs divides by zero | count the targets after the current one in the bound, so every consistent placement is reached | not executed | SolverFinding.GuardsRefuseRoot | SolverFinding.RowSolved |
