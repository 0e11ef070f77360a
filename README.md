# A verified model of the search engine of `search.rs`

`src/search.rs` solves a sliding puzzle by graph search. `search` starts
from an initial board and keeps four pieces of state:

- a frontier heap;
- a cost map (`path_costs`);
- a predecessor map (`predecessors`), from each state to its parent and the move taken;
- the set of expanded states.

Each iteration pops a state and skips it if it was already expanded. It
stops if the state passes the goal test. Otherwise it tries the four moves
in the order Up, Right, Down, Left. For each legal move it records the new
state's cost and predecessor, pushes the state, and ends the scan when the
new state is a goal. A goal met during the scan gets its plan from
`backtrack_moves`. That function follows the predecessor map back to a
state without an entry (`backtrack_moves_rec`), then reverses the moves it
collected. `check_end_search` is the goal test: the empty plan is valid.
`Stats::new` pairs the number of expanded states with the runtime.

The model is split into modules:

- `Board` (board.dfy) abstracts the puzzle into a `Domain<S>`. It has a
  transition function `apply(s, d): Option<S>` and a goal test. A state
  type `S` stands for `Board`. Plans are run with `Run`, and `IsValidPlan`
  is the board's plan check.
- `Backtrack` (backtrack.dfy) holds `backtrack_moves` and
  `backtrack_moves_rec`. The recursion is a function with fuel. Its result
  is `None` exactly when the source recursion would never return.
- `Engine` (search.dfy) holds `Stats`, `check_end_search` and `search`, as
  the code is written:
  - The `for` loop is the method `ExpandState`. It is proved against the
    specification functions `PushSuccessors`, `RecordCosts` and
    `RecordPreds`.
  - The `while` loop is in `Search` and its helper `ExpandPopped`.
  - Every heap priority is 1, so the heap is a multiset, and `pop` may
    return any element.
  - A ghost finite set `space` of states, closed under moves and holding
    the initial state, bounds the run. Termination is measured by the
    states of `space` not yet expanded, then by the heap size.
- `Corrected` (corrected.dfy) is `search` with the two defects listed under
  "## Findings" repaired. The search returns the plan as soon as the scan
  meets a goal. A successor is handled only when it is new or strictly
  cheaper through the expanded state: only then are its cost and
  predecessor written, is it pushed, and is it goal-tested.
  A state that passes the goal test when popped gets the plan
  `backtrack_moves` builds rather than the empty plan of line 92. The
  corrected search tests every state it pushes and returns at a goal, so
  it never pops a goal, and the change makes no difference.
- `Scenarios` (scenarios.dfy) holds concrete instances that exhibit both
  defects. It also runs the corrected search on them.

`Search` returns an `Outcome`. It is either `Returned(result, stats)` or
`BacktrackDiverges`. The second case covers the runs in which
`backtrack_moves_rec` follows a cycle of the predecessor map forever (in
the program, until the stack overflows).

## Model

| member | source | states |
|---|---|---|
| Engine.CheckEndSearch | src/search.rs:54-56 | the goal test holds exactly when the empty plan is valid from the state |
| Engine.ScanLength | src/search.rs:97-111 | from move `i` on, the scan tries moves up to and including the first whose successor passes the goal test, or all remaining moves |
| Engine.MovesTried | src/search.rs:97-111 | the `for` loop tries between 1 and 4 moves; no move before the last one tried reaches a goal; if it stops early, the last move tried reaches a goal |
| Engine.SuccessorBagMembers | src/search.rs:98-104 | a state is pushed by the scan exactly when one of the moves tried produces it |
| Engine.LastMoveIndex | src/search.rs:103 | for a pushed state, the last move tried that produces it; no later move tried produces it |
| Engine.PushSuccessorsBag | src/search.rs:104 | the scan adds to the heap exactly the bag of successors of the moves tried, one copy per move |
| Engine.RecordCostsEntry | src/search.rs:95-102 | after the scan, every successor has cost `cost + 1`, the cost of the expanded state; every other entry is unchanged and no other key appears |
| Engine.RecordPredsEntry | src/search.rs:103 | after the scan, every successor's entry is `(state, move)` for the last move producing it, overwriting any earlier entry; every other entry is unchanged |
| Engine.ScanFromResult | src/search.rs:97-111 | running the loop from any move before the one that stops it gives the heap and maps of all moves tried; it finds a goal exactly when the last move tried reaches one |
| Engine.ExpandState | src/search.rs:97-111 | the `for` loop: its new heap, cost map and predecessor map are those of the moves tried, in order; the goal it reports is the successor of the last move tried when that passes the goal test, and none otherwise |
| Engine.ExpansionKeepsFrontier | src/search.rs:85-104 | every state on the heap has a cost (so the cost lookup at line 95 never fails) and is reachable from the initial state |
| Engine.FullScanCovers | src/search.rs:97-104 | a scan that tries every move pushes every legal successor |
| Engine.InitialInvariant | src/search.rs:85-86 | the heap holding only the initial state, with cost 1, satisfies the loop invariant |
| Engine.SkipKeepsInvariant | src/search.rs:89-90 | discarding a popped state that was already expanded keeps the loop invariant |
| Engine.ExpandKeepsInvariant | src/search.rs:95-112 | expanding a state that is not a goal keeps the invariant: expanded states are reachable and not goals, and the heap covers every move out of them; a goal met in the scan stays on the heap |
| Engine.ExhaustedSearch | src/search.rs:88-120 | when the heap empties without a goal, the expanded set is exactly the reachable states and no valid plan exists |
| Engine.ExpandPopped | src/search.rs:95-112 | one expansion leaves the heap, cost map and predecessor map of the moves tried, adds exactly the popped state to the expanded set and keeps the invariant; without a goal in the scan the result is unchanged, with one it is the plan `backtrack_moves` builds on the new predecessor map, or the run diverges exactly when `backtrack_moves` has no result; divergence happens only when a goal is reachable |
| Engine.Search | src/search.rs:58-121 | an initial goal gives the empty plan with 0 expanded; otherwise the result is either none or the empty plan, and it is the empty plan exactly when a goal is reachable; `stats.expanded` never exceeds the number of reachable states and equals it when the result is none |
| Backtrack.BacktrackMovesRec | src/search.rs:29-41 | a returned list extends the accumulator by at most `fuel` moves |
| Backtrack.BacktrackMoves | src/search.rs:43-52 | a state without an entry gives the empty plan |
| Backtrack.BacktrackMovesRecFollowsChain | src/search.rs:29-41 | along a chain that ends after `k` steps, the recursion appends the chain's moves in goal-to-start order |
| Backtrack.BacktrackMovesRecEnds | src/search.rs:29-41 | when the recursion returns, the chain ends after as many steps as moves it added |
| Backtrack.BacktrackMovesFollowsChain | src/search.rs:43-52 | if the chain from a state ends after `k` steps, the result is the `k` recorded moves in start-to-goal order |
| Backtrack.BacktrackMovesNone | src/search.rs:29-52 | there is no result exactly when the chain never reaches a state without an entry, which is when the recursion never returns |
| Backtrack.BacktrackMovesValid | src/search.rs:43-52 | if every entry is a legal move and the chain ends, the result is a plan from the chain's root to the state |
| Backtrack.ChainMovesValid | src/search.rs:29-41 | if every entry is a legal move, the moves recorded on a chain lead from its root to its start |
| Backtrack.EndsWithinEntries | src/search.rs:29-41 | a chain that ends does so within as many steps as the map has entries, so fuel `\|preds\|` loses no terminating run |
| Backtrack.Reverse | src/search.rs:50 | the result has the input's length and holds its elements in reverse order |
| Backtrack.ReverseReverse | src/search.rs:50 | reversing twice gives back the list |
| Board.ReachedGoal | src/search.rs:54-56 | a reachable state passing the goal test makes the instance solvable |
| Corrected.TreePlan | src/search.rs:43-52 | in the corrected search's maps, `backtrack_moves` returns and gives a plan from the initial state |
| Corrected.TreeUpdate | src/search.rs:102-103 | the corrected update (only a strictly cheaper path) keeps the predecessor map a tree whose parents are cheaper than their children |
| Corrected.ExpandCheaper | src/search.rs:97-111 | the corrected `for` loop keeps the tree; a goal it reports has a cost; without a goal, every legal successor has a cost |
| Corrected.ExpandCorrected | src/search.rs:95-112 | a goal met during the scan yields a valid plan; otherwise the state joins the expanded set and the invariant is kept |
| Corrected.ExhaustedCorrected | src/search.rs:88-120 | when the corrected heap empties, the expanded set is the reachable states and no valid plan exists |
| Corrected.SearchCorrected | src/search.rs:58-121 | the corrected search returns a plan exactly when a goal is reachable, and every plan it returns is valid |
| Scenarios.UpLinePlans | src/search.rs:132-136 | on the three-cell line from cell 0 to cell 2, `[Up, Up]` is valid and the empty plan is not |
| Scenarios.UpLineBacktrack | src/search.rs:43-52 | the map built from cell 0, 1 -> (0, Up) and 2 -> (1, Up), gives the plan `[Up, Up]` for cell 2 |
| Scenarios.UpLineTrace | src/search.rs:95-111 | in the forced run from cell 0, expanding cells 0 and 1 meets the goal, `backtrack_moves` returns `[Up, Up]`, and the goal cell 2 is left as the only state on the heap |
| Scenarios.UpLineAsWritten | src/search.rs:88-107 | if `search` as written returns on that instance, its result is the empty plan, which is not valid: it never returns a valid plan there |
| Scenarios.UpLineCorrected | src/search.rs:58-121 | the corrected search returns a valid plan on that instance |
| Scenarios.DownLineScans | src/search.rs:97-111 | from cell 2 towards cell 0, the scan of cell 2 tries all four moves without a goal, and the scan of cell 1 stops at its third move, `Down`, on the goal cell 0 |
| Scenarios.DownLinePredsValue | src/search.rs:103 | the predecessor map after the two scans is 1 -> (2, Down), 2 -> (1, Up), 0 -> (1, Down) |
| Scenarios.CyclicMapDiverges | src/search.rs:29-52 | on that map the chain from cell 0 never ends and `backtrack_moves` has no result |
| Scenarios.DownLineCycle | src/search.rs:103 | the predecessor map `search` builds from cell 2 towards cell 0 has the cycle 1, 2, 1, and `backtrack_moves` never returns on it |
| Scenarios.DownLineTrace | src/search.rs:95-111 | the forced run from cell 2, driven through the `for` loop on cells 2 and then 1, meets the goal cell 0 with the cyclic map, on which `backtrack_moves` has no result |
| Scenarios.DownLineCorrected | src/search.rs:58-121 | the corrected search returns a valid plan on that instance |

`Stats::new` (src/search.rs:22-27) is the constructor of the datatype
`Engine.Stats`.

## Left out

- The board (`Board::apply`, `is_valid_plan`) is not part of this model. It is a `Domain` with an arbitrary transition function and goal test.
- The `MinHeap` internals are not part of this model. With every priority 1, `pop` may return any element, and the model proves its properties for every pop order.
- `std::time::Instant` and the `runtime` field of `Stats` are left out: wall-clock time is not logic. `Stats` holds only `expanded`.
- The `println!` tracing in `backtrack_moves` and `backtrack_moves_rec` is left out: it has no effect on the results.
- `crate::heuristics` is imported but not used by `search`.
- Engine.Search: costs are unbounded naturals. The `u32` in the cost map could overflow only after more than 4 billion expansions along one path, and the result does not depend on costs.
- Engine.Search: the search space is assumed finite through the ghost `space`. Reachable boards of a sliding puzzle are finite, so this excludes nothing the program can meet.
- Engine.Search: the contract does not say which of `Returned` or `BacktrackDiverges` a run ends in. That depends on the pop order and the board. `Scenarios.DownLineTrace` exhibits divergence on one instance.
- Scenarios.UpLineAsWritten: the contract holds for the runs that return. That the forced run on this instance returns rests on `Scenarios.UpLineTrace`: there `backtrack_moves` returns `[Up, Up]`, and the goal is the only state left on the heap. The composition of that trace with the `while` loop is not a proved call of `Engine.Search`.
- Backtrack.BacktrackMovesRec: the recursion is bounded by fuel `|preds|`. `Backtrack.EndsWithinEntries` shows no terminating chain needs more, and `Backtrack.BacktrackMovesNone` shows `None` means the recursion never returns.
- `Vec::reverse` is the pure function `Reverse` on sequences. The in-place reversal has no other visible effect.
- The test at src/search.rs:126-138 expects plans of optimal length. Optimality is not modelled: with every priority 1, the heap's order is arbitrary and neither search promises it.

## Findings

| source | as written | input that shows it | evidently intended | confidence | as-written member | corrected member |
|---|---|---|---|---|---|---|
| src/search.rs:88-107 | the `break` at line 107 leaves only the `for` loop, so the loop goes on, pops the goal it pushed and overwrites the plan with `Some(Vec::new())` at line 92 | cells 0, 1, 2 in a line, `Up` towards 2, start 0, goal 2: the result is the empty plan, not `[Up, Up]` | stop the search with the plan `backtrack_moves` built | not executed | Scenarios.UpLineAsWritten | Corrected.SearchCorrected |
| src/search.rs:102-103 | every legal move overwrites the successor's cost and predecessor, so a state's parent can become its own child | the same line, start 2, goal 0: the map becomes 1 -> 2, 2 -> 1, 0 -> 1, and `backtrack_moves_rec` recurses forever | keep the best cost and best parent: a successor is recorded, pushed and goal-tested only when `cost + 1` is strictly smaller than its known cost | not executed | Scenarios.DownLineTrace | Corrected.SearchCorrected |
